/** The bit reader of containers_bits.c and the Exp-Golomb codes of sections 9.1 and 9.1.1 of
    ITU-T H.264. */
module Bits {
  import opened Basics

  /** Bit i of the data, the top bit of each byte first. */
  function BitAt(data: Bytes, i: nat): (b: nat)
    requires i < 8 * |data|
    ensures b < 2
  {
    (data[i / 8] / Pow2(7 - i % 8)) % 2
  }

  /** The number held by n bits from position p, most significant first. */
  function Number(data: Bytes, p: nat, n: nat): nat
    requires p + n <= 8 * |data|
  {
    if n == 0 then 0 else 2 * Number(data, p, n - 1) + BitAt(data, p + n - 1)
  }

  function Zeros(data: Bytes, p: nat, n: nat): (z: nat)
    requires p + n <= 8 * |data|
    ensures z <= n && (forall i :: p <= i < p + z ==> BitAt(data, i) == 0) && (z < n ==> BitAt(data, p + z) == 1)
    decreases n
  {
    if n == 0 || BitAt(data, p) == 1 then 0 else 1 + Zeros(data, p + 1, n - 1)
  }

  lemma ZerosIs(data: Bytes, p: nat, n: nat, z: nat)
    requires p + n <= 8 * |data| && z <= n && forall i :: p <= i < p + z ==> BitAt(data, i) == 0
    ensures Zeros(data, p, n) >= z
    ensures z < n && BitAt(data, p + z) == 1 ==> Zeros(data, p, n) == z
  {
    hide BitAt;
  }

  // ---------- numbers ----------

  /** Reading a + b bits is reading a bits and then b bits, joined. */
  lemma {:induction false} NumberSplit(data: Bytes, p: nat, a: nat, b: nat)
    requires p + a + b <= 8 * |data|
    ensures Number(data, p, a + b) == Number(data, p, a) * Pow2(b) + Number(data, p + a, b)
    decreases b
  {
    hide BitAt;
    if b == 0 {
    } else {
      NumberSplit(data, p, a, b - 1);
      DoubleRight(Number(data, p, a), Pow2(b - 1));
    }
  }

  lemma {:induction false} NumberBound(data: Bytes, p: nat, n: nat)
    requires p + n <= 8 * |data|
    ensures Number(data, p, n) < Pow2(n)
    decreases n
  {
    hide BitAt;
    if n == 0 {
    } else {
      NumberBound(data, p, n - 1);
    }
  }

  lemma {:induction false} ZeroNumber(data: Bytes, p: nat, n: nat)
    requires p + n <= 8 * |data|
    ensures Number(data, p, n) == 0 <==> forall i :: p <= i < p + n ==> BitAt(data, i) == 0
    decreases n
  {
    hide BitAt;
    if n == 0 {
    } else {
      ZeroNumber(data, p, n - 1);
    }
  }

  lemma HalfQuotient(c: nat, p: nat)
    requires p > 0
    ensures c / (2 * p) == (c / p) / 2
  {
    var q, r := (c / p) / 2, (c / p) % 2;
    var s := c % p;
    assert c == (c / p) * p + s;
    assert (c / p) * p == (2 * q + r) * p == q * (2 * p) + r * p;
    assert r * p + s < 2 * p by { if r == 0 {} else { assert r * p == p; } }
    DivModUnique(c, 2 * p, q, r * p + s);
  }

  lemma RemainderStep(x: nat, q: nat)
    requires q > 0
    ensures x % (2 * q) == 2 * ((x / 2) % q) + x % 2
  {
    var h := x / 2;
    assert h == (h / q) * q + h % q;
    assert x == 2 * h + x % 2 == (h / q) * (2 * q) + (2 * (h % q) + x % 2);
    DivModUnique(x, 2 * q, h / q, 2 * (h % q) + x % 2);
  }

  lemma ByteBit(data: Bytes, i: nat, left: nat)
    requires i < |data| && left < 8
    ensures BitAt(data, 8 * i + 7 - left) == (data[i] / Pow2(left)) % 2
  {
    assert (8 * i + 7 - left) / 8 == i && 7 - (8 * i + 7 - left) % 8 == left;
  }

  /** t of the last hi bits of a byte, as the code picks them out. */
  lemma {:induction false} ByteChunk(data: Bytes, i: nat, hi: nat, t: nat)
    requires i < |data| && t <= hi <= 8
    ensures Number(data, 8 * i + 8 - hi, t) == (data[i] / Pow2(hi - t)) % Pow2(t)
    decreases t
  {
    hide BitAt;
    if t == 0 {
    } else {
      ByteChunk(data, i, hi, t - 1);
      ByteBit(data, i, hi - t);
      OneBitMore(data[i], hi - t, t - 1);
      assert 8 * i + 7 - (hi - t) == 8 * i + 8 - hi + t - 1;
    }
  }

  lemma OneBitMore(c: nat, low: nat, t: nat)
    ensures (c / Pow2(low)) % Pow2(t + 1) == 2 * ((c / Pow2(low + 1)) % Pow2(t)) + (c / Pow2(low)) % 2
  {
    HalfQuotient(c, Pow2(low));
    RemainderStep(c / Pow2(low), Pow2(t));
  }

  /** One turn of the read loop. */
  lemma ChunkStep(data: Bytes, p: nat, done: nat, i: nat, left: nat, take: nat)
    requires i < |data| && take <= left <= 8 && p + done == 8 * i + 8 - left
    ensures Number(data, p, done + take)
         == Number(data, p, done) * Pow2(take) + (if take == 8 then data[i] else (data[i] / Pow2(left - take)) % Pow2(take))
  {
    hide Number, BitAt;
    ByteChunk(data, i, left, take);
    NumberSplit(data, p, done, take);
    if take == 8 { assert Pow2(8) == 256 && Pow2(0) == 1; }
  }

  // ---------- codes ----------

  function Log2(v: nat): (k: nat)
    requires v > 0
    ensures Pow2(k) <= v < Pow2(k + 1)
  {
    if v == 1 then 0 else 1 + Log2(v / 2)
  }

  lemma Log2Is(v: nat, k: nat)
    requires Pow2(k) <= v < Pow2(k + 1)
    ensures Log2(v) == k
  {
    var l := Log2(v);
    if l < k { Pow2Mono(l + 1, k); }
    if l > k { Pow2Mono(k + 1, l); }
  }

  /** The n-bit binary form of v. */
  function Binary(v: nat, n: nat): (s: seq<nat>)
    ensures |s| == n
  {
    if n == 0 then [] else Binary(v / 2, n - 1) + [v % 2]
  }

  function ZeroBits(k: nat): (s: seq<nat>)
    ensures |s| == k && forall i :: 0 <= i < k ==> s[i] == 0
  {
    seq(k, _ => 0)
  }

  /** The unsigned code of v: as many zeros as v + 1 has bits after its first, then v + 1. */
  function Code(v: nat): (s: seq<nat>)
    ensures |s| == 2 * Log2(v + 1) + 1
  {
    ZeroBits(Log2(v + 1)) + Binary(v + 1, Log2(v + 1) + 1)
  }

  /** The bits of s lie in the data at p. */
  predicate Holds(data: Bytes, p: nat, s: seq<nat>) {
    p + |s| <= 8 * |data| && forall i :: 0 <= i < |s| ==> BitAt(data, p + i) == s[i]
  }

  lemma {:induction false} HoldsBinary(data: Bytes, p: nat, v: nat, n: nat)
    requires p + n <= 8 * |data| && v < Pow2(n)
    ensures Holds(data, p, Binary(v, n)) <==> Number(data, p, n) == v
    decreases n
  {
    hide BitAt;
    if n == 0 {
    } else {
      HoldsBinary(data, p, v / 2, n - 1);
      var s := Binary(v, n);
      assert s[..n - 1] == Binary(v / 2, n - 1) && s[n - 1] == v % 2;
      if Holds(data, p, s) {
        assert forall i :: 0 <= i < n - 1 ==> Binary(v / 2, n - 1)[i] == s[i];
      }
      if Number(data, p, n) == v {
        assert Number(data, p, n - 1) == v / 2;
        assert forall i :: 0 <= i < n ==> s[i] == (if i < n - 1 then Binary(v / 2, n - 1)[i] else v % 2);
      }
    }
  }

  /** The code of v lies at p exactly when there are Log2(v + 1) zeros, a one, and then the
      bits of v + 1 below its first. */
  lemma HoldsCode(data: Bytes, p: nat, v: nat, n: nat)
    requires p + n <= 8 * |data|
    ensures var k := Log2(v + 1);
            (Holds(data, p, Code(v)) && |Code(v)| <= n)
            <==> (2 * k < n && Zeros(data, p, n) == k && Number(data, p + k + 1, k) == v + 1 - Pow2(k))
  {
    hide BitAt, Zeros, Number, Code, Binary, Holds, Pow2, Log2;
    var k := Log2(v + 1);
    if 2 * k < n {
      CodeParts(data, p, v);
      HoldsBinary(data, p + k, v + 1, k + 1);
      NumberSplit(data, p + k, 1, k);
      NumberBound(data, p + k + 1, k);
      OneBit(data, p + k);
      Pow2Doubles(k);
      if Holds(data, p, Code(v)) {
        TopBit(Number(data, p + k, 1), Number(data, p + k + 1, k), Pow2(k), v + 1);
        ZerosIs(data, p, n, k);
      }
      if Zeros(data, p, n) == k && Number(data, p + k + 1, k) == v + 1 - Pow2(k) {
        MulOne(Pow2(k));
      }
    }
  }

  lemma MulOne(a: nat)
    ensures 1 * a == a
  {
  }

  lemma CodeParts(data: Bytes, p: nat, v: nat)
    ensures var k := Log2(v + 1);
            Holds(data, p, Code(v)) <==> p + 2 * k + 1 <= 8 * |data| && (forall i :: p <= i < p + k ==> BitAt(data, i) == 0)
                                         && Holds(data, p + k, Binary(v + 1, k + 1))
  {
    hide BitAt, Binary, Log2;
    var k := Log2(v + 1);
    var z, b := ZeroBits(k), Binary(v + 1, k + 1);
    HoldsBoth(data, p, z, b);
    HoldsZeros(data, p, k);
  }

  lemma HoldsBoth(data: Bytes, p: nat, a: seq<nat>, b: seq<nat>)
    ensures Holds(data, p, a + b) <==> Holds(data, p, a) && Holds(data, p + |a|, b)
  {
    hide BitAt;
    var c := a + b;
    if Holds(data, p, c) {
      assert forall i :: 0 <= i < |a| ==> a[i] == c[i];
      forall i | 0 <= i < |b| ensures BitAt(data, p + |a| + i) == b[i] {
        assert BitAt(data, p + (|a| + i)) == c[|a| + i];
      }
    }
    if Holds(data, p, a) && Holds(data, p + |a|, b) {
      forall i | 0 <= i < |c| ensures BitAt(data, p + i) == c[i] {
        if i >= |a| { assert BitAt(data, p + |a| + (i - |a|)) == b[i - |a|]; }
      }
    }
  }

  lemma HoldsZeros(data: Bytes, p: nat, k: nat)
    ensures Holds(data, p, ZeroBits(k)) <==> p + k <= 8 * |data| && forall i :: p <= i < p + k ==> BitAt(data, i) == 0
  {
    hide BitAt;
    if Holds(data, p, ZeroBits(k)) {
      forall i | p <= i < p + k ensures BitAt(data, i) == 0 { assert BitAt(data, p + (i - p)) == ZeroBits(k)[i - p]; }
    }
  }

  /** With k zeros and a marker at p, exactly one value has its code there. */
  lemma CodeValue(data: Bytes, p: nat, n: nat, u: nat)
    requires p + n <= 8 * |data|
    ensures var k := Zeros(data, p, n);
            (Holds(data, p, Code(u)) && |Code(u)| <= n) <==> (2 * k < n && u + 1 == Number(data, p + k + 1, k) + Pow2(k))
    ensures Holds(data, p, Code(u)) && |Code(u)| <= n ==> |Code(u)| == 2 * Zeros(data, p, n) + 1
  {
    hide BitAt, Zeros, Number, Code, Holds, Pow2, Log2;
    HoldsCode(data, p, u, n);
    var k := Zeros(data, p, n);
    if 2 * k < n && u + 1 == Number(data, p + k + 1, k) + Pow2(k) {
      NumberBound(data, p + k + 1, k);
      Pow2Doubles(k);
      Log2Is(u + 1, k);
    }
  }

  /** Which codes fit 32 bits. */
  lemma FitsWord(k: nat, c: nat)
    requires c < Pow2(k)
    ensures c + Pow2(k) - 1 <= 0xFFFF_FFFF <==> k < 32 || (k == 32 && c == 0)
    ensures k == 32 ==> Pow2(k) == WORD
  {
    hide Pow2;
    Pow2Values();
    Pow2Doubles(k);
    Pow2Doubles(32);
    if k < 32 { Pow2Mono(k + 1, 32); }
    if k > 32 { Pow2Mono(33, k); }
  }

  lemma OneBit(data: Bytes, p: nat)
    requires p < 8 * |data|
    ensures Number(data, p, 1) == BitAt(data, p)
  {
    assert Number(data, p, 0) == 0;
  }

  lemma TopBit(b: nat, low: nat, top: nat, v: nat)
    requires b < 2 && low < top && b * top + low == v && top <= v < 2 * top
    ensures b == 1 && low == v - top
  {
  }

  /** The signed value with unsigned code number u, and back (section 9.1.1). */
  function Signed(u: nat): int {
    if u % 2 == 1 then (u + 1) / 2 else -(u / 2)
  }

  function CodeNumber(s: int): nat {
    if s > 0 then 2 * s - 1 else -2 * s
  }

  lemma SignedRoundTrip(s: int, u: nat)
    ensures Signed(CodeNumber(s)) == s && CodeNumber(Signed(u)) == u
    ensures -0x8000_0000 < s < 0x8000_0000 <==> CodeNumber(s) < 0xFFFFFFFF
  {
  }

  /** Code numbers 1, 2, 3, 4, ... are 1, -1, 2, -2, ...: the positive of a pair first. */
  lemma SignsAlternate(k: nat)
    requires k >= 1
    ensures Signed(2 * k - 1) == k && Signed(2 * k) + k == 0 && Signed(0) == 0
  {
  }

  /** Greater magnitudes never have smaller code numbers. */
  lemma MagnitudesRise(u: nat, v: nat)
    requires u <= v
    ensures -Signed(v) <= Signed(u) <= Signed(v) || Signed(v) <= Signed(u) <= -Signed(v)
  {
  }

  // ---------- what codes and numbers look like ----------

  /** The number that bits spell, the first one the greatest. */
  function Spelled(s: seq<nat>): nat {
    if s == [] then 0 else 2 * Spelled(s[..|s| - 1]) + s[|s| - 1]
  }

  lemma {:induction false} BinarySpells(v: nat, n: nat)
    requires v < Pow2(n)
    ensures Spelled(Binary(v, n)) == v && forall i :: 0 <= i < n ==> Binary(v, n)[i] < 2
    decreases n
  {
    if n == 0 {
    } else {
      BinarySpells(v / 2, n - 1);
      assert Binary(v, n)[..n - 1] == Binary(v / 2, n - 1);
    }
  }

  lemma {:induction false} ZerosSpellNothing(k: nat, s: seq<nat>)
    ensures Spelled(ZeroBits(k) + s) == Spelled(s)
    decreases |s|, k
  {
    if s == [] {
      assert ZeroBits(k) + s == ZeroBits(k);
      if k > 0 {
        assert ZeroBits(k)[..k - 1] == ZeroBits(k - 1) == ZeroBits(k - 1) + [];
        ZerosSpellNothing(k - 1, []);
      }
    } else {
      assert (ZeroBits(k) + s)[..k + |s| - 1] == ZeroBits(k) + s[..|s| - 1];
      ZerosSpellNothing(k, s[..|s| - 1]);
    }
  }

  /** A code is an odd number of bits that spell v + 1, the first half of them zero and the middle
      one not. */
  lemma CodeSpells(v: nat)
    ensures var s := Code(v); var k := |s| / 2;
            && |s| == 2 * k + 1 && Spelled(s) == v + 1 && s[k] == 1
            && (forall i :: 0 <= i < k ==> s[i] == 0) && (forall i :: 0 <= i < |s| ==> s[i] < 2)
  {
    hide Spelled;
    var k := Log2(v + 1);
    BinarySpells(v + 1, k + 1);
    ZerosSpellNothing(k, Binary(v + 1, k + 1));
    TopOfBinary(v + 1, k);
    assert Code(v)[k] == Binary(v + 1, k + 1)[0];
  }

  lemma {:induction false} TopOfBinary(v: nat, k: nat)
    requires Pow2(k) <= v < Pow2(k + 1)
    ensures Binary(v, k + 1)[0] == 1
    decreases k
  {
    if k == 0 {
      assert v == 1 && Binary(0, 0) == [];
    } else {
      TopOfBinary(v / 2, k - 1);
    }
  }

  /** No code is the start of another. */
  lemma PrefixFree(u: nat, v: nat)
    requires Code(u) <= Code(v)
    ensures u == v
  {
    CodeSpells(u);
    CodeSpells(v);
    hide Code, Spelled;
    var s, t := Code(u), Code(v);
    var k, l := |s| / 2, |t| / 2;
    assert s[k] == t[k];
    assert !(k < l);
    assert s == t;
  }

  lemma WholeByte(data: Bytes, i: nat)
    requires i < |data|
    ensures Number(data, 8 * i, 8) == data[i] && Pow2(8) == 256
  {
    hide BitAt, Number;
    ByteChunk(data, i, 8, 8);
    Pow2Eight();
  }

  /** From the start of a byte on, bits read as the bytes in big-endian order. */
  lemma {:induction false} AlignedIsBigEndian(data: Bytes, i: nat, n: nat)
    requires i + n <= |data|
    ensures Number(data, 8 * i, 8 * n) == BigEndianAt(data, i, n)
    decreases n
  {
    hide BitAt, Pow2;
    if n == 0 {
    } else {
      hide Number;
      AlignedIsBigEndian(data, i, n - 1);
      NumberSplit(data, 8 * i, 8 * (n - 1), 8);
      WholeByte(data, i + n - 1);
    }
  }

  // ---------- the reader ----------

  /** The data lies at addresses from start on; address 0 is the null pointer that marks an
      invalid stream. */
  class BitStream {
    const start: nat
    const data: Bytes
    var buffer: nat
    var bytes: nat
    var bits: nat

    /** While bits are left, the pointer stays on the data. */
    predicate Ok()
      reads this
    {
      && start > 1 && bits < 8
      && (Available() > 0 ==> start - 1 <= buffer && buffer + bytes < start + |data| && (bits > 0 ==> start <= buffer))
    }

    predicate IsValid()
      reads this
    {
      buffer != 0
    }

    function Available(): nat
      reads this
    {
      if buffer == 0 then 0 else bytes * 8 + bits
    }

    /** Where the next bit is. */
    function Position(): int
      reads this
    {
      (buffer + 1 - start) * 8 - bits
    }

    /** The remaining bits lie inside the data. */
    lemma InData()
      requires Ok() && Available() > 0
      ensures 0 <= Position() && Position() + Available() <= 8 * |data|
    {
    }

    function LeadingZeros(): nat
      requires Ok() && Available() > 0
      reads this
    {
      InData(); Zeros(data, Position(), Available())
    }

    /** A code starts here and is complete within the remaining bits. */
    predicate Complete()
      requires Ok()
      reads this
    {
      Available() > 0 && 2 * LeadingZeros() < Available()
    }

    /** An incomplete code is taken for one when the number of bits left is even. */
    predicate Misread()
      requires Ok()
      reads this
    {
      Available() > 0 && !Complete() && Available() % 2 == 0
    }

    /** What the second half of the remaining bits reads as. */
    function HalfNumber(): nat
      requires Ok() && Available() > 0 && Available() % 2 == 0
      reads this
    {
      InData(); Number(data, Position() + Available() / 2, Available() / 2)
    }

    lemma NoMarkerAtAll()
      requires Ok() && Misread()
      ensures HalfNumber() == 0 <==> LeadingZeros() == Available()
    {
      hide BitAt, Number;
      InData();
      var p, h := Position(), Available() / 2;
      ZeroNumber(data, p + h, h);
      if HalfNumber() == 0 {
        assert forall i :: p <= i < p + 2 * h ==> BitAt(data, i) == 0;
        ZerosIs(data, p, 2 * h, 2 * h);
      }
    }

    constructor (start: nat, data: Bytes)
      requires start > 1
      ensures Ok() && IsValid() && this.data == data && Position() == 0 && Available() == 8 * |data|
    {
      this.start, this.data := start, data;
      buffer, bytes, bits := start - 1, |data|, 0;
    }

    method Invalidate() returns (zero: nat)
      modifies `buffer
      ensures !IsValid() && zero == 0
    {
      buffer := 0;
      zero := 0;
    }

    /** vc_container_bits_skip. Skipping nothing on an invalid stream leaves it invalid only
        when its byte count is zero too. */
    method Skip(n: nat)
      requires Ok()
      modifies `buffer, `bytes, `bits
      ensures Ok()
      ensures n > old(Available()) ==> !IsValid()
      ensures n <= old(Available()) && old(IsValid()) ==>
                IsValid() && Position() == old(Position()) + n && Available() == old(Available()) - n
      ensures n == 0 && !old(IsValid()) ==> Available() == 0 && (IsValid() <==> old(bytes) > 0)
    {
      var have := Available();
      if have < n {
        var _ := Invalidate();
        return;
      }
      have := have - n;
      var newBytes := have / 8;
      bits := have % 8;
      buffer := buffer + (bytes - newBytes);
      bytes := newBytes;
    }

    /** vc_container_bits_read_u32: the next n bits as a number, which fits 32 bits. */
    method ReadU32(n: nat) returns (value: nat)
      requires Ok() && n <= 32
      modifies `buffer, `bytes, `bits
      ensures Ok() && value < Pow2(n) && (n > 0 || unchanged(this))
      ensures n > old(Available()) ==> !IsValid() && value == 0 && bytes == old(bytes) && bits == old(bits)
      ensures 0 < n <= old(Available()) ==>
                IsValid() && Position() == old(Position()) + n && Available() == old(Available()) - n
                && 0 <= old(Position()) && old(Position()) + n <= 8 * |data| && value == Number(data, old(Position()), n)
    {
      hide Number, BitAt, Pow2;
      value := 0;
      if n > Available() {
        var _ := Invalidate();
        return;
      }
      if n == 0 { return; }
      InData();
      ghost var p: nat := Position();
      var needed: nat, left: nat := n, bits;
      NoBits(data, p);
      while needed > 0
        invariant 0 <= needed <= n && left < 8 && buffer > 0 && bits == old(bits)
        invariant value == Number(data, p, n - needed)
        invariant (buffer + 1 - start) * 8 - left == p + (n - needed)
        invariant bytes * 8 + left == old(Available()) - (n - needed)
        invariant start - 1 <= buffer && buffer + bytes < start + |data| && (left > 0 ==> start <= buffer)
      {
        ghost var done: nat := n - needed;
        if left == 0 {
          bytes := bytes - 1;
          buffer := buffer + 1;
          left := 8;
        }
        var take: nat := if needed < left then needed else left;
        ChunkStep(data, p, done, buffer - start, left, take);
        left := left - take;
        needed := needed - take;
        var c := data[buffer - start];
        value := value * Pow2(take) + (if take == 8 then c else (c / Pow2(left)) % Pow2(take));
      }
      NumberBound(data, p, n);
      bits := left;
    }

    lemma NoBits(data: Bytes, p: nat)
      requires p <= 8 * |data|
      ensures Number(data, p, 0) == 0
    {
    }

    /** The scan for the marker: it ends behind it, or once half the bits have been seen. */
    method Scan(ghost p: nat, ghost n: nat) returns (zeros: nat, bitsLeft: nat, left: nat, ghost found: bool)
      requires Ok() && n == Available() > 0 && p == Position()
      requires p + n <= 8 * |data|
      modifies `buffer, `bytes
      ensures left < 8 && buffer > 0 && bits == old(bits) && start - 1 <= buffer && buffer + bytes < start + |data|
      ensures (left > 0 ==> start <= buffer) && bitsLeft == bytes * 8 + left == n - zeros - (if found then 1 else 0)
      ensures (buffer + 1 - start) * 8 - left == p + zeros + (if found then 1 else 0)
      ensures forall i :: p <= i < p + zeros ==> BitAt(data, i) == 0
      ensures if found then zeros <= bitsLeft && BitAt(data, p + zeros) == 1 else bitsLeft <= zeros <= bitsLeft + 1
    {
      hide BitAt, Pow2;
      bitsLeft, left, zeros, found := Available(), bits, 0, false;
      var more := true;
      while zeros < bitsLeft && more
        invariant more == !found
        invariant left < 8 && buffer > 0 && bits == old(bits)
        invariant (buffer + 1 - start) * 8 - left == p + zeros + (if found then 1 else 0)
        invariant bitsLeft == bytes * 8 + left == n - zeros - (if found then 1 else 0)
        invariant start - 1 <= buffer && buffer + bytes < start + |data| && (left > 0 ==> start <= buffer)
        invariant forall i :: p <= i < p + zeros ==> BitAt(data, i) == 0
        invariant zeros <= bitsLeft + 1
        invariant found ==> zeros <= bitsLeft && BitAt(data, p + zeros) == 1
        decreases bitsLeft
      {
        if left == 0 {
          bytes := bytes - 1;
          buffer := buffer + 1;
          left := 8;
        }
        left := left - 1;
        bitsLeft := bitsLeft - 1;
        ByteBit(data, buffer - start, left);
        if (data[buffer - start] / Pow2(left)) % 2 == 1 {
          found, more := true, false;
        } else {
          zeros := zeros + 1;
        }
      }
    }

    /** vc_container_bits_get_leading_zero_bits. A complete code's zeros and marker are taken.
        Otherwise the scan stops half way through the remaining bits: with an odd number of
        them the stream becomes invalid, but with an even number half of them are reported as
        zeros although no marker was found among them. */
    method LeadingZeroBits() returns (zeros: nat)
      requires Ok()
      modifies `buffer, `bytes, `bits
      ensures Ok()
      ensures old(Complete()) ==> IsValid() && zeros == old(LeadingZeros())
      ensures old(Complete()) ==> Position() == old(Position()) + zeros + 1 && Available() == old(Available()) - zeros - 1
      ensures old(Available() > 0 && !Complete() && Available() % 2 == 0) ==>
                IsValid() && 2 * zeros == old(Available()) && Position() == old(Position()) + zeros && Available() == zeros
      ensures old(Available() == 0 || (!Complete() && Available() % 2 == 1)) ==> !IsValid() && zeros == 0
    {
      hide BitAt, Pow2, Zeros;
      if Available() == 0 {
        zeros := Invalidate();
        return;
      }
      InData();
      ghost var p: nat, n: nat := Position(), Available();
      var bitsLeft, left;
      ghost var found;
      zeros, bitsLeft, left, found := Scan(p, n);
      ZerosIs(data, p, n, zeros);
      if zeros > bitsLeft {
        zeros := Invalidate();
        return;
      }
      bits := left;
    }

    /** vc_container_bits_skip_exp_golomb goes over a whole complete code whatever its size. */
    method SkipExpGolomb()
      requires Ok()
      modifies `buffer, `bytes, `bits
      ensures Ok()
      ensures old(Complete()) ==> IsValid() && Position() == old(Position()) + 2 * old(LeadingZeros()) + 1
      ensures old(Available() > 0 && !Complete() && Available() % 2 == 0) ==>
                IsValid() && Position() == old(Position()) + old(Available())
      ensures old(Available() == 0 || (!Complete() && Available() % 2 == 1)) ==> Available() == 0
    {
      var zeros := LeadingZeroBits();
      Skip(zeros);
    }

    /** The code of v starts here and lies within the remaining bits. */
    predicate AtCode(v: nat)
      requires Ok()
      reads this
    {
      Available() > 0 && |Code(v)| <= Available() && (InData(); Holds(data, Position(), Code(v)))
    }

    lemma CodesHere(u: nat)
      requires Ok()
      ensures AtCode(u) <==> Complete() && u + 1 == Number(data, Position() + LeadingZeros() + 1, LeadingZeros()) + Pow2(LeadingZeros())
      ensures AtCode(u) ==> |Code(u)| == 2 * LeadingZeros() + 1
    {
      hide BitAt, Zeros, Number, Code, Holds, Pow2, Log2;
      if Available() > 0 {
        InData();
        CodeValue(data, Position(), Available(), u);
      }
    }

    /** vc_container_bits_read_u32_exp_golomb: v comes back exactly when its code stands there
        and v fits 32 bits, but for the truncated codes that LeadingZeroBits lets pass. */
    method ReadU32ExpGolomb() returns (v: nat)
      requires Ok()
      modifies `buffer, `bytes, `bits
      ensures Ok() && v <= 0xFFFF_FFFF && (!IsValid() ==> v == 0)
      ensures forall u :: u <= 0xFFFF_FFFF && old(AtCode(u)) ==> IsValid() && v == u && Position() == old(Position()) + |Code(u)|
      ensures forall u :: u > 0xFFFF_FFFF && old(AtCode(u)) ==> !IsValid()
      ensures old(Complete()) && IsValid() ==> old(AtCode(v))
      ensures !old(Complete()) && IsValid() ==> 0 < old(Available()) <= 64 && old(Available()) % 2 == 0 && Available() == 0
      ensures old(Misread() && Available() < 64) ==> IsValid() && v == old(HalfNumber()) + Pow2(old(Available()) / 2) - 1
      ensures old(Misread() && Available() == 64) ==> (IsValid() <==> old(LeadingZeros()) == 64)
      ensures old(Misread() && Available() == 64) && IsValid() ==> v == 0xFFFF_FFFF
    {
      hide BitAt, Zeros, Number, Code, Holds, Pow2, Log2, AtCode;
      if Misread() { NoMarkerAtAll(); }
      ghost var complete := Complete();
      ghost var k: nat := if complete then LeadingZeros() else 0;
      ghost var c: nat := if complete then (InData(); Number(data, Position() + k + 1, k)) else 0;
      forall u: nat ensures AtCode(u) <==> complete && u + 1 == c + Pow2(k)
               ensures AtCode(u) ==> |Code(u)| == 2 * k + 1 {
        CodesHere(u);
      }
      if complete {
        InData();
        NumberBound(data, Position() + k + 1, k);
        FitsWord(k, c);
      }
      var zeros := LeadingZeroBits();
      if zeros > 32 {
        v := Invalidate();
        return;
      }
      v := ReadU32(zeros);
      FitsWord(zeros, v);
      if zeros == 32 {
        if v != 0 {
          v := Invalidate();
          return;
        }
        v := 0xFFFF_FFFF;
        return;
      }
      Pow2Values();
      v := v + Pow2(zeros) - 1;
    }

    /** vc_container_bits_read_s32_exp_golomb: the signed values below 2^31 in magnitude. */
    method ReadS32ExpGolomb() returns (v: int)
      requires Ok()
      modifies `buffer, `bytes, `bits
      ensures Ok() && -0x8000_0000 < v < 0x8000_0000
      ensures forall s: int :: -0x8000_0000 < s < 0x8000_0000 && old(AtCode(CodeNumber(s))) ==>
                IsValid() && v == s && Position() == old(Position()) + |Code(CodeNumber(s))|
      ensures old(Complete()) && IsValid() ==> old(AtCode(CodeNumber(v)))
    {
      hide BitAt, Zeros, Number, Code, Holds, Pow2, Log2, AtCode, Complete;
      var u := ReadU32ExpGolomb();
      SignedRoundTrip(Signed(u), u);
      forall s: int ensures CodeNumber(s) == u <==> s == Signed(u) { SignedRoundTrip(s, u); }
      if u == 0xFFFF_FFFF {
        v := Invalidate();
        return;
      }
      var odd: int, half: int := u % 2, u / 2;
      v := (odd * 2 - 1) * (half + odd);
      SignMultiply(odd, half);
    }

    lemma SignMultiply(odd: int, half: int)
      requires 0 <= odd < 2
      ensures (odd * 2 - 1) * (half + odd) == (if odd == 1 then half + 1 else -half)
    {
    }
  }

  // ---------- where the reader accepts too much ----------

  /** A single zero byte holds no marker, so no code: it is read as 15. */
  method TruncatedCodeAccepted() returns (v: nat, s: BitStream)
    ensures v == 15 && s.IsValid() && s.data == [0]
    ensures Zeros([0], 0, 8) == 8
  {
    hide BitAt, Zeros, Number, Pow2, Code, Holds, Log2, BitStream.AtCode;
    s := new BitStream(2, [0]);
    ZeroByte();
    assert s.LeadingZeros() == 8;
    assert s.Misread() && s.HalfNumber() == 0;
    v := s.ReadU32ExpGolomb();
  }

  lemma ZeroByte()
    ensures Zeros([0], 0, 8) == 8 && Number([0], 4, 4) == 0 && Pow2(4) == 16
  {
    forall i: nat | i < 8 ensures BitAt([0], i) == 0 { ZeroDivided(Pow2(7 - i % 8)); }
    hide BitAt;
    ZerosIs([0], 0, 8, 8);
    ZeroNumber([0], 4, 4);
  }

  lemma ZeroDivided(p: nat)
    requires p > 0
    ensures 0 / p == 0
  {
    DivModUnique(0, p, 0, 0);
  }

  /** Reading past the end makes the stream invalid; skipping nothing makes it valid again. */
  method InvalidRevived() returns (s: BitStream)
    ensures s.IsValid() && s.data == [0]
  {
    s := new BitStream(2, [0]);
    var v := s.ReadU32(32);
    assert !s.IsValid();
    s.Skip(0);
  }
}
