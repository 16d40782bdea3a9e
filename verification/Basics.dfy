/** Bytes, optional values, byte order, and small facts about multiplication, division and powers of
    two. */
module Basics {
  type byte = x: int | 0 <= x < 256
  type Bytes = seq<byte>
  const WORD := 0x1_0000_0000
  datatype Option<T> = None | Some(value: T)

  lemma MulLe(a: int, b: int, c: nat)
    requires a <= b
    ensures a * c <= b * c
  {
  }

  lemma MulCommutes(a: int, b: int)
    ensures a * b == b * a
  {
  }

  lemma SmallMultiple(k: int, n: int)
    requires n > 0 && -n < k * n < n
    ensures k == 0
  {
    if k >= 1 { MulLe(1, k, n); }
    if k <= -1 { MulLe(k, -1, n); }
  }

  /** A quotient and remainder determine each other. */
  lemma DivModUnique(a: int, n: nat, q: int, r: nat)
    requires n > 0 && r < n && a == q * n + r
    ensures a / n == q && a % n == r
  {
    var q', r' := a / n, a % n;
    assert a == q' * n + r';
    assert (q - q') * n == q * n - q' * n;
    SmallMultiple(q - q', n);
  }

  function Pow2(k: nat): (p: nat)
    ensures p > 0
  {
    if k == 0 then 1 else 2 * Pow2(k - 1)
  }

  lemma DoubleRight(a: int, b: int)
    ensures a * (2 * b) == 2 * (a * b)
  {
  }

  lemma {:induction false} Pow2Add(a: nat, b: nat)
    ensures Pow2(a + b) == Pow2(a) * Pow2(b)
  {
    if b == 0 {
    } else {
      Pow2Add(a, b - 1);
      DoubleRight(Pow2(a), Pow2(b - 1));
    }
  }

  lemma {:induction false} Pow2Mono(a: nat, b: nat)
    requires a <= b
    ensures Pow2(a) <= Pow2(b)
    decreases b
  {
    if a == b {
    } else {
      Pow2Mono(a, b - 1);
    }
  }

  lemma Associates(a: Bytes, b: Bytes, c: Bytes)
    ensures a + b + c == a + (b + c)
  {
  }

  lemma SliceOfSlice(s: Bytes, lo: nat, hi: nat, p: nat, n: nat)
    requires lo <= hi <= |s| && p + n <= hi - lo
    ensures s[lo..hi][p..p + n] == s[lo + p..lo + p + n]
  {
    var a, b := s[lo..hi][p..p + n], s[lo + p..lo + p + n];
    assert forall i :: 0 <= i < n ==> a[i] == s[lo + p + i] && b[i] == s[lo + p + i];
  }

  /** Equal stretches have equal pieces. */
  lemma SameSlice(s: Bytes, t: Bytes, o: nat, p: nat, n: nat, a: nat, m: nat)
    requires o + n <= |s| && p + n <= |t| && a + m <= n && s[o..o + n] == t[p..p + n]
    ensures s[o + a..o + a + m] == t[p + a..p + a + m]
  {
    SliceOfSlice(s, o, o + n, a, m);
    SliceOfSlice(t, p, p + n, a, m);
  }

  lemma Pow2Doubles(k: nat)
    ensures Pow2(k + 1) == 2 * Pow2(k)
  {
  }

  lemma Pow2Eight()
    ensures Pow2(0) == 1 && Pow2(8) == 256
  {
  }

  lemma Pow2Values()
    ensures Pow2(0) == 1 && Pow2(8) == 256 && Pow2(16) == 0x1_0000 && Pow2(32) == WORD && Pow2(64) == WORD * WORD
  {
    hide Pow2;
    Pow2Eight();
    Pow2Add(8, 8);
    Pow2Add(16, 16);
    Pow2Add(32, 32);
  }

  // ---------- byte order ----------

  /** The low n bytes of v, most significant first. */
  function BigEndian(v: nat, n: nat): (b: Bytes)
    ensures |b| == n
  {
    if n == 0 then [] else BigEndian(v / 256, n - 1) + [v % 256]
  }

  /** The big-endian value of the n bytes of s at o. */
  function BigEndianAt(s: Bytes, o: nat, n: nat): nat
    requires o + n <= |s|
  {
    if n == 0 then 0 else BigEndianAt(s, o, n - 1) * 256 + s[o + n - 1]
  }

  lemma {:induction false} BigEndianSame(s: Bytes, t: Bytes, o: nat, p: nat, n: nat)
    requires o + n <= |s| && p + n <= |t| && s[o..o + n] == t[p..p + n]
    ensures BigEndianAt(s, o, n) == BigEndianAt(t, p, n)
  {
    if n == 0 {
    } else {
      SameSlice(s, t, o, p, n, 0, n - 1);
      BigEndianSame(s, t, o, p, n - 1);
      assert s[o + n - 1] == s[o..o + n][n - 1] == t[p..p + n][n - 1];
    }
  }

  lemma {:induction false} BigEndianRoundTrip(v: nat, n: nat)
    requires v < Pow2(8 * n)
    ensures BigEndianAt(BigEndian(v, n), 0, n) == v
  {
    if n == 0 {
    } else {
      Pow2Add(8 * (n - 1), 8);
      Pow2Values();
      BigEndianRoundTrip(v / 256, n - 1);
      assert BigEndian(v, n)[0..0 + n - 1] == BigEndian(v / 256, n - 1)[0..0 + n - 1];
      BigEndianSame(BigEndian(v, n), BigEndian(v / 256, n - 1), 0, 0, n - 1);
    }
  }

  /** The low n bytes of v, least significant first. */
  function LittleEndian(v: nat, n: nat): (b: Bytes)
    ensures |b| == n
  {
    if n == 0 then [] else [v % 256] + LittleEndian(v / 256, n - 1)
  }

  function FromLittleEndian(b: Bytes): nat {
    if b == [] then 0 else b[0] as int + 256 * FromLittleEndian(b[1..])
  }

  lemma {:induction false} LittleEndianRoundTrip(v: nat, n: nat)
    requires v < Pow2(8 * n)
    ensures FromLittleEndian(LittleEndian(v, n)) == v
    decreases n
  {
    if n == 0 {
    } else {
      Pow2Add(8 * (n - 1), 8);
      Pow2Values();
      LittleEndianRoundTrip(v / 256, n - 1);
    }
  }

  lemma DivideTwice(a: nat, p: nat, q: nat)
    requires p > 0 && q > 0
    ensures p * q > 0 && a / p / q == a / (p * q)
  {
    var x, r := a / p, a % p;
    var y, s := x / q, x % q;
    assert a == x * p + r && x == y * q + s;
    assert x * p == y * q * p + s * p;
    MulCommutes(p, q);
    MulLe(1, p, q);
    assert y * q * p == y * (p * q) by { assert q * p == p * q; }
    MulLe(s + 1, q, p);
    assert (s + 1) * p == s * p + p;
    DivModUnique(a, p * q, y, s * p + r);
  }

  /** Byte i from the low end of v, wherever v is written. */
  function ByteOf(v: nat, i: nat): (b: byte) {
    v / Pow2(8 * i) % 256
  }

  lemma ByteAbove(v: nat, i: nat)
    ensures ByteOf(v / 256, i) == ByteOf(v, i + 1) && ByteOf(v, 0) == v % 256
  {
    Pow2Values();
    Pow2Add(8, 8 * i);
    DivideTwice(v, 256, Pow2(8 * i));
    assert 8 + 8 * i == 8 * (i + 1);
  }

  lemma {:induction false} LittleEndianByte(v: nat, n: nat, i: nat)
    requires i < n
    ensures LittleEndian(v, n)[i] == ByteOf(v, i)
    decreases n
  {
    hide ByteOf;
    ByteAbove(v, if i == 0 then 0 else i - 1);
    if i == 0 {
    } else {
      LittleEndianByte(v / 256, n - 1, i - 1);
    }
  }

  lemma {:induction false} BigEndianByte(v: nat, n: nat, i: nat)
    requires i < n
    ensures BigEndian(v, n)[n - 1 - i] == ByteOf(v, i)
    decreases n
  {
    hide ByteOf;
    ByteAbove(v, if i == 0 then 0 else i - 1);
    if i == 0 {
    } else {
      BigEndianByte(v / 256, n - 1, i - 1);
      assert BigEndian(v, n)[n - 1 - i] == BigEndian(v / 256, n - 1)[n - 2 - (i - 1)];
    }
  }

  /** The bytes of a text of single-byte characters. */
  function Ascii(s: string): (b: Bytes)
    requires forall i :: 0 <= i < |s| ==> s[i] as int < 256
    ensures |b| == |s| && forall i :: 0 <= i < |s| ==> b[i] == s[i] as int
  {
    seq(|s|, i requires 0 <= i < |s| => var b: byte := s[i] as int; b)
  }
}
