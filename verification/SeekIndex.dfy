/** The self-decimating seek index of containers_index.c: a fixed array of 2^len entries
    that forgets every other entry when full, by changing how entry numbers map to
    array slots instead of moving data. */
module SeekIndex {
  import opened Basics

  datatype Pos = Pos(time: int, offset: int)

  // ---------- the slot mapping ----------

  function Combine(high: nat, low: nat, base: nat): nat {
    MulLe(0, high, base);
    high * base + low
  }

  /** Divide by m, then put the remainder above the quotient. */
  function Swap(i: nat, g: nat, m: nat): nat
    requires m > 0
  {
    Combine(i % m, i / m, g)
  }

  /** The ENTRY macro: the slot of entry number i after gap halvings, mgap = len - gap. */
  function Entry(gap: nat, mgap: nat, i: nat): nat {
    if gap == 0 then i else Swap(i, Pow2(gap), Pow2(mgap))
  }

  /** The entry number a slot holds. */
  function EntryOfSlot(gap: nat, mgap: nat, slot: nat): nat {
    if gap == 0 then slot else Swap(slot, Pow2(mgap), Pow2(gap))
  }

  /** q * m + r for a high part q < g and a low part r < m stays below g * m. */
  lemma PairBelow(q: nat, r: nat, g: nat, m: nat)
    requires q < g && r < m
    ensures q * m + r < g * m
  {
    MulLe(q + 1, g, m);
    assert (q + 1) * m == q * m + m;
  }

  lemma QuotientBelow(a: nat, g: nat, m: nat)
    requires m > 0 && a < g * m
    ensures a / m < g
  {
    assert a == (a / m) * m + a % m;
    if a / m >= g { MulLe(g, a / m, m); }
  }

  /** Swapping the quotient and remainder of a division by m gives those of a division by g. */
  lemma SwapParts(i: nat, g: nat, m: nat)
    requires g > 0 && m > 0 && i < g * m
    ensures Swap(i, g, m) < m * g && Swap(Swap(i, g, m), m, g) == i
  {
    var q, r := i / m, i % m;
    QuotientBelow(i, g, m);
    PairBelow(r, q, m, g);
    DivModUnique(Combine(r, q, g), g, r, q);
  }

  /** ENTRY is a bijection on [0, 2^len): it stays in range and EntryOfSlot undoes it, both ways. */
  lemma EntryRoundTrip(gap: nat, mgap: nat, i: nat)
    requires i < Pow2(gap + mgap)
    ensures Entry(gap, mgap, i) < Pow2(gap + mgap)
    ensures EntryOfSlot(gap, mgap, Entry(gap, mgap, i)) == i
  {
    Pow2Add(gap, mgap);
    if gap > 0 {
      SwapParts(i, Pow2(gap), Pow2(mgap));
      MulCommutes(Pow2(gap), Pow2(mgap));
    }
  }

  lemma SlotRoundTrip(gap: nat, mgap: nat, slot: nat)
    requires slot < Pow2(gap + mgap)
    ensures EntryOfSlot(gap, mgap, slot) < Pow2(gap + mgap)
    ensures Entry(gap, mgap, EntryOfSlot(gap, mgap, slot)) == slot
  {
    Pow2Add(gap, mgap);
    if gap > 0 {
      MulCommutes(Pow2(gap), Pow2(mgap));
      SwapParts(slot, Pow2(mgap), Pow2(gap));
    }
  }

  /** At full gap the mapping is the identity again, so gap = len can wrap to 0. */
  lemma EntryWraps(len: nat, i: nat)
    requires i < Pow2(len)
    ensures Entry(len, 0, i) == i == Entry(0, len, i)
  {
    DivModUnique(i, 1, i, 0);
    assert Pow2(0) == 1;
  }

  lemma SwapHalves(i: nat, g: nat, h: nat)
    requires h > 0
    ensures Swap(i, 2 * g, h) == Swap(2 * i, g, 2 * h)
  {
    var q, r := i / h, i % h;
    DoubleRight(q, h);
    DivModUnique(2 * i, 2 * h, q, 2 * r);
    DoubleRight(r, g);
    MulCommutes(2 * r, g);
    DoubleRight(g, r);
    MulCommutes(r, g);
  }

  lemma SwapFlat(i: nat, h: nat)
    requires i < h
    ensures Swap(i, 1, h) == i
  {
    DivModUnique(i, h, 0, i);
  }

  /** Halving: entry i of the next mapping sits where entry 2i of this one does. */
  lemma EntryHalves(gap: nat, mgap: nat, i: nat)
    requires mgap > 0 && i < Pow2(gap + mgap - 1)
    ensures Entry(gap + 1, mgap - 1, i) == Entry(gap, mgap, 2 * i)
  {
    SwapHalves(i, Pow2(gap), Pow2(mgap - 1));
    if gap == 0 { SwapFlat(2 * i, Pow2(mgap)); }
  }

  // ---------- down-sampling ----------

  /** Position in the history of sample i when one record in 2^level is kept: i * 2^level. */
  function SampleAt(i: nat, level: nat): nat {
    if i == 0 then 0 else SampleAt(i - 1, level) + Pow2(level)
  }

  lemma {:induction false} SampleAtIsProduct(i: nat, level: nat)
    ensures SampleAt(i, level) == i * Pow2(level)
  {
    if i == 0 {
    } else {
      SampleAtIsProduct(i - 1, level);
      assert (i - 1) * Pow2(level) == i * Pow2(level) - Pow2(level);
    }
  }

  lemma {:induction false} SampleAtDoubles(i: nat, level: nat)
    ensures SampleAt(2 * i, level) == SampleAt(i, level + 1)
  {
    if i == 0 {
    } else {
      SampleAtDoubles(i - 1, level);
      assert 2 * i - 1 == 2 * (i - 1) + 1;
    }
  }

  lemma {:induction false} SampleAtMono(i: nat, j: nat, level: nat)
    requires i <= j
    ensures SampleAt(i, level) <= SampleAt(j, level)
    decreases j
  {
    if i == j {
    } else {
      SampleAtMono(i, j - 1, level);
    }
  }

  lemma {:induction false} SampleAtPow(len: nat, level: nat)
    ensures SampleAt(Pow2(len), level) == Pow2(len + level)
  {
    if len == 0 {
      assert SampleAt(1, level) == SampleAt(0, level) + Pow2(level);
    } else {
      SampleAtDoubles(Pow2(len - 1), level);
      SampleAtPow(len - 1, level + 1);
    }
  }

  predicate Kept(p: Pos, i: nat, h: seq<Pos>, level: nat) {
    SampleAt(i, level) < |h| && p == h[SampleAt(i, level)]
  }

  /** Every 2^level-th record of h. */
  predicate Sampled(c: seq<Pos>, h: seq<Pos>, level: nat) {
    forall i :: 0 <= i < |c| ==> Kept(c[i], i, h, level)
  }

  predicate Increasing(c: seq<Pos>) {
    forall i, j :: 0 <= i < j < |c| ==> c[i].time < c[j].time
  }

  /** c is what an index of 2^len slots holds after the accepted calls h, with one call in 2^level
      kept and count calls let by since the last one kept. */
  predicate Represents(len: nat, c: seq<Pos>, h: seq<Pos>, level: nat, count: nat) {
    && |c| <= Pow2(len) && count < Pow2(level)
    && Sampled(c, h, level) && Increasing(c)
    && (c == [] ==> h == [] && count == 0 && level == 0)
    && (c != [] ==> |h| == SampleAt(|c| - 1, level) + 1 + count)
    && (level > 0 ==> 2 * |c| > Pow2(len))
  }

  /** The entries at even places. */
  function Evens(c: seq<Pos>): (e: seq<Pos>)
    ensures |e| == |c| / 2
  {
    seq(|c| / 2, i requires 0 <= i < |c| / 2 => c[2 * i])
  }

  lemma SampledExtend(c: seq<Pos>, h: seq<Pos>, level: nat, p: Pos)
    requires Sampled(c, h, level) && SampleAt(|c|, level) == |h|
    ensures Sampled(c + [p], h + [p], level)
  {
    var d := c + [p];
    forall i | 0 <= i < |d| ensures Kept(d[i], i, h + [p], level) {
      if i < |c| { assert Kept(c[i], i, h, level); }
    }
  }

  lemma RepresentsSkip(len: nat, c: seq<Pos>, h: seq<Pos>, level: nat, count: nat, p: Pos)
    requires Represents(len, c, h, level, count) && count + 1 < Pow2(level)
    ensures Represents(len, c, h + [p], level, count + 1)
  {
    forall i | 0 <= i < |c| ensures Kept(c[i], i, h + [p], level) { assert Kept(c[i], i, h, level); }
  }

  lemma SampleAtEnd(len: nat, c: seq<Pos>, h: seq<Pos>, level: nat, count: nat)
    requires Represents(len, c, h, level, count) && count + 1 == Pow2(level)
    ensures SampleAt(|c|, level) == |h|
  {
  }

  lemma RepresentsTake(len: nat, c: seq<Pos>, h: seq<Pos>, level: nat, count: nat, p: Pos)
    requires Represents(len, c, h, level, count) && count + 1 == Pow2(level) && |c| < Pow2(len)
    requires c != [] ==> c[|c| - 1].time < p.time
    ensures Represents(len, c + [p], h + [p], level, 0)
  {
    SampleAtEnd(len, c, h, level, count);
    SampledExtend(c, h, level, p);
  }

  /** A full index keeps its even entries and takes the new record at twice the spacing. */
  lemma RepresentsHalve(len: nat, c: seq<Pos>, h: seq<Pos>, level: nat, count: nat, p: Pos)
    requires Represents(len, c, h, level, count) && count + 1 == Pow2(level) && |c| == Pow2(len) && len > 0
    requires c[|c| - 1].time < p.time
    ensures Represents(len, Evens(c) + [p], h + [p], level + 1, 0)
  {
    hide Sampled, Increasing, SampleAt, Evens, Pow2;
    var e := Evens(c);
    SampleAtEnd(len, c, h, level, count);
    SampleAtDoubles(|e|, level);
    SampledEvens(c, h, level);
    EvensIncreasing(c, p);
    Pow2Doubles(len - 1);
    assert 2 * |e| == |c|;
    SampledExtend(e, h, level + 1, p);
  }

  lemma SampledEvens(c: seq<Pos>, h: seq<Pos>, level: nat)
    requires Sampled(c, h, level)
    ensures Sampled(Evens(c), h, level + 1)
  {
    forall i | 0 <= i < |Evens(c)| ensures Kept(Evens(c)[i], i, h, level + 1) {
      SampleAtDoubles(i, level);
      assert Kept(c[2 * i], 2 * i, h, level);
    }
  }

  /** What an index represents after one more accepted call. */
  lemma RepresentsNext(len: nat, c: seq<Pos>, h: seq<Pos>, level: nat, count: nat, p: Pos)
    requires Represents(len, c, h, level, count) && len > 0
    requires c != [] ==> c[|c| - 1].time < p.time
    ensures count + 1 < Pow2(level) ==> Represents(len, c, h + [p], level, count + 1)
    ensures count + 1 == Pow2(level) && |c| < Pow2(len) ==> Represents(len, c + [p], h + [p], level, 0)
    ensures count + 1 == Pow2(level) && |c| == Pow2(len) ==> Represents(len, Evens(c) + [p], h + [p], level + 1, 0)
  {
    if count + 1 < Pow2(level) { RepresentsSkip(len, c, h, level, count, p); }
    else if |c| < Pow2(len) { RepresentsTake(len, c, h, level, count, p); }
    else { RepresentsHalve(len, c, h, level, count, p); }
  }

  lemma EvensIncreasing(c: seq<Pos>, p: Pos)
    requires Increasing(c) && c != [] && c[|c| - 1].time < p.time
    ensures Increasing(Evens(c) + [p])
  {
    var d := Evens(c) + [p];
    forall i, j | 0 <= i < j < |d| ensures d[i].time < d[j].time {
      assert 2 * i < |c|;
    }
  }

  lemma HistoryBelow(len: nat, c: seq<Pos>, h: seq<Pos>, level: nat, count: nat)
    requires Represents(len, c, h, level, count) && c != []
    ensures SampleAt(|c| - 1, level) < |h| <= SampleAt(|c|, level) && |h| <= Pow2(len + level)
  {
    SampleAtMono(|c|, Pow2(len), level);
    SampleAtPow(len, level);
  }

  lemma HistoryAbove(len: nat, c: seq<Pos>, h: seq<Pos>, level: nat, count: nat)
    requires Represents(len, c, h, level, count) && level > 0 && len > 0
    ensures |h| > Pow2(len - 1 + level)
  {
    SampleAtMono(Pow2(len - 1), |c| - 1, level);
    SampleAtPow(len - 1, level);
  }

  lemma SameLevel(len: nat, c: seq<Pos>, d: seq<Pos>, h: seq<Pos>, l: nat, m: nat, n: nat, k: nat)
    requires len > 0 && Represents(len, c, h, l, n) && Represents(len, d, h, m, k)
    ensures l >= m
  {
    if l < m {
      HistoryAbove(len, d, h, m, k);
      if c == [] { assert false; }
      HistoryBelow(len, c, h, l, n);
      Pow2Mono(len + l, len - 1 + m);
    }
  }

  /** The history alone fixes what the index holds: how far it has thinned out, which records
      it kept and how many calls it has let by since. */
  lemma HistoryDeterminesIndex(len: nat, c: seq<Pos>, d: seq<Pos>, h: seq<Pos>, l: nat, m: nat, n: nat, k: nat)
    requires len > 0 && Represents(len, c, h, l, n) && Represents(len, d, h, m, k)
    ensures l == m && c == d && n == k
  {
    SameLevel(len, c, d, h, l, m, n, k);
    SameLevel(len, d, c, h, m, l, k, n);
    if h != [] {
      HistoryBelow(len, c, h, l, n);
      HistoryBelow(len, d, h, m, k);
      if |c| < |d| { SampleAtMono(|c|, |d| - 1, l); }
      if |d| < |c| { SampleAtMono(|d|, |c| - 1, l); }
    }
  }

  /** Any accepted call lies less than one spacing after a record the index still holds. */
  lemma NothingFarFromAnEntry(len: nat, c: seq<Pos>, h: seq<Pos>, level: nat, count: nat, k: nat)
    requires Represents(len, c, h, level, count) && k < |h|
    ensures exists i :: 0 <= i < |c| && SampleAt(i, level) <= k < SampleAt(i, level) + Pow2(level)
                        && c[i] == h[SampleAt(i, level)]
  {
    HistoryBelow(len, c, h, level, count);
    var i := |c| - 1;
    while SampleAt(i, level) > k
      invariant 0 <= i < |c| && k < SampleAt(i + 1, level)
    {
      i := i - 1;
    }
  }

  // ---------- searching ----------

  /** First of the records with a time at or after t, by linear search; the last record if none. */
  function FirstAtOrAfter(c: seq<Pos>, t: int): (k: nat)
    requires c != []
    ensures k < |c|
    ensures c[k].time >= t || k == |c| - 1
    ensures forall i :: 0 <= i < k ==> c[i].time < t
  {
    if c[0].time >= t || |c| == 1 then 0 else 1 + FirstAtOrAfter(c[1..], t)
  }

  /** Last of the records with a time at or before t, by linear search; the first record if none. */
  function LastAtOrBefore(c: seq<Pos>, t: int): (k: nat)
    requires c != []
    ensures k < |c|
    ensures c[k].time <= t || k == 0
    ensures forall i :: k < i < |c| ==> c[i].time > t
  {
    if c[|c| - 1].time <= t || |c| == 1 then |c| - 1 else LastAtOrBefore(c[..|c| - 1], t)
  }

  /** The logical list of entries in an array of slots. */
  function Listing(slots: seq<Pos>, gap: nat, mgap: nat, next: nat): (c: seq<Pos>)
    requires |slots| == Pow2(gap + mgap) && next <= |slots|
    ensures |c| == next
  {
    seq(next, i requires 0 <= i < next => EntryRoundTrip(gap, mgap, i); slots[Entry(gap, mgap, i)])
  }

  class Index {
    const len: nat
    var next: nat
    var gap: nat
    var mgap: nat
    var count: nat
    var maxCount: nat
    var maxTime: int
    const entry: array<Pos>
    ghost var history: seq<Pos>  // every call accepted so far, in order

    ghost predicate Shape()
      reads this, entry
    {
      && len > 0 && entry.Length == Pow2(len)
      && gap + mgap == len && mgap > 0
      && next <= Pow2(len)
    }

    /** The entries held, in logical order. */
    ghost function Contents(): (c: seq<Pos>)
      requires Shape()
      reads this, entry
      ensures |c| == next
    {
      Listing(entry[..], gap, mgap, next)
    }

    /** One logical entry, read through the mapping. */
    function EntryValue(i: nat): (p: Pos)
      requires Shape() && i < next
      reads this, entry
      ensures p == Contents()[i]
    {
      EntryRoundTrip(gap, mgap, i);
      entry[Entry(gap, mgap, i)]
    }

    /** The index is the down-sampling of its history: entry i is accepted call i * 2^maxCount. */
    ghost predicate Valid()
      reads this, entry
    {
      && Shape()
      && Represents(len, Contents(), history, maxCount, count)
      && (next > 0 ==> maxTime == Contents()[next - 1].time)
    }

    /** vc_container_index_create: the requested length clamped to [16, 4096], rounded down to a power of two. */
    constructor (length: int)
      ensures Valid() && history == [] && fresh(entry)
      ensures 4 <= len <= 12
      ensures 16 <= length <= 4096 ==> Pow2(len) <= length < Pow2(len + 1)
      ensures length < 16 ==> Pow2(len) == 16
      ensures length > 4096 ==> Pow2(len) == 4096
    {
      var n := Log2(Clamp(length));
      assert Pow2(4) == 16 && Pow2(5) == 32 && Pow2(12) == 4096;
      len, next, gap, mgap, count, maxCount, maxTime := n, 0, 0, n, 0, 0, 0;
      entry := new Pos[Pow2(n)](_ => Pos(0, 0));
      history := [];
      LogBounds(n, Clamp(length));
      if length < 16 && n > 4 { Pow2Mono(5, n); }
      if length > 4096 && n < 12 { Pow2Mono(n + 1, 12); }
    }

    static lemma LogBounds(n: nat, v: nat)
      requires 16 <= v <= 4096 && Pow2(n) <= v < Pow2(n + 1)
      ensures 4 <= n <= 12
    {
      assert Pow2(4) == 16 && Pow2(13) == 8192;
      if n < 4 { Pow2Mono(n + 1, 4); }
      if n > 12 { Pow2Mono(13, n); }
    }

    static function Clamp(length: int): nat {
      if length < 16 then 16 else if length > 4096 then 4096 else length
    }

    static method Log2(length: nat) returns (n: nat)
      requires length > 0
      ensures Pow2(n) <= length < Pow2(n + 1)
    {
      var l: nat := length / 2;
      n := 0;
      assert Pow2(0) == 1 && Pow2(1) == 2;
      SampleAtIsProduct(l, 1);
      SampleAtIsProduct(l + 1, 1);
      while l != 0
        invariant SampleAt(l, n + 1) <= length < SampleAt(l + 1, n + 1)
        invariant Pow2(n) <= length
      {
        SampleAtMono(1, l, n + 1);
        SampleAtDoubles(l / 2, n + 1);
        SampleAtDoubles(l / 2 + 1, n + 1);
        SampleAtMono(2 * (l / 2), l, n + 1);
        SampleAtMono(l + 1, 2 * (l / 2 + 1), n + 1);
        n := n + 1;
        l := l / 2;
      }
    }

    /** Make room: keep the even entries by changing the mapping. Nothing in the array moves. */
    method Halve()
      requires Shape() && next == Pow2(len)
      modifies `next, `gap, `mgap, `maxCount
      ensures Shape() && Contents() == Evens(old(Contents())) && maxCount == old(maxCount) + 1
      ensures next < Pow2(len)
    {
      ghost var c := Contents();
      ghost var g, m := gap, mgap;
      next := next / 2;
      gap := gap + 1;
      mgap := mgap - 1;
      maxCount := maxCount + 1;
      if gap == len {
        gap := 0;
        mgap := len;
      }
      forall i | 0 <= i < next ensures Contents()[i] == Evens(c)[i] {
        EntryHalves(g, m, i);
        EntryWraps(len, i);
      }
    }

    /** Store the next entry; it lands in a slot no live entry uses. */
    method Append(p: Pos)
      requires Shape() && next < Pow2(len)
      modifies entry, `next
      ensures Shape() && Contents() == old(Contents()) + [p] && next == old(next) + 1
    {
      ghost var c := Contents();
      EntryRoundTrip(gap, mgap, next);
      var slot := Entry(gap, mgap, next);
      entry[slot] := p;
      next := next + 1;
      forall i | 0 <= i < next ensures Contents()[i] == (c + [p])[i] {
        EntryRoundTrip(gap, mgap, i);
      }
    }

    /** Keep the record of the current call, halving first if the array is full. */
    method Keep(p: Pos)
      requires Shape()
      modifies entry, `next, `gap, `mgap, `maxCount, `count, `maxTime
      ensures Shape() && count == 0 && maxTime == p.time
      ensures maxCount == old(maxCount) + (if old(next) == Pow2(len) then 1 else 0)
      ensures Contents() == (if old(next) == Pow2(len) then Evens(old(Contents())) else old(Contents())) + [p]
    {
      if next == Pow2(len) {
        Halve();
      }
      Append(p);
      count := 0;
      maxTime := p.time;
    }

    /** Count an accepted call and keep its record if its turn has come. */
    method Accept(p: Pos)
      requires Shape()
      modifies entry, `next, `gap, `mgap, `maxCount, `count, `maxTime
      ensures Shape()
      ensures old(count) + 1 != Pow2(old(maxCount)) ==>
                Contents() == old(Contents()) && maxCount == old(maxCount) && count == old(count) + 1
                && maxTime == old(maxTime)
      ensures old(count) + 1 == Pow2(old(maxCount)) ==>
                Contents() == (if old(next) == Pow2(len) then Evens(old(Contents())) else old(Contents())) + [p]
                && maxCount == old(maxCount) + (if old(next) == Pow2(len) then 1 else 0) && count == 0
                && maxTime == p.time
    {
      count := count + 1;
      if count == Pow2(maxCount) {
        Keep(p);
      }
    }

    /** vc_container_index_add: a call whose time the index already covers changes nothing;
        every other call joins the history, of which the index stays the down-sampling. */
    method Add(time: int, offset: int)
      requires Valid()
      modifies this, entry
      ensures Valid()
      ensures history == if old(next) != 0 && time <= old(maxTime) then old(history)
                         else old(history) + [Pos(time, offset)]
      ensures history == old(history) ==> Contents() == old(Contents()) && count == old(count)
    {
      if next != 0 && time <= maxTime {
        assert history != history + [Pos(time, offset)];
        return;
      }
      hide Sampled, Increasing, SampleAt, Pow2, Listing;
      ghost var c, h, level, n := Contents(), history, maxCount, count;
      Accept(Pos(time, offset));
      history := history + [Pos(time, offset)];
      assert Represents(len, Contents(), history, maxCount, count) by {
        RepresentsNext(len, c, h, level, n, Pos(time, offset));
      }
    }

    /** The binary search: the entry number linear search would give. */
    method Locate(time: int, later: bool) returns (guess: nat)
      requires Shape() && next > 0 && Increasing(Contents())
      ensures guess < next
      ensures guess == if later then FirstAtOrAfter(Contents(), time) else LastAtOrBefore(Contents(), time)
    {
      ghost var c := Contents();
      var start, end := 0, next - 1;
      guess := 0;
      var hit := false;
      while end - start > 1 && !hit
        invariant 0 <= start <= end < next && guess < next
        invariant start == 0 || c[start].time < time
        invariant end == next - 1 || c[end].time > time
        invariant !hit ==> guess == start || guess == end
        invariant hit ==> c[guess].time == time
        decreases end - start, !hit
      {
        guess := (start + end) / 2;
        var gtime := EntryValue(guess).time;
        if time < gtime {
          end := guess;
        } else if time > gtime {
          start := guess;
        } else {
          hit := true;
        }
      }
      if time != EntryValue(guess).time {
        if later {
          guess := if time <= EntryValue(start).time then start else end;
        } else {
          guess := if time >= EntryValue(end).time then end else start;
        }
      }
      SearchUnique(c, time, guess, later);
    }

    /** vc_container_index_get: the time and the offset returned were given in the same call of Add. */
    method Get(time: int, later: bool) returns (ok: bool, found: Pos, past: bool)
      requires Valid()
      ensures ok == (next > 0)
      ensures ok ==> found == Contents()[if later then FirstAtOrAfter(Contents(), time)
                                         else LastAtOrBefore(Contents(), time)]
      ensures ok ==> found in history
      ensures ok ==> (past <==> forall i :: 0 <= i < next ==> Contents()[i].time < time)
    {
      if next == 0 {
        return false, Pos(0, 0), false;
      }
      past := time > maxTime;
      var guess := Locate(time, later);
      ok, found := true, EntryValue(guess);
      assert SampleAt(guess, maxCount) < |history|;
    }
  }

  /** In an increasing list the linear searches are pinned down by their two sides. */
  lemma SearchUnique(c: seq<Pos>, t: int, k: nat, later: bool)
    requires Increasing(c) && k < |c|
    requires c[k].time == t
             || (later && (c[k].time > t || k == |c| - 1) && (k == 0 || c[k - 1].time < t))
             || (!later && (c[k].time < t || k == 0) && (k == |c| - 1 || c[k + 1].time > t))
    ensures k == if later then FirstAtOrAfter(c, t) else LastAtOrBefore(c, t)
  {
    if later {
      hide LastAtOrBefore;
      assert forall i :: 0 <= i < k ==> c[i].time < t;
    } else {
      hide FirstAtOrAfter;
      assert forall i :: k < i < |c| ==> c[i].time > t;
    }
  }
}
