/** Time kept by counting samples (containers_time.h): whole seconds are moved into the time as
    they fill up, and the samples left over stay as a remainder. */
module MediaTime {
  import opened Basics

  function Word(x: nat): nat {
    x % WORD
  }

  /** An unknown time is None. */
  datatype Clock = Clock(num: nat, den: nat, remainder: nat, base: nat, time: Option<int>)

  predicate Known(c: Clock) {
    c.time.Some? && c.num != 0 && c.den != 0
  }

  function Get(c: Clock): Option<int> {
    if !Known(c) then None else Some(c.time.value + c.remainder * c.base * c.den / c.num)
  }

  function SetRate(c: Clock, num: nat, den: nat): Clock {
    if c.num == num && c.den == den then c
    else Clock(num, den, 0, c.base, if c.remainder != 0 then Get(c) else c.time)
  }

  function Set(c: Clock, time: Option<int>): Clock {
    if time.None? then c else c.(remainder := 0, time := time)
  }

  /** The arithmetic is unsigned and 32 bits wide but for the addition to the time. */
  function Add(c: Clock, samples: nat): Clock {
    if !Known(c) then c
    else
      var total := Word(samples + c.remainder);
      var increment := Increment(total, c.num, c.den);
      c.(time := Some(c.time.value + Word(increment * c.base)), remainder := Left(total, increment, c.num, c.den))
  }

  function Increment(total: nat, num: nat, den: nat): nat
    requires num > 0
  {
    Word(total * den) / num
  }

  function Left(total: nat, increment: nat, num: nat, den: nat): nat
    requires den > 0
  {
    (total - Word(increment * num) / den) % WORD
  }

  class MediaTime {
    var num: nat
    var den: nat
    var remainder: nat
    var base: nat
    var time: Option<int>

    function Value(): Clock
      reads this
    {
      Clock(num, den, remainder, base, time)
    }

    constructor (base: nat)
      ensures Value() == Clock(0, 0, 0, base, None)
    {
      num, den, remainder, this.base, time := 0, 0, 0, base, None;
    }

    method SetRateTo(num: nat, den: nat)
      modifies this
      ensures Value() == SetRate(old(Value()), num, den)
    {
      if this.num == num && this.den == den { return; }
      if remainder != 0 { time := Get(Value()); }
      remainder := 0;
      this.num, this.den := num, den;
    }

    method SetTo(newTime: Option<int>)
      modifies this
      ensures Value() == Set(old(Value()), newTime) && (newTime.None? ==> Value() == old(Value()))
      ensures newTime.Some? && num > 0 && den > 0 ==> Get(Value()) == newTime
    {
      if newTime.None? { return; }
      SetReports(Value(), newTime.value);
      remainder := 0;
      time := newTime;
    }

    method AddSamples(n: nat) returns (reported: Option<int>)
      modifies this
      ensures Value() == Add(old(Value()), n) && reported == Get(Value())
    {
      if !Known(Value()) { return None; }
      var samples := Word(n + remainder);
      var increment := Word(samples * den) / num;
      time := Some(time.value + Word(increment * base));
      remainder := (samples - Word(increment * num) / den) % WORD;
      reported := Get(Value());
    }

    /** A stream of packets, each adding its samples. With calls that fit, the time reported last is
        that of all samples together, rounded down. */
    method AddEach(adds: seq<nat>) returns (reported: Option<int>)
      modifies this
      ensures Value() == AddAll(old(Value()), adds) && reported == Get(Value())
      ensures old(Whole(Value()) && remainder == 0) && AllFit(old(Value()), adds) ==>
                reported == Some(old(time).value + Sum(adds) * base / num)
    {
      hide Add, Get, Whole, AllFit;
      ghost var c := Value();
      reported := Get(Value());
      assert adds[..0] == [] && adds[..|adds|] == adds;
      for i := 0 to |adds|
        invariant Value() == AddAll(c, adds[..i]) && reported == Get(Value())
      {
        assert adds[..i + 1][..i] == adds[..i];
        reported := AddSamples(adds[i]);
      }
      if Whole(c) && c.remainder == 0 && AllFit(c, adds) {
        NoDrift(c, adds);
        AddsSoFar(c, adds);
      }
    }
  }

  /** A clock with a rate reports exactly the time it is set to, whatever it had counted; an unknown
      time changes nothing, and without a time or a rate nothing is counted or reported. */
  lemma SetReports(c: Clock, t: int)
    ensures c.num > 0 && c.den > 0 ==> Get(Set(c, Some(t))) == Some(t)
    ensures Set(c, None) == c
    ensures c.time.None? || c.num == 0 || c.den == 0 ==> Get(c) == None && forall n :: Add(c, n) == c
  {
    if c.num > 0 && c.den > 0 { DivModUnique(0, c.num, 0, 0); }
  }

  /** A new rate, of either kind, is taken over and leaves the reported time as it was; what was less
      than a unit of it is lost. */
  lemma RateSet(c: Clock, num: nat, den: nat)
    requires Known(c) && num > 0 && den > 0
    ensures var d := SetRate(c, num, den);
            && Known(d) && d.num == num && d.den == den && d.base == c.base && Get(d) == Get(c)
            && (if c.num == num && c.den == den then d == c else d.remainder == 0)
  {
    DivModUnique(0, num, 0, 0);
    DivModUnique(0, c.num, 0, 0);
  }

  // ---------- one rate ----------

  /** A known time at a whole number of samples a second, kept in 32 bits. */
  predicate Whole(c: Clock) {
    Known(c) && c.den == 1 && c.remainder < c.num < WORD
  }

  /** The time units of the whole seconds among some samples. */
  function TimeStep(samples: nat, num: nat, base: nat): nat
    requires num > 0
  {
    samples / num * base
  }

  /** Neither the sample count nor the time step leaves 32 bits. */
  predicate Fits(c: Clock, samples: nat)
    requires c.num > 0
  {
    samples + c.remainder < WORD && TimeStep(samples + c.remainder, c.num, c.base) < WORD
  }

  lemma QuotientBelow(a: nat, n: nat)
    requires n > 0
    ensures a / n * n + a % n == a && a / n <= a && a / n * n <= a
  {
    if a / n >= 1 { MulLe(1, n, a / n); }
  }

  lemma WordSmall(x: nat)
    ensures x < WORD ==> Word(x) == x
    ensures Word(x) <= x && Word(x) < WORD
  {
  }

  lemma WholeIncrement(t: nat, n: nat)
    requires n > 0 && t < WORD
    ensures Increment(t, n, 1) == t / n
  {
    WordSmall(t);
  }

  lemma WholeLeft(t: nat, n: nat)
    requires n > 0 && t < WORD
    ensures Left(t, t / n, n, 1) == t % n
  {
    QuotientBelow(t, n);
    var x := t / n * n;
    WordSmall(x);
    WordSmall(t % n);
    assert Left(t, t / n, n, 1) == (t - Word(x)) % WORD;
  }

  lemma AddWhole(c: Clock, samples: nat)
    requires Whole(c)
    ensures var t := Word(samples + c.remainder);
            Add(c, samples) == c.(time := Some(c.time.value + Word(TimeStep(t, c.num, c.base))), remainder := t % c.num)
    ensures Whole(Add(c, samples))
  {
    hide Increment, Left, Word;
    var t := Word(samples + c.remainder);
    WordSmall(samples + c.remainder);
    WholeIncrement(t, c.num);
    WholeLeft(t, c.num);
  }

  lemma AddFits(c: Clock, samples: nat)
    requires Whole(c) && Fits(c, samples)
    ensures Whole(Add(c, samples))
    ensures var x := samples + c.remainder;
            Add(c, samples) == c.(time := Some(c.time.value + TimeStep(x, c.num, c.base)), remainder := x % c.num)
  {
    hide Word, Add, TimeStep;
    AddWhole(c, samples);
    WordSmall(samples + c.remainder);
    WordSmall(TimeStep(samples + c.remainder, c.num, c.base));
  }

  function Sum(adds: seq<nat>): nat {
    if adds == [] then 0 else Sum(adds[..|adds| - 1]) + adds[|adds| - 1]
  }

  function AddAll(c: Clock, adds: seq<nat>): Clock {
    if adds == [] then c else Add(AddAll(c, adds[..|adds| - 1]), adds[|adds| - 1])
  }

  /** No call along the way leaves 32 bits. */
  predicate AllFit(c: Clock, adds: seq<nat>) {
    adds == [] || (AllFit(c, adds[..|adds| - 1]) && var d := AddAll(c, adds[..|adds| - 1]);
                   d.num > 0 && Fits(d, adds[|adds| - 1]))
  }

  lemma CarryRemainder(total: nat, n: nat, more: nat)
    requires n > 0
    ensures (more + total % n) / n + total / n == (total + more) / n && (more + total % n) % n == (total + more) % n
  {
    var x := more + total % n;
    assert total == (total / n) * n + total % n;
    assert x == (x / n) * n + x % n;
    assert total + more == (total / n + x / n) * n + x % n;
    DivModUnique(total + more, n, total / n + x / n, x % n);
  }

  lemma {:induction false} AddsSoFar(c: Clock, adds: seq<nat>)
    requires Whole(c) && c.remainder == 0 && AllFit(c, adds)
    ensures Whole(AddAll(c, adds))
    ensures AddAll(c, adds) == c.(time := Some(c.time.value + Sum(adds) / c.num * c.base), remainder := Sum(adds) % c.num)
    decreases |adds|
  {
    hide Add, Fits;
    if adds != [] {
      var before, n := adds[..|adds| - 1], adds[|adds| - 1];
      AddsSoFar(c, before);
      AddFits(AddAll(c, before), n);
      CarryRemainder(Sum(before), c.num, n);
      Distribute(Sum(before) / c.num, (n + Sum(before) % c.num) / c.num, c.base);
    } else {
      ZeroQuotient(c.num, c.base);
    }
  }

  lemma ZeroQuotient(n: nat, base: nat)
    requires n > 0
    ensures 0 / n * base == 0 && 0 % n == 0
  {
    DivModUnique(0, n, 0, 0);
  }

  lemma Distribute(a: int, b: int, c: int)
    ensures (a + b) * c == a * c + b * c
  {
  }

  lemma FloorOfSplit(total: nat, n: nat, base: nat)
    requires n > 0
    ensures total / n * base + total % n * base * 1 / n == total * base / n
  {
    var q, r := total / n, total % n;
    assert total == q * n + r;
    Distribute(q * n, r, base);
    assert q * n * base == q * base * n;
    var s := r * base;
    assert s == (s / n) * n + s % n;
    Distribute(q * base, s / n, n);
    DivModUnique(total * base, n, q * base + s / n, s % n);
  }

  /** However the samples are split into calls, the time reported is the starting time plus the
      time of all samples together, rounded down. */
  lemma NoDrift(c: Clock, adds: seq<nat>)
    requires Whole(c) && c.remainder == 0 && AllFit(c, adds)
    ensures Get(AddAll(c, adds)) == Some(c.time.value + Sum(adds) * c.base / c.num)
  {
    AddsSoFar(c, adds);
    FloorOfSplit(Sum(adds), c.num, c.base);
  }

  // ---------- many rates ----------

  /** The exact time a clock stands for, its remainder included. */
  function Exact(c: Clock): real
    requires Known(c)
  {
    c.time.value as real + Seconds(c.remainder, c)
  }

  /** The exact time of some samples. */
  function Seconds(samples: nat, c: Clock): real
    requires c.num > 0
  {
    (samples * c.base * c.den) as real / c.num as real
  }

  lemma DivideSum(a: real, b: real, n: real)
    requires n > 0.0
    ensures (a * n + b) / n == a + b / n
  {
  }

  lemma SplitExact(x: nat, n: nat, base: nat)
    requires n > 0
    ensures TimeStep(x, n, base) as real + (x % n * base) as real / n as real == (x * base) as real / n as real
  {
    var q, r := x / n, x % n;
    assert x == q * n + r;
    assert x * base == q * base * n + r * base by {
      Distribute(q * n, r, base);
      assert q * n * base == q * base * n;
    }
    RealProduct(q * base, n);
    DivideSum((q * base) as real, (r * base) as real, n as real);
  }

  lemma RealProduct(a: int, b: int)
    ensures (a * b) as real == a as real * b as real
  {
  }

  lemma AddFractions(a: int, b: int, n: nat)
    requires n > 0
    ensures a as real / n as real + b as real / n as real == (a + b) as real / n as real
  {
  }

  /** A call that fits adds exactly the time of its samples. */
  lemma AddExact(c: Clock, samples: nat)
    requires Whole(c) && Fits(c, samples)
    ensures Whole(Add(c, samples)) && Exact(Add(c, samples)) == Exact(c) + Seconds(samples, c)
  {
    AddFits(c, samples);
    SplitExact(samples + c.remainder, c.num, c.base);
    SumFraction(samples, c.remainder, c.base, c.num);
  }

  lemma FloorBelow(a: nat, n: nat)
    requires n > 0
    ensures (a / n) as real <= a as real / n as real < (a / n) as real + 1.0
  {
    var q, r := a / n, a % n;
    assert a == q * n + r;
    RealProduct(q, n);
    DivideSum(q as real, r as real, n as real);
    assert a as real / n as real == q as real + r as real / n as real;
    assert 0.0 <= r as real / n as real < 1.0 by { Fraction(r as real, n as real); }
  }

  lemma Fraction(r: real, n: real)
    requires 0.0 <= r < n
    ensures 0.0 <= r / n < 1.0
  {
  }

  /** The time reported is less than one unit below the exact time. */
  lemma GetRoundsDown(c: Clock)
    requires Whole(c)
    ensures Get(c).Some? && Get(c).value as real <= Exact(c) < Get(c).value as real + 1.0
  {
    FloorBelow(c.remainder * c.base, c.num);
  }

  /** A change of rate loses less than one unit, and nothing when it changes nothing. */
  lemma SetRateRounds(c: Clock, num: nat)
    requires Whole(c) && 0 < num < WORD
    ensures var d := SetRate(c, num, 1);
            Whole(d) && d.base == c.base && Exact(d) <= Exact(c) && (if num == c.num then d == c else Exact(c) < Exact(d) + 1.0)
  {
    GetRoundsDown(c);
    assert 0 as real / num as real == 0.0;
    assert 0 as real / c.num as real == 0.0;
  }

  datatype Step = Samples(n: nat) | Rate(num: nat)

  function Apply(c: Clock, step: Step): Clock {
    match step case Samples(n) => Add(c, n) case Rate(num) => SetRate(c, num, 1)
  }

  function ApplyAll(c: Clock, steps: seq<Step>): Clock {
    if steps == [] then c else Apply(ApplyAll(c, steps[..|steps| - 1]), steps[|steps| - 1])
  }

  predicate StepFits(c: Clock, step: Step) {
    match step case Samples(n) => c.num > 0 && Fits(c, n) case Rate(num) => 0 < num < WORD
  }

  predicate StepsFit(c: Clock, steps: seq<Step>) {
    steps == [] || (StepsFit(c, steps[..|steps| - 1]) && StepFits(ApplyAll(c, steps[..|steps| - 1]), steps[|steps| - 1]))
  }

  /** The exact time of all samples, each at the rate of its call. */
  function Elapsed(c: Clock, steps: seq<Step>): real
    requires StepsFit(c, steps)
  {
    if steps == [] then 0.0
    else var before, step := steps[..|steps| - 1], steps[|steps| - 1];
      Elapsed(c, before) + (if step.Samples? then Seconds(step.n, ApplyAll(c, before)) else 0.0)
  }

  function Changes(steps: seq<Step>): nat {
    if steps == [] then 0 else Changes(steps[..|steps| - 1]) + (if steps[|steps| - 1].Rate? then 1 else 0)
  }

  lemma {:induction false} LossBound(c: Clock, steps: seq<Step>)
    requires Whole(c) && StepsFit(c, steps)
    ensures var d := ApplyAll(c, steps);
            Whole(d) && Exact(d) <= Exact(c) + Elapsed(c, steps) <= Exact(d) + Changes(steps) as real
    decreases |steps|
  {
    if steps == [] {
    } else {
      var before, step := steps[..|steps| - 1], steps[|steps| - 1];
      LossBound(c, before);
      var d := ApplyAll(c, before);
      match step
      case Samples(n) => AddExact(d, n);
      case Rate(num) => SetRateRounds(d, num);
    }
  }

  /** After any run with k rate settings the time reported is at most the exact time and less
      than k + 1 units below it. */
  lemma BoundedDrift(c: Clock, steps: seq<Step>)
    requires Whole(c) && StepsFit(c, steps)
    ensures var r, exact := Get(ApplyAll(c, steps)), Exact(c) + Elapsed(c, steps);
            r.Some? && r.value as real <= exact < r.value as real + (Changes(steps) + 1) as real
  {
    LossBound(c, steps);
    GetRoundsDown(ApplyAll(c, steps));
  }

  // ---------- rates that are fractions ----------

  /** Nothing along the way leaves 32 bits. */
  predicate FitsAny(c: Clock, samples: nat)
    requires c.num > 0
  {
    (samples + c.remainder) * c.den < WORD && Ticks(c, samples) * c.base < WORD
  }

  /** The whole seconds that are full with some more samples. */
  function Ticks(c: Clock, samples: nat): nat
    requires c.num > 0
  {
    (samples + c.remainder) * c.den / c.num
  }

  lemma AddAny(c: Clock, samples: nat)
    requires Known(c) && FitsAny(c, samples)
    ensures var k, total := Ticks(c, samples), samples + c.remainder;
            && k * c.num / c.den <= total
            && Add(c, samples) == c.(time := Some(c.time.value + k * c.base), remainder := total - k * c.num / c.den)
  {
    hide Word;
    var k, total := Ticks(c, samples), samples + c.remainder;
    MulLe(1, c.den, total);
    assert total * c.den >= total by { MulCommutes(total, c.den); }
    QuotientBelow(total * c.den, c.num);
    QuotientBelow(k * c.num, c.den);
    BelowProduct(k * c.num / c.den, total, c.den);
    WordSmall(total);
    WordSmall(total * c.den);
    WordSmall(k * c.base);
    WordSmall(k * c.num);
    var left := total - k * c.num / c.den;
    DivModUnique(left, WORD, 0, left);
  }

  lemma BelowProduct(a: nat, b: nat, n: nat)
    requires n > 0 && a * n <= b * n
    ensures a <= b
  {
    if a > b {
      Distribute(b, 1, n);
      MulLe(b + 1, a, n);
    }
  }

  /** How much too far a call takes the clock: the part of a sample cut off when whole seconds are
      turned back into samples. */
  function Gain(c: Clock, samples: nat): real
    requires Known(c)
  {
    (Ticks(c, samples) * c.num % c.den * c.base) as real / c.num as real
  }

  lemma ThreeFactors(a: int, b: int, c: int)
    ensures a * b * c == a * (b * c) && a * b * c == a * c * b
  {
  }

  lemma GainParts(total: nat, k: nat, num: nat, den: nat, base: nat)
    requires den > 0 && k * num / den <= total
    ensures k * base * num + (total - k * num / den) * base * den == total * base * den + k * num % den * base
  {
    var q, r := k * num / den, k * num % den;
    assert k * num == q * den + r;
    ThreeFactors(total - q, base, den);
    ThreeFactors(total, base, den);
    ThreeFactors(q, base, den);
    Distribute(total - q, q, base * den);
    ThreeFactors(k, base, num);
    Distribute(q * den, r, base);
  }

  lemma SamplesJoin(a: nat, b: nat, base: nat, den: nat)
    ensures (a + b) * base * den == a * base * den + b * base * den
  {
    Distribute(a, b, base);
    Distribute(a * base, b * base, den);
  }

  /** A call adds the exact time of its samples and that much more. */
  lemma AddGains(c: Clock, samples: nat)
    requires Known(c) && FitsAny(c, samples)
    ensures Known(Add(c, samples)) && Exact(Add(c, samples)) == Exact(c) + Seconds(samples, c) + Gain(c, samples)
  {
    hide Add, Ticks;
    AddAny(c, samples);
    var k, total, n := Ticks(c, samples), samples + c.remainder, c.num;
    var left := total - k * n / c.den;
    GainParts(total, k, n, c.den, c.base);
    RealProduct(k * c.base, n);
    DivideSum((k * c.base) as real, (left * c.base * c.den) as real, n as real);
    SamplesJoin(samples, c.remainder, c.base, c.den);
    AddFractions(samples * c.base * c.den, c.remainder * c.base * c.den, n);
    AddFractions(total * c.base * c.den, k * n % c.den * c.base, n);
  }

  /** It is less than the time of one sample, and nothing exactly when the whole seconds are whole
      samples. */
  lemma GainSmall(c: Clock, samples: nat)
    requires Known(c) && c.base > 0
    ensures 0.0 <= Gain(c, samples) < Seconds(1, c)
    ensures Gain(c, samples) == 0.0 <==> Ticks(c, samples) * c.num % c.den == 0
  {
    var r := Ticks(c, samples) * c.num % c.den;
    MulLe(r + 1, c.den, c.base);
    Distribute(r, 1, c.base);
    MulCommutes(c.den, c.base);
    DivideLess((r * c.base) as real, (c.base * c.den) as real, c.num as real);
    if r > 0 {
      MulLe(1, r, c.base);
      DivideLess(0.0, (r * c.base) as real, c.num as real);
    }
  }

  /** For any rate, a call that fits is exact exactly when the whole seconds it fills are a whole
      number of samples. */
  lemma ExactIffWhole(c: Clock, samples: nat)
    requires Known(c) && c.base > 0 && FitsAny(c, samples)
    ensures Known(Add(c, samples))
    ensures Exact(Add(c, samples)) == Exact(c) + Seconds(samples, c) <==> Ticks(c, samples) * c.num % c.den == 0
  {
    AddGains(c, samples);
    GainSmall(c, samples);
  }

  predicate AllFitAny(c: Clock, adds: seq<nat>) {
    adds == [] || (AllFitAny(c, adds[..|adds| - 1]) && var d := AddAll(c, adds[..|adds| - 1]);
                   d.num > 0 && FitsAny(d, adds[|adds| - 1]))
  }

  lemma MoreSeconds(a: nat, b: nat, c: Clock)
    requires c.num > 0
    ensures Seconds(a + b, c) == Seconds(a, c) + Seconds(b, c)
  {
    SamplesJoin(a, b, c.base, c.den);
    AddFractions(a * c.base * c.den, b * c.base * c.den, c.num);
  }

  lemma NoSeconds(c: Clock)
    requires c.num > 0
    ensures Seconds(0, c) == 0.0
  {
    assert (0 * c.base * c.den) == 0;
  }

  /** So over a run the clock is never slow, and by less than a sample for each call too fast. */
  lemma {:induction false} NeverSlow(c: Clock, adds: seq<nat>)
    requires Known(c) && c.base > 0 && AllFitAny(c, adds)
    ensures var d := AddAll(c, adds);
            && Known(d) && d.num == c.num && d.den == c.den && d.base == c.base
            && Exact(c) + Seconds(Sum(adds), c) <= Exact(d) <= Exact(c) + Seconds(Sum(adds), c) + Seconds(|adds|, c)
    decreases |adds|
  {
    hide Add, FitsAny, Seconds, Gain;
    if adds == [] {
      NoSeconds(c);
    } else {
      var before, n := adds[..|adds| - 1], adds[|adds| - 1];
      NeverSlow(c, before);
      var d := AddAll(c, before);
      AddGains(d, n);
      GainSmall(d, n);
      AddAny(d, n);
      SameSeconds(n, c, d);
      SameSeconds(1, c, d);
      MoreSeconds(Sum(before), n, c);
      MoreSeconds(|before|, 1, c);
    }
  }

  lemma SameSeconds(samples: nat, c: Clock, d: Clock)
    requires c.num > 0 && d.num == c.num && d.den == c.den && d.base == c.base
    ensures Seconds(samples, d) == Seconds(samples, c)
  {
  }

  lemma AddFewer(c: Clock, samples: nat)
    requires Known(c) && (samples + c.remainder) * c.den < c.num < WORD
    ensures Add(c, samples) == c.(remainder := samples + c.remainder)
  {
    DivModUnique((samples + c.remainder) * c.den, c.num, 0, (samples + c.remainder) * c.den);
    DivModUnique(0, c.den, 0, 0);
    AddAny(c, samples);
  }

  /** Thirty frames at 30000/1001 a second, one at a time and counted in microseconds, take 1.001
      seconds; the clock reports 32 milliseconds more. */
  method FractionRunsFast() returns (reported: Option<int>)
    ensures reported == Some(1_033_366)
    ensures Seconds(30, Clock(30000, 1001, 0, 1_000_000, Some(0))) == 1_001_000.0
  {
    var m := new MediaTime(1_000_000);
    m.SetRateTo(30000, 1001);
    m.SetTo(Some(0));
    reported := None;
    hide Add, Get, Seconds;
    for i: nat := 0 to 29
      invariant m.Value() == Clock(30000, 1001, i, 1_000_000, Some(0))
    {
      AddFewer(m.Value(), 1);
      reported := m.AddSamples(1);
    }
    LastFrame(m.Value());
    reported := m.AddSamples(1);
  }

  lemma LastFrame(c: Clock)
    requires c == Clock(30000, 1001, 29, 1_000_000, Some(0))
    ensures Get(Add(c, 1)) == Some(1_033_366) && Seconds(30, c.(remainder := 0)) == 1_001_000.0
  {
    DivModUnique(30030, 30000, 1, 30);
    DivModUnique(30000, 1001, 29, 971);
    AddAny(c, 1);
    DivModUnique(1_001_000_000, 30000, 33366, 20000);
  }

  // ---------- where 32 bits do not do ----------

  /** With a positive time base, a call is exact exactly when it fits 32 bits. */
  lemma ExactIffFits(c: Clock, samples: nat)
    requires Whole(c) && c.base > 0 && samples < WORD
    ensures Whole(Add(c, samples)) && (Exact(Add(c, samples)) == Exact(c) + Seconds(samples, c) <==> Fits(c, samples))
  {
    AddWhole(c, samples);
    if Fits(c, samples) {
      AddExact(c, samples);
    } else {
      hide Add, Word, TimeStep;
      var x := samples + c.remainder;
      var t := Word(x);
      var y := TimeStep(t, c.num, c.base);
      SplitExact(t, c.num, c.base);
      SumFraction(samples, c.remainder, c.base, c.num);
      WordSmall(x);
      WordSmall(y);
      if x >= WORD { LessFraction(t, x, c.base, c.num); }
    }
  }

  lemma SumFraction(a: nat, b: nat, base: nat, n: nat)
    requires n > 0
    ensures (a * base) as real / n as real + (b * base) as real / n as real == ((a + b) * base) as real / n as real
  {
    Distribute(a, b, base);
    AddFractions(a * base, b * base, n);
  }

  lemma LessFraction(a: nat, b: nat, base: nat, n: nat)
    requires n > 0 && base > 0 && a < b
    ensures (a * base) as real / n as real < (b * base) as real / n as real
  {
    MulLe(a + 1, b, base);
    DivideLess((a * base) as real, (b * base) as real, n as real);
  }

  lemma DivideLess(a: real, b: real, n: real)
    requires n > 0.0 && a < b
    ensures a / n < b / n
  {
  }

  /** At this interface, which takes any number of samples, 4295 seconds of 8 kHz samples in one
      call, counted in microseconds, pass for 32 milliseconds. */
  method LongCallWraps() returns (reported: Option<int>)
    ensures reported == Some(32704)
    ensures Seconds(34_360_000, Clock(8000, 1, 0, 1_000_000, Some(0))) == 4_295_000_000.0
  {
    var c := Clock(8000, 1, 0, 1_000_000, Some(0));
    LongCall(c);
    var m := new MediaTime(1_000_000);
    m.SetRateTo(8000, 1);
    m.SetTo(Some(0));
    hide Add, Get, Seconds;
    reported := m.AddSamples(34_360_000);
  }

  lemma LongCall(c: Clock)
    requires c == Clock(8000, 1, 0, 1_000_000, Some(0))
    ensures Get(Add(c, 34_360_000)) == Some(32704) && Seconds(34_360_000, c) == 4_295_000_000.0
  {
    DivModUnique(34_360_000, 8000, 4295, 0);
    AddWhole(c, 34_360_000);
    hide Add;
    DivModUnique(4_295_000_000, WORD, 1, 32704);
    DivModUnique(34_360_000, WORD, 0, 34_360_000);
    DivModUnique(0, 8000, 0, 0);
  }
}
