/** How the cache of containers_io.c uses its asynchronous writer, up to vc_container_io_close: the
    lower stream is moved only after a wait, and a dirty cache is flushed before the thread is
    stopped. */
module AsyncClose {
  import opened Basics
  import opened AsyncRing
  import IoCache

  /** Where the cache stands between two steps on the ring. */
  datatype Cache =
    | Clean                  // the lower stream may be moved
    | Dirty(inPlace: bool)   // inPlace: filled since a flush, so the lower stream stands at its
                             // start (CacheControl.Control.StaysInPlace) and need not be moved
    | Drained                // dirty, and the wait before moving the lower stream just done
    | SeekPeek               // the same wait with complete = 0, then the move
    | Draining(dirty: bool)  // waiting with complete = 1; dirty if the buffer is still to be posted
    | Flushing               // async_io_write under way
    | Written                // async_io_write done
    | FlushPeek              // the wait with complete = 0 after it
    | MustFill               // that wait went well: the write loop goes on with at least one byte
    | Closing

  /** What the cache does next on the ring, and where it then stands; error is what the wait sees.
      None: it never does that there. */
  function CacheNext(c: Cache, p: ProducerStep, error: bool): Option<Cache> {
    match p
    case Fill(_) =>
      if c.Clean? || c.Drained? then Some(Dirty(false))
      else if c.MustFill? then Some(Dirty(true)) else if c.Dirty? then Some(c) else None
    case Store(_, _) => if c.Dirty? || c.Drained? then Some(Flushing) else None
    case PostQueue => if c.Flushing? then Some(c) else None
    case Signal => if c.Flushing? then Some(c) else None
    case TakeSpare => if c.Flushing? then Some(c) else None
    case Switch => if c.Flushing? then Some(Written) else None
    case PeekBegin =>
      if c.Written? then Some(FlushPeek)
      else if (c.Dirty? && !c.inPlace) || c.Drained? then Some(SeekPeek) else None
    case PeekTake => if c.FlushPeek? || c.SeekPeek? then Some(c) else None
    case PeekReturn =>
      if c.FlushPeek? then Some(if error then Clean else MustFill) else if c.SeekPeek? then Some(Dirty(false)) else None
    case DrainBegin =>
      if c.Clean? || c.Written? then Some(Draining(false))
      else if (c.Dirty? && !c.inPlace) || c.Drained? then Some(Draining(true)) else None
    case DrainTakeOne => if c.Draining? then Some(c) else None
    case DrainTurn => if c.Draining? then Some(c) else None
    case DrainPutOne => if c.Draining? then Some(c) else None
    case DrainReturn => if c.Draining? then Some(if c.dirty then Drained else Clean) else None
    case StopBegin => if c.Clean? || c.Drained? then Some(Closing) else None
    case StopSignal => if c.Closing? then Some(c) else None
    case Join => if c.Closing? then Some(c) else None
  }

  /** The step a on the ring is one the cache may take. */
  predicate Allowed(s: State, c: Cache, a: Action) {
    Shaped(s) && Enabled(s, a) && (a.Producer? ==> CacheNext(c, a.p, s.error).Some?)
  }

  function After(s: State, c: Cache, a: Action): Cache
    requires Allowed(s, c, a)
  {
    if a.Producer? then CacheNext(c, a.p, s.error).value else c
  }

  /** The schedule run takes the ring from s to t and the cache from c to d. */
  predicate CacheRun(s: State, c: Cache, run: seq<Action>, t: State, d: Cache)
    decreases |run|
  {
    if run == [] then s == t && c == d
    else Allowed(s, c, run[0]) && CacheRun(Apply(s, run[0]), After(s, c, run[0]), run[1..], t, d)
  }

  /** Nothing is left in the ring, except after a failed write with three areas or more. */
  predicate Settled(s: State) {
    s.done == |s.posted| || (s.error && s.num > 2)
  }

  /** Where the producer is for each place of the cache, and where the ring is then settled. */
  predicate Agrees(s: State, c: Cache) {
    match c
    case Clean => s.ppc.Filling? && Settled(s)
    case Drained => s.ppc.Filling? && s.done == |s.posted|
    case Dirty(inPlace) => s.ppc.Filling? && (inPlace || Settled(s))
    case Written => s.ppc.Filling?
    case MustFill => s.ppc.Filling?
    case SeekPeek => (s.ppc.PeekWait? || s.ppc.PeekHeld?) && Settled(s)
    case FlushPeek => s.ppc.PeekWait? || s.ppc.PeekHeld?
    case Draining(_) => s.ppc.DrainTake? || s.ppc.DrainPut?
    case Flushing => s.ppc.Stored? || s.ppc.Posted? || s.ppc.WantSpare? || s.ppc.HaveSpare?
    case Closing => (s.ppc.QuitSet? || s.ppc.Joining? || s.ppc.Stopped?) && Settled(s)
  }

  lemma AgreesProducer(s: State, c: Cache, p: ProducerStep)
    requires Shaped(s) && Counts(s) && Positions(s) && Agrees(s, c) && ProducerEnabled(s, p)
    requires CacheNext(c, p, s.error).Some?
    ensures Agrees(ProducerApply(s, p), CacheNext(c, p, s.error).value)
  {
    hide Window;
  }

  lemma AgreesWriter(s: State, c: Cache, w: WriterStep)
    requires Shaped(s) && Counts(s) && Agrees(s, c) && WriterEnabled(s, w)
    ensures Agrees(WriterApply(s, w), c)
  {
    hide Window;
  }

  lemma AgreesStep(s: State, c: Cache, a: Action)
    requires Shaped(s) && Counts(s) && Positions(s) && Agrees(s, c) && Allowed(s, c, a)
    ensures Agrees(Apply(s, a), After(s, c, a)) && Apply(s, a).num == s.num
  {
    match a
    case Producer(p) => hide Counts, Positions, Agrees, CacheNext; AgreesProducer(s, c, p);
    case Writer(w) => hide Counts, Positions, Agrees, CacheNext; AgreesWriter(s, c, w);
  }

  lemma {:induction false} AgreesRun(s: State, c: Cache, run: seq<Action>, t: State, d: Cache)
    requires Inv(s) && Agrees(s, c) && CacheRun(s, c, run, t, d)
    ensures Inv(t) && Agrees(t, d) && t.num == s.num
    decreases |run|
  {
    hide Counts, Areas, Intact, Output, Signals, Positions, Agrees, Apply, After;
    if run == [] {
    } else {
      InvStep(s, run[0]);
      AgreesStep(s, c, run[0]);
      AgreesRun(Apply(s, run[0]), After(s, c, run[0]), run[1..], t, d);
    }
  }

  /** The run on the ring alone. */
  lemma {:induction false} OnTheRing(s: State, c: Cache, run: seq<Action>, t: State, d: Cache)
    requires CacheRun(s, c, run, t, d)
    ensures Reaches(s, run, t)
    decreases |run|
  {
    hide Shaped, Enabled, Apply, After;
    if run == [] {
    } else {
      OnTheRing(Apply(s, run[0]), After(s, c, run[0]), run[1..], t, d);
    }
  }

  lemma HandedOverNow(s0: State, run: seq<Action>, s: State, c: Cache)
    requires Init(s0) && CacheRun(s0, Clean, run, s, c) && !s.ppc.Stored?
    ensures s0.mem != [] && s.posted == HandedOver(s0.mem, run)
  {
    hide CacheRun, Init, HandedOver;
    OnTheRing(s0, Clean, run, s, c);
    PostedIsHandedOver(s0, run, s);
  }

  /** Closing writes everything out: unless a lower write has failed, the file is all the windows of
      its areas that the cache handed over, in order, when the thread is gone; with two areas every
      one of them has been handed to the lower stream even then. */
  lemma CloseWritesAll(s0: State, run: seq<Action>, t: State, d: Cache)
    requires Init(s0) && CacheRun(s0, Clean, run, t, d) && t.ppc.Stopped?
    ensures s0.mem != [] && t.posted == HandedOver(s0.mem, run)
    ensures !t.error || s0.num == 2 ==> t.done == |t.posted|
    ensures !t.error ==> t.out == Flatten(HandedOver(s0.mem, run))
  {
    InitInv(s0);
    AgreesRun(s0, Clean, run, t, d);
    HandedOverNow(s0, run, t, d);
    hide Intact, Areas, HandedOver;
    assert t.posted[..|t.posted|] == t.posted;
  }

  // ---------- moving the lower stream ----------

  /** The lower stream may be moved: the cache is clean, or the wait before the move is over. */
  predicate MayMove(s: State, c: Cache) {
    c.Clean? || c.Drained? || (c.SeekPeek? && s.ppc.PeekHeld?)
  }

  /** Whenever the cache moves the lower stream, no buffer is queued or being written, unless a
      write has failed; so the bytes out are exactly the windows handed over. */
  lemma MovesWhenIdle(s0: State, run: seq<Action>, s: State, c: Cache)
    requires Init(s0) && CacheRun(s0, Clean, run, s, c) && MayMove(s, c)
    ensures s0.mem != [] && s.posted == HandedOver(s0.mem, run)
    ensures !s.error || s.num == 2 ==> s.done == |s.posted| && s.queue == 0 && !s.wpc.Writing? && !s.wpc.WriteDone?
    ensures !s.error ==> s.out == Flatten(HandedOver(s0.mem, run))
  {
    InitInv(s0);
    AgreesRun(s0, Clean, run, s, c);
    HandedOverNow(s0, run, s, c);
    hide Intact, Areas, HandedOver;
    assert s.posted[..|s.posted|] == s.posted;
  }

  lemma PostedStep(s: State, a: Action)
    requires Shaped(s) && Enabled(s, a)
    ensures s.posted <= Apply(s, a).posted && (s.error ==> Apply(s, a).error)
  {
    hide Window;
    match a
    case Producer(p) => assert s.posted <= ProducerApply(s, p).posted && ProducerApply(s, p).error == s.error;
    case Writer(w) => assert s.posted == WriterApply(s, w).posted;
  }

  lemma {:induction false} PostedGrows(s: State, c: Cache, run: seq<Action>, t: State, d: Cache)
    requires CacheRun(s, c, run, t, d)
    ensures s.posted <= t.posted && (s.error ==> t.error)
    decreases |run|
  {
    hide After, Apply, Enabled, Shaped;
    if run == [] {
    } else {
      PostedStep(s, run[0]);
      PostedGrows(Apply(s, run[0]), After(s, c, run[0]), run[1..], t, d);
    }
  }

  lemma {:induction false} FlattenJoins(a: seq<Bytes>, b: seq<Bytes>)
    ensures Flatten(a + b) == Flatten(a) + Flatten(b)
    decreases |b|
  {
    if b == [] {
      assert a + b == a;
    } else {
      var n := |b| - 1;
      assert (a + b)[..|a + b| - 1] == a + b[..n];
      FlattenJoins(a, b[..n]);
      Associates(Flatten(a), Flatten(b[..n]), b[n]);
    }
  }

  /** The buffers written one after the other without the ring, from an offset on. */
  function WrittenInTurn(f: Bytes, at: nat, bs: seq<Bytes>): Bytes {
    if bs == [] then f
    else IoCache.Overlay(WrittenInTurn(f, at, bs[..|bs| - 1]), at + |Flatten(bs[..|bs| - 1])|, bs[|bs| - 1])
  }

  lemma {:induction false} InTurnIsJoined(f: Bytes, at: nat, bs: seq<Bytes>)
    ensures WrittenInTurn(f, at, bs) == IoCache.Overlay(f, at, Flatten(bs))
    decreases |bs|
  {
    hide IoCache.Overlay;
    if bs == [] {
      IoCache.OverlayNothing(f, at);
    } else {
      var n := |bs| - 1;
      InTurnIsJoined(f, at, bs[..n]);
      IoCache.OverlayJoins(f, at, Flatten(bs[..n]), bs[n]);
    }
  }

  /** Write-behind through the ring leaves the file that writing without it does: whatever the file
      and the offset at one move of the lower stream, at the next the bytes put out since, in any
      interleaving, have made of it what the windows handed over since make of it one by one. */
  lemma SameFileAsInTurn(s0: State, r1: seq<Action>, s: State, c: Cache, r2: seq<Action>, t: State, d: Cache, f: Bytes, at: nat)
    requires Init(s0) && CacheRun(s0, Clean, r1, s, c) && MayMove(s, c) && CacheRun(s, c, r2, t, d) && MayMove(t, d) && !t.error
    ensures s0.mem != [] && HandedOver(s0.mem, r1) <= HandedOver(s0.mem, r1 + r2) && s.out <= t.out
    ensures IoCache.Overlay(f, at, t.out[|s.out|..])
         == WrittenInTurn(f, at, HandedOver(s0.mem, r1 + r2)[|HandedOver(s0.mem, r1)|..])
  {
    hide Init, CacheRun, IoCache.Overlay, MayMove, HandedOver;
    PostedGrows(s, c, r2, t, d);
    RunJoins(s0, Clean, r1, s, c, r2, t, d);
    MovesWhenIdle(s0, r1, s, c);
    MovesWhenIdle(s0, r1 + r2, t, d);
    var bs := t.posted[|s.posted|..];
    assert t.posted == s.posted + bs;
    FlattenJoins(s.posted, bs);
    InTurnIsJoined(f, at, bs);
  }

  lemma {:induction false} RunJoins(s0: State, c0: Cache, r1: seq<Action>, s: State, c: Cache, r2: seq<Action>, t: State, d: Cache)
    requires CacheRun(s0, c0, r1, s, c) && CacheRun(s, c, r2, t, d)
    ensures CacheRun(s0, c0, r1 + r2, t, d)
    decreases |r1|
  {
    hide After, Apply, Enabled, Shaped;
    if r1 == [] {
      assert r1 + r2 == r2;
    } else {
      RunJoins(Apply(s0, r1[0]), After(s0, c0, r1[0]), r1[1..], s, c, r2, t, d);
      assert (r1 + r2)[1..] == r1[1..] + r2;
    }
  }

  // ---------- getting on ----------

  /** What the cache does next when it has not to wait. */
  function CacheMove(s: State, c: Cache): (p: ProducerStep)
    requires Shaped(s) && Counts(s) && Positions(s) && Agrees(s, c) && !Blocked(s) && !WaitsForExit(s) && !s.ppc.Stopped?
    ensures ProducerEnabled(s, p) && CacheNext(c, p, s.error).Some?
  {
    match c
    case Clean => DrainBegin
    case Drained => StopBegin
    case Dirty(_) => Store(0, |s.mem[s.cur]|)
    case Written => DrainBegin
    case MustFill => Fill(s.mem[s.cur])
    case SeekPeek => if s.ppc.PeekWait? then PeekTake else PeekReturn
    case FlushPeek => if s.ppc.PeekWait? then PeekTake else PeekReturn
    case Draining(_) =>
      if s.ppc.DrainTake? then if s.ppc.taken < s.num - 1 then DrainTakeOne else DrainTurn
      else if s.ppc.left > 0 then DrainPutOne else DrainReturn
    case Flushing =>
      if s.ppc.Stored? then PostQueue else if s.ppc.Posted? then Signal else if s.ppc.WantSpare? then TakeSpare else Switch
    case Closing => if s.ppc.QuitSet? then StopSignal else Join
  }

  /** Used this way the ring never gets stuck short of the close: the writer has a step, or the cache
      one that it may take. */
  lemma CacheNeverStuck(s0: State, run: seq<Action>, s: State, c: Cache)
    requires Init(s0) && CacheRun(s0, Clean, run, s, c) && !s.ppc.Stopped?
    ensures exists a :: Allowed(s, c, a)
  {
    hide Intact, Areas, Output, Window, CacheRun;
    InitInv(s0);
    AgreesRun(s0, Clean, run, s, c);
    if Blocked(s) {
      assert Allowed(s, c, Writer(WriterMove(s)));
    } else if WaitsForExit(s) {
      SendBounded(s);
      var w := ExitMove(s);
      assert Allowed(s, c, Writer(w));
    } else {
      assert Allowed(s, c, Producer(CacheMove(s, c)));
    }
  }

  // ---------- what a failed write can cost ----------

  lemma {:induction false} Extend(s0: State, c0: Cache, run: seq<Action>, s: State, c: Cache, a: Action) returns (longer: seq<Action>)
    requires CacheRun(s0, c0, run, s, c) && Allowed(s, c, a)
    ensures CacheRun(s0, c0, longer, Apply(s, a), After(s, c, a)) && longer == run + [a]
    decreases |run|
  {
    hide After, Apply, Enabled, Shaped;
    longer := run + [a];
    if run == [] {
      CacheRunOne(s, c, a);
    } else {
      var rest := Extend(Apply(s0, run[0]), After(s0, c0, run[0]), run[1..], s, c, a);
      assert longer[1..] == rest;
    }
  }

  lemma CacheRunOne(s: State, c: Cache, a: Action)
    requires Allowed(s, c, a)
    ensures CacheRun(s, c, [a], Apply(s, a), After(s, c, a))
  {
    hide Allowed, After, Apply;
    assert [a][1..] == [];
  }

  /** async_io_write on the whole area, with no writer step in between. */
  lemma WriteArea(s0: State, c0: Cache, run: seq<Action>, s: State, b: bool) returns (longer: seq<Action>, t: State)
    requires CacheRun(s0, c0, run, s, Dirty(b)) && Shaped(s) && s.ppc.Filling? && s.spare > 0
    ensures CacheRun(s0, c0, longer, t, Written) && Shaped(t) && t.ppc.Filling?
    ensures t.spare == s.spare - 1 && t.queue == s.queue + 1 && t.wake && t.posted == s.posted + [s.mem[s.cur]]
    ensures t.num == s.num && t.cur == (if s.cur + 1 == s.num then 0 else s.cur + 1) && t.mem == s.mem
    ensures t.size == s.size[s.cur := |s.mem[s.cur]|] && t.writeArea == s.writeArea && t.wpc == s.wpc
    ensures t.done == s.done && t.quit == s.quit && t.error == s.error
  {
    hide CacheRun;
    var n := |s.mem[s.cur]|;
    assert s.mem[s.cur][0..0 + n] == s.mem[s.cur];
    var s1 := Apply(s, Producer(Store(0, n)));
    var s2 := Apply(s1, Producer(PostQueue));
    var s3 := Apply(s2, Producer(Signal));
    var s4 := Apply(s3, Producer(TakeSpare));
    t := Apply(s4, Producer(Switch));
    longer := Extend(s0, c0, run, s, Dirty(b), Producer(Store(0, n)));
    longer := Extend(s0, c0, longer, s1, Flushing, Producer(PostQueue));
    longer := Extend(s0, c0, longer, s2, Flushing, Producer(Signal));
    longer := Extend(s0, c0, longer, s3, Flushing, Producer(TakeSpare));
    longer := Extend(s0, c0, longer, s4, Flushing, Producer(Switch));
  }

  /** The wait for one spare after it. */
  lemma WaitForOne(s0: State, c0: Cache, run: seq<Action>, s: State) returns (longer: seq<Action>, t: State)
    requires CacheRun(s0, c0, run, s, Written) && Shaped(s) && s.ppc.Filling? && s.spare > 0
    ensures CacheRun(s0, c0, longer, t, if s.error then Clean else MustFill) && t == s
  {
    hide CacheRun;
    var s1 := Apply(s, Producer(PeekBegin));
    var s2 := Apply(s1, Producer(PeekTake));
    t := Apply(s2, Producer(PeekReturn));
    longer := Extend(s0, c0, run, s, Written, Producer(PeekBegin));
    longer := Extend(s0, c0, longer, s1, FlushPeek, Producer(PeekTake));
    longer := Extend(s0, c0, longer, s2, FlushPeek, Producer(PeekReturn));
  }

  /** The writer fails on the one buffer queued and goes back to sleep. */
  lemma FailOne(s0: State, c0: Cache, run: seq<Action>, s: State, c: Cache) returns (longer: seq<Action>, t: State)
    requires CacheRun(s0, c0, run, s, c) && Shaped(s) && s.wpc.EventWait? && s.wake && !s.quit && s.queue == 1
    requires s.size[s.writeArea] > 0
    ensures CacheRun(s0, c0, longer, t, c) && Shaped(t) && t.wpc.EventWait? && !t.wake && t.queue == 0 && t.error
    ensures t.spare == s.spare + 1 && t.done == s.done + 1 && t.ppc == s.ppc && t.cur == s.cur && t.num == s.num
    ensures t.posted == s.posted && t.mem == s.mem && !t.quit
  {
    hide CacheRun;
    var s1 := Apply(s, Writer(Wake));
    var s2 := Apply(s1, Writer(Check));
    var s3 := Apply(s2, Writer(Try));
    var s4 := Apply(s3, Writer(SendShort));
    longer := Extend(s0, c0, run, s, c, Writer(Wake));
    longer := Extend(s0, c0, longer, s1, c, Writer(Check));
    longer := Extend(s0, c0, longer, s2, c, Writer(Try));
    longer := Extend(s0, c0, longer, s3, c, Writer(SendShort));
    longer, t := FinishOne(s0, c0, longer, s4, c);
  }

  lemma FinishOne(s0: State, c0: Cache, run: seq<Action>, s: State, c: Cache) returns (longer: seq<Action>, t: State)
    requires CacheRun(s0, c0, run, s, c) && Shaped(s) && s.wpc.WriteDone? && s.queue == 0
    ensures CacheRun(s0, c0, longer, t, c) && Shaped(t) && t.wpc.EventWait? && t.wake == s.wake && t.queue == 0
    ensures t.spare == s.spare + 1 && t.done == s.done + 1 && t.ppc == s.ppc && t.cur == s.cur && t.num == s.num
    ensures t.posted == s.posted && t.mem == s.mem && t.quit == s.quit && t.error == s.error
  {
    hide CacheRun;
    var s1 := Apply(s, Writer(PostSpare));
    var s2 := Apply(s1, Writer(Step));
    t := Apply(s2, Writer(Try));
    longer := Extend(s0, c0, run, s, c, Writer(PostSpare));
    longer := Extend(s0, c0, longer, s1, c, Writer(Step));
    longer := Extend(s0, c0, longer, s2, c, Writer(Try));
  }

  /** A clean cache is closed while the writer still sleeps. */
  lemma CloseAsleep(s0: State, c0: Cache, run: seq<Action>, s: State) returns (longer: seq<Action>, t: State)
    requires CacheRun(s0, c0, run, s, Clean) && Shaped(s) && s.ppc.Filling? && s.wpc.EventWait?
    ensures CacheRun(s0, c0, longer, t, Closing) && t.ppc.Stopped? && t.posted == s.posted && t.done == s.done
  {
    hide CacheRun, Window;
    var s1 := Apply(s, Producer(StopBegin));
    var s2 := Apply(s1, Producer(StopSignal));
    var s3 := Apply(s2, Writer(Wake));
    var s4 := Apply(s3, Writer(Check));
    t := Apply(s4, Producer(Join));
    longer := Extend(s0, c0, run, s, Clean, Producer(StopBegin));
    longer := Extend(s0, c0, longer, s1, Closing, Producer(StopSignal));
    longer := Extend(s0, c0, longer, s2, Closing, Writer(Wake));
    longer := Extend(s0, c0, longer, s3, Closing, Writer(Check));
    longer := Extend(s0, c0, longer, s4, Closing, Producer(Join));
  }

  lemma FillSame(s0: State, c0: Cache, run: seq<Action>, s: State, c: Cache) returns (longer: seq<Action>)
    requires CacheRun(s0, c0, run, s, c) && Shaped(s) && s.ppc.Filling? && (c.Clean? || c.MustFill?)
    ensures CacheRun(s0, c0, longer, s, Dirty(c.MustFill?))
  {
    hide CacheRun;
    assert s.mem[s.cur := s.mem[s.cur]] == s.mem;
    longer := Extend(s0, c0, run, s, c, Producer(Fill(s.mem[s.cur])));
  }

  /** With three areas or more: the first buffer fails, the next is posted all the same, the write
      loop gives up on the error with a clean cache, and the close stops the thread before it has
      taken that buffer. */
  lemma LosingClose(s: State) returns (run: seq<Action>, t: State, d: Cache)
    requires Init(s) && s.num > 2 && |s.mem[0]| > 0
    ensures CacheRun(s, Clean, run, t, d) && t.ppc.Stopped? && t.done < |t.posted|
  {
    hide CacheRun;
    CacheRunNone(s, Clean);
    run := FillSame(s, Clean, [], s, Clean);
    run, t := WriteArea(s, Clean, run, s, false);
    run, t := WaitForOne(s, Clean, run, t);
    run := FillSame(s, Clean, run, t, MustFill);
    run, t := FailOne(s, Clean, run, t, Dirty(true));
    run, t := WriteArea(s, Clean, run, t, true);
    run, t := WaitForOne(s, Clean, run, t);
    run, t := CloseAsleep(s, Clean, run, t);
    d := Closing;
  }

  lemma CacheRunNone(s: State, c: Cache)
    ensures CacheRun(s, c, [], s, c)
  {
  }

  /** However the threads interleave and the lower writes go, a closed stream has handed every
      posted buffer to the lower stream. */
  ghost predicate EveryCloseIsComplete(s0: State) {
    forall run, t, d :: CacheRun(s0, Clean, run, t, d) && t.ppc.Stopped? ==> t.done == |t.posted|
  }

  /** Exactly with two areas does closing lose no queued buffer even after a failed write. */
  lemma CloseIsCompleteIff(s0: State)
    requires Init(s0) && |s0.mem[0]| > 0
    ensures EveryCloseIsComplete(s0) <==> s0.num == 2
  {
    hide CacheRun, Init;
    if s0.num == 2 {
      forall run, t, d | CacheRun(s0, Clean, run, t, d) && t.ppc.Stopped? ensures t.done == |t.posted| {
        CloseWritesAll(s0, run, t, d);
      }
    } else {
      InitTwo(s0);
      var run, t, d := LosingClose(s0);
    }
  }

  lemma InitTwo(s0: State)
    requires Init(s0)
    ensures s0.num >= 2
  {
  }
}
