/** The asynchronous writer of containers_io.c: a ring of memory areas shared by the
    cache (producer) and one writer thread, with two counting semaphores and a
    latching wake event. Every atomic step of either thread is an Action; a schedule
    is any sequence of enabled actions. */
module AsyncRing {
  import opened Basics

  /** Where the producer is. Filling is everything outside the async calls. */
  datatype ProducerPc =
    | Filling
    | Stored                 // window recorded, queue semaphore not yet posted
    | Posted                 // queue semaphore posted, event not yet signalled
    | WantSpare              // blocked on, or about to take, a spare area
    | HaveSpare              // spare taken, cur_area not yet advanced
    | PeekWait | PeekHeld    // wait_complete(complete = 0)
    | DrainTake(taken: nat)  // wait_complete(complete = 1), first loop
    | DrainPut(left: nat)    // wait_complete(complete = 1), second loop
    | QuitSet                // quit stored, event not yet signalled
    | Joining | Stopped

  /** Where the writer thread is. */
  datatype WriterPc =
    | EventWait | QuitCheck | TryQueue
    | Writing(sent: nat) | WriteDone | Advance | Exited

  datatype State = State(
    num: nat, cur: nat, mem: seq<Bytes>, start: seq<nat>, size: seq<nat>,
    spare: nat, queue: nat, wake: bool, quit: bool, error: bool,
    ppc: ProducerPc, wpc: WriterPc, writeArea: nat,
    // history: the buffers posted, how many the writer took, how many it finished, bytes written
    posted: seq<Bytes>, taken: nat, done: nat, out: Bytes)

  datatype ProducerStep =
    | Fill(content: Bytes) | Store(shift: nat, len: nat) | PostQueue | Signal | TakeSpare | Switch
    | PeekBegin | PeekTake | PeekReturn
    | DrainBegin | DrainTakeOne | DrainTurn | DrainPutOne | DrainReturn
    | StopBegin | StopSignal | Join

  datatype WriterStep = Wake | Check | Try | SendByte | SendEnd | SendShort | PostSpare | Step

  datatype Action = Producer(p: ProducerStep) | Writer(w: WriterStep)

  predicate Shaped(s: State) {
    && s.num >= 2 && s.cur < s.num && s.writeArea < s.num
    && |s.mem| == |s.start| == |s.size| == s.num
    && forall i :: 0 <= i < s.num ==> s.start[i] + s.size[i] <= |s.mem[i]|
  }

  /** The posted window of an area: what pf_write is handed. */
  function Window(s: State, area: nat): Bytes
    requires Shaped(s) && area < s.num
  {
    s.mem[area][s.start[area]..s.start[area] + s.size[area]]
  }

  predicate ProducerEnabled(s: State, p: ProducerStep)
    requires Shaped(s)
  {
    match p
    case Fill(content) => s.ppc.Filling? && |content| == |s.mem[s.cur]|
    case Store(shift, len) => s.ppc.Filling? && shift + len <= |s.mem[s.cur]|
    case PostQueue => s.ppc.Stored?
    case Signal => s.ppc.Posted?
    case TakeSpare => s.ppc.WantSpare? && s.spare > 0
    case Switch => s.ppc.HaveSpare?
    case PeekBegin => s.ppc.Filling?
    case PeekTake => s.ppc.PeekWait? && s.spare > 0
    case PeekReturn => s.ppc.PeekHeld?
    case DrainBegin => s.ppc.Filling?
    case DrainTakeOne => s.ppc.DrainTake? && s.ppc.taken < s.num - 1 && s.spare > 0
    case DrainTurn => s.ppc.DrainTake? && s.ppc.taken == s.num - 1
    case DrainPutOne => s.ppc.DrainPut? && s.ppc.left > 0
    case DrainReturn => s.ppc.DrainPut? && s.ppc.left == 0
    case StopBegin => s.ppc.Filling?
    case StopSignal => s.ppc.QuitSet?
    case Join => s.ppc.Joining? && s.wpc.Exited?
  }

  predicate WriterEnabled(s: State, w: WriterStep)
    requires Shaped(s)
  {
    match w
    case Wake => s.wpc.EventWait? && s.wake
    case Check => s.wpc.QuitCheck?
    case Try => s.wpc.TryQueue?
    case SendByte => s.wpc.Writing? && s.wpc.sent < s.size[s.writeArea]
    case SendEnd => s.wpc.Writing? && s.wpc.sent == s.size[s.writeArea]
    case SendShort => s.wpc.Writing? && s.wpc.sent < s.size[s.writeArea]
    case PostSpare => s.wpc.WriteDone?
    case Step => s.wpc.Advance?
  }

  function ProducerApply(s: State, p: ProducerStep): State
    requires Shaped(s) && ProducerEnabled(s, p)
  {
    match p
    case Fill(content) => s.(mem := s.mem[s.cur := content])
    case Store(shift, len) => s.(start := s.start[s.cur := shift], size := s.size[s.cur := len], ppc := Stored)
    case PostQueue => s.(queue := s.queue + 1, posted := s.posted + [Window(s, s.cur)], ppc := Posted)
    case Signal => s.(wake := true, ppc := WantSpare)
    case TakeSpare => s.(spare := s.spare - 1, ppc := HaveSpare)
    case Switch => s.(cur := if s.cur + 1 == s.num then 0 else s.cur + 1, ppc := Filling)
    case PeekBegin => s.(ppc := PeekWait)
    case PeekTake => s.(spare := s.spare - 1, ppc := PeekHeld)
    case PeekReturn => s.(spare := s.spare + 1, ppc := Filling)
    case DrainBegin => s.(ppc := DrainTake(0))
    case DrainTakeOne => s.(spare := s.spare - 1, ppc := DrainTake(s.ppc.taken + 1))
    case DrainTurn => s.(ppc := DrainPut(s.num - 1))
    case DrainPutOne => s.(spare := s.spare + 1, ppc := DrainPut(s.ppc.left - 1))
    case DrainReturn => s.(ppc := Filling)
    case StopBegin => s.(quit := true, ppc := QuitSet)
    case StopSignal => s.(wake := true, ppc := Joining)
    case Join => s.(ppc := Stopped)
  }

  /** The writer reads the shared area one byte at a time, so any change the producer
      made to an area under the writer would reach the output. */
  function WriterApply(s: State, w: WriterStep): State
    requires Shaped(s) && WriterEnabled(s, w)
  {
    match w
    case Wake => s.(wake := false, wpc := QuitCheck)
    case Check => s.(wpc := if s.quit then Exited else TryQueue)
    case Try => if s.queue > 0 then s.(queue := s.queue - 1, taken := s.taken + 1, wpc := Writing(0))
                else s.(wpc := EventWait)
    case SendByte => s.(out := s.out + [Window(s, s.writeArea)[s.wpc.sent]], wpc := Writing(s.wpc.sent + 1))
    case SendEnd => s.(wpc := WriteDone)
    case SendShort => s.(error := true, wpc := WriteDone)
    case PostSpare => s.(spare := s.spare + 1, done := s.done + 1, wpc := Advance)
    case Step => s.(writeArea := if s.writeArea + 1 == s.num then 0 else s.writeArea + 1, wpc := TryQueue)
  }

  predicate Enabled(s: State, a: Action)
    requires Shaped(s)
  {
    match a case Producer(p) => ProducerEnabled(s, p) case Writer(w) => WriterEnabled(s, w)
  }

  /** One atomic step of either thread. */
  function Apply(s: State, a: Action): State
    requires Shaped(s) && Enabled(s, a)
  {
    match a case Producer(p) => ProducerApply(s, p) case Writer(w) => WriterApply(s, w)
  }

  /** async_io_start with areas of the given sizes. */
  predicate Init(s: State) {
    && Shaped(s) && s.cur == 0 && s.writeArea == 0 && s.spare == s.num - 1 && s.queue == 0
    && !s.wake && !s.quit && !s.error && s.ppc == Filling && s.wpc == EventWait
    && s.posted == [] && s.taken == 0 && s.done == 0 && s.out == []
  }

  /** s reaches t by the schedule run. */
  predicate Reaches(s: State, run: seq<Action>, t: State)
    decreases |run|
  {
    if run == [] then s == t
    else Shaped(s) && Enabled(s, run[0]) && Reaches(Apply(s, run[0]), run[1..], t)
  }

  function Flatten(bs: seq<Bytes>): Bytes {
    if bs == [] then [] else Flatten(bs[..|bs| - 1]) + bs[|bs| - 1]
  }

  // ---------- the invariant ----------

  /** Posted buffers whose spare has not yet been taken in exchange. */
  function Owed(p: ProducerPc): nat { if p.Posted? || p.WantSpare? then 1 else 0 }

  /** Spares the producer holds while waiting for completion. */
  function Held(p: ProducerPc): nat {
    match p
    case PeekHeld => 1
    case DrainTake(k) => k
    case DrainPut(k) => k
    case _ => 0
  }

  /** Posted buffers cur_area still names: it moves on only at Switch. */
  function Unswitched(p: ProducerPc): nat { if p.Posted? || p.WantSpare? || p.HaveSpare? then 1 else 0 }

  predicate Counts(s: State) {
    && s.done <= s.taken <= |s.posted|
    && s.queue == |s.posted| - s.taken
    && s.taken - s.done == (if s.wpc.Writing? || s.wpc.WriteDone? then 1 else 0)
    && s.spare + |s.posted| + Held(s.ppc) == s.num - 1 + s.done + Owed(s.ppc)
    && Unswitched(s.ppc) <= |s.posted|
    && (s.wpc.Advance? ==> s.done > 0)
  }

  /** The area of the j-th buffer ever posted: the ring pointer after j advances. */
  function Area(j: nat, n: nat): nat
    requires n > 0
  {
    if j == 0 then 0 else if Area(j - 1, n) + 1 == n then 0 else Area(j - 1, n) + 1
  }

  predicate Areas(s: State)
    requires Shaped(s) && Counts(s)
  {
    && s.cur == Area(|s.posted| - Unswitched(s.ppc), s.num)
    && s.writeArea == Area(s.done - (if s.wpc.Advance? then 1 else 0), s.num)
  }

  /** Every buffer posted and not yet finished still lies intact in its own area. */
  predicate Intact(s: State)
    requires Shaped(s) && Counts(s)
  {
    forall j :: s.done <= j < |s.posted| ==> Area(j, s.num) < s.num && Window(s, Area(j, s.num)) == s.posted[j]
  }

  /** Unless a lower write failed, the file is the finished buffers in posting order
      followed by the part of the current one already sent. */
  predicate Output(s: State)
    requires Shaped(s) && Counts(s)
  {
    && (s.wpc.Writing? ==> s.wpc.sent <= |s.posted[s.done]|)
    && (!s.error ==> s.out == Flatten(s.posted[..s.done])
                               + (if s.wpc.Writing? then s.posted[s.done][..s.wpc.sent]
                                  else if s.wpc.WriteDone? then s.posted[s.done] else []))
  }

  predicate Signals(s: State) {
    && (s.queue > 0 && s.wpc.EventWait? ==> s.wake || s.ppc.Posted?)
    && (s.quit <==> s.ppc.QuitSet? || s.ppc.Joining? || s.ppc.Stopped?)
    && (s.quit && !s.wpc.QuitCheck? && !s.wpc.Exited? ==> s.wake || s.ppc.QuitSet?)
    && (s.wpc.Exited? ==> s.quit)
    && (s.ppc.Stopped? ==> s.wpc.Exited?)
  }

  predicate Positions(s: State) {
    && (s.ppc.DrainTake? ==> s.ppc.taken <= s.num - 1)
    && (s.ppc.DrainPut? ==> s.ppc.left <= s.num - 1 && s.done == |s.posted|)
  }

  predicate Inv(s: State) {
    Shaped(s) && Counts(s) && Areas(s) && Intact(s) && Output(s) && Signals(s) && Positions(s)
  }

  lemma InitInv(s: State)
    requires Init(s)
    ensures Inv(s)
  {
  }

  /** Going d < n areas round the ring from any start. */
  lemma {:induction false} AreaAhead(i: nat, d: nat, n: nat)
    requires n >= 2 && d < n
    ensures Area(i, n) < n
    ensures Area(i + d, n) == if Area(i, n) + d < n then Area(i, n) + d else Area(i, n) + d - n
  {
    if d > 0 {
      AreaAhead(i, d - 1, n);
    } else if i > 0 {
      AreaAhead(i - 1, 0, n);
    }
  }

  /** Fewer than n consecutive buffers lie in different areas. */
  lemma DistinctAreas(i: nat, j: nat, n: nat)
    requires n >= 2 && i < j < i + n
    ensures Area(i, n) != Area(j, n)
  {
    AreaAhead(i, j - i, n);
  }

  lemma ProducerShaped(s: State, p: ProducerStep)
    requires Shaped(s) && ProducerEnabled(s, p)
    ensures Shaped(ProducerApply(s, p))
  {
  }

  lemma ProducerCounts(s: State, p: ProducerStep)
    requires Shaped(s) && Counts(s) && ProducerEnabled(s, p)
    ensures Counts(ProducerApply(s, p))
  {
    hide Window;
  }

  lemma WriterCounts(s: State, w: WriterStep)
    requires Shaped(s) && Counts(s) && WriterEnabled(s, w)
    ensures Shaped(WriterApply(s, w)) && Counts(WriterApply(s, w))
  {
    hide Window;
  }

  lemma ProducerAreas(s: State, p: ProducerStep)
    requires Shaped(s) && Counts(s) && Areas(s) && ProducerEnabled(s, p) && Counts(ProducerApply(s, p))
    requires Shaped(ProducerApply(s, p))
    ensures Areas(ProducerApply(s, p))
  {
  }

  lemma WriterAreas(s: State, w: WriterStep)
    requires Shaped(s) && Counts(s) && Areas(s) && WriterEnabled(s, w) && Counts(WriterApply(s, w))
    requires Shaped(WriterApply(s, w))
    ensures Areas(WriterApply(s, w))
  {
  }

  lemma ProducerSignals(s: State, p: ProducerStep)
    requires Shaped(s) && Counts(s) && Signals(s) && Positions(s) && ProducerEnabled(s, p)
    ensures Signals(ProducerApply(s, p)) && Positions(ProducerApply(s, p))
  {
  }

  lemma WriterSignals(s: State, w: WriterStep)
    requires Shaped(s) && Counts(s) && Signals(s) && Positions(s) && WriterEnabled(s, w)
    ensures Signals(WriterApply(s, w)) && Positions(WriterApply(s, w))
  {
  }

  /** The producer only ever rewrites the area it is filling, which holds no posted buffer. */
  lemma OwnAreaIntact(s: State, p: ProducerStep, j: nat)
    requires Shaped(s) && Counts(s) && Areas(s) && (p.Fill? || p.Store?) && ProducerEnabled(s, p)
    requires s.done <= j < |s.posted| && Area(j, s.num) < s.num
    ensures Shaped(ProducerApply(s, p)) && Window(ProducerApply(s, p), Area(j, s.num)) == Window(s, Area(j, s.num))
  {
    DistinctAreas(j, |s.posted|, s.num);
  }

  lemma ProducerIntact(s: State, p: ProducerStep)
    requires Shaped(s) && Counts(s) && Areas(s) && Intact(s) && ProducerEnabled(s, p)
    requires Shaped(ProducerApply(s, p)) && Counts(ProducerApply(s, p))
    ensures Intact(ProducerApply(s, p))
  {
    var t := ProducerApply(s, p);
    if p.Fill? || p.Store? {
      forall j | s.done <= j < |s.posted| ensures Window(t, Area(j, s.num)) == s.posted[j] {
        OwnAreaIntact(s, p, j);
      }
    } else {
      SameMemoryIntact(s, t);
    }
  }

  lemma SameMemoryIntact(s: State, t: State)
    requires Shaped(s) && Counts(s) && Intact(s) && Shaped(t) && Counts(t)
    requires t.num == s.num && t.mem == s.mem && t.start == s.start && t.size == s.size && t.done == s.done
    requires forall j :: s.done <= j < |t.posted| ==>
               (j < |s.posted| && t.posted[j] == s.posted[j]) || (Area(j, s.num) < s.num && t.posted[j] == Window(t, Area(j, s.num)))
    ensures Intact(t)
  {
    hide Counts, Area;
    assert forall i :: 0 <= i < s.num ==> Window(t, i) == Window(s, i);
  }

  lemma WriterIntact(s: State, w: WriterStep)
    requires Shaped(s) && Counts(s) && Intact(s) && WriterEnabled(s, w)
    requires Shaped(WriterApply(s, w)) && Counts(WriterApply(s, w))
    ensures Intact(WriterApply(s, w))
  {
    var t := WriterApply(s, w);
    forall j | t.done <= j < |t.posted| ensures Area(j, t.num) < t.num && Window(t, Area(j, t.num)) == t.posted[j] {
      assert Window(s, Area(j, s.num)) == s.posted[j];
    }
  }

  lemma ProducerOutput(s: State, p: ProducerStep)
    requires Shaped(s) && Counts(s) && Output(s) && ProducerEnabled(s, p)
    requires Shaped(ProducerApply(s, p)) && Counts(ProducerApply(s, p))
    ensures Output(ProducerApply(s, p))
  {
    assert ProducerApply(s, p).posted[..s.done] == s.posted[..s.done];
  }

  lemma SendOutput(s: State, w: WriterStep)
    requires Shaped(s) && Counts(s) && Output(s) && WriterEnabled(s, w) && s.wpc.Writing?
    requires Window(s, s.writeArea) == s.posted[s.done]
    requires Shaped(WriterApply(s, w)) && Counts(WriterApply(s, w))
    ensures Output(WriterApply(s, w))
  {
    var b := s.posted[s.done];
    if w.SendByte? {
      assert b[..s.wpc.sent + 1] == b[..s.wpc.sent] + [b[s.wpc.sent]];
    } else {
      assert w.SendEnd? ==> b[..s.wpc.sent] == b;
    }
  }

  lemma WriterOutput(s: State, w: WriterStep)
    requires Shaped(s) && Counts(s) && Areas(s) && Intact(s) && Output(s) && WriterEnabled(s, w)
    requires Shaped(WriterApply(s, w)) && Counts(WriterApply(s, w))
    ensures Output(WriterApply(s, w))
  {
    hide Window;
    if s.wpc.Writing? {
      assert Window(s, Area(s.done, s.num)) == s.posted[s.done];
      SendOutput(s, w);
    } else if s.wpc.WriteDone? {
      assert s.posted[..s.done + 1][..s.done] == s.posted[..s.done];
    }
  }

  /** Every enabled step of either thread keeps the invariant. */
  lemma InvStep(s: State, a: Action)
    requires Inv(s) && Enabled(s, a)
    ensures Inv(Apply(s, a))
  {
    match a
    case Producer(p) =>
      ProducerShaped(s, p);
      ProducerCounts(s, p);
      ProducerAreas(s, p);
      ProducerSignals(s, p);
      ProducerIntact(s, p);
      ProducerOutput(s, p);
    case Writer(w) =>
      WriterCounts(s, w);
      WriterAreas(s, w);
      WriterSignals(s, w);
      WriterIntact(s, w);
      WriterOutput(s, w);
  }

  lemma {:induction false} InvRun(s: State, run: seq<Action>, t: State)
    requires Inv(s) && Reaches(s, run, t)
    ensures Inv(t)
    decreases |run|
  {
    if run == [] {
    } else {
      InvStep(s, run[0]);
      InvRun(Apply(s, run[0]), run[1..], t);
    }
  }

  // ---------- what the cache hands over ----------

  /** How often the cache has moved on to the next area. */
  function Switches(run: seq<Action>): nat {
    if run == [] then 0
    else Switches(run[..|run| - 1]) + if run[|run| - 1] == Producer(Switch) then 1 else 0
  }

  /** What the cache last filled into an area, whatever the writer did in between. */
  function Filled(mem: seq<Bytes>, run: seq<Action>, area: nat): Bytes
    requires area < |mem|
  {
    if run == [] then mem[area]
    else
      var a, before := run[|run| - 1], run[..|run| - 1];
      if a.Producer? && a.p.Fill? && Switches(before) % |mem| == area then a.p.content else Filled(mem, before, area)
  }

  function Cut(b: Bytes, shift: nat, len: nat): Bytes {
    if shift + len <= |b| then b[shift..shift + len] else []
  }

  /** The buffers handed over, from the cache's own steps alone: each is the window stored, out of
      what the area in turn was last filled with. */
  function HandedOver(mem: seq<Bytes>, run: seq<Action>): seq<Bytes>
    requires mem != []
  {
    if run == [] then []
    else
      var a, before := run[|run| - 1], run[..|run| - 1];
      if a.Producer? && a.p.Store?
      then HandedOver(mem, before) + [Cut(Filled(mem, before, Switches(before) % |mem|), a.p.shift, a.p.len)]
      else HandedOver(mem, before)
  }

  /** A run ends with its last step. */
  lemma {:induction false} LastStep(s: State, run: seq<Action>, t: State) returns (u: State)
    requires Reaches(s, run, t) && run != []
    ensures Reaches(s, run[..|run| - 1], u) && Shaped(u) && Enabled(u, run[|run| - 1]) && t == Apply(u, run[|run| - 1])
    decreases |run|
  {
    hide Shaped, Enabled, Apply;
    if |run| == 1 {
      u := s;
    } else {
      u := LastStep(Apply(s, run[0]), run[1..], t);
      assert run[1..][..|run[1..]| - 1] == run[..|run| - 1][1..];
    }
  }

  /** The areas hold what the cache's steps say, and the one being filled is the next in turn. */
  predicate Tracks(mem: seq<Bytes>, run: seq<Action>, s: State) {
    && Shaped(s) && |mem| == s.num && s.cur == Switches(run) % s.num
    && forall area :: 0 <= area < s.num ==> s.mem[area] == Filled(mem, run, area)
  }

  lemma NextInTurn(k: nat, n: nat)
    requires n >= 2
    ensures (k + 1) % n == if k % n + 1 == n then 0 else k % n + 1
  {
    var q, r := k / n, k % n;
    assert k == q * n + r;
    if r + 1 == n {
      assert (q + 1) * n == q * n + n;
      DivModUnique(k + 1, n, q + 1, 0);
    } else {
      DivModUnique(k + 1, n, q, r + 1);
    }
  }

  /** What one more step makes of the three. */
  lemma OneMore(mem: seq<Bytes>, run: seq<Action>, a: Action)
    requires mem != []
    ensures Switches(run + [a]) == Switches(run) + if a == Producer(Switch) then 1 else 0
    ensures forall i :: 0 <= i < |mem| ==>
              Filled(mem, run + [a], i) == if a.Producer? && a.p.Fill? && Switches(run) % |mem| == i then a.p.content else Filled(mem, run, i)
    ensures HandedOver(mem, run + [a])
         == HandedOver(mem, run) + if a.Producer? && a.p.Store? then [Cut(Filled(mem, run, Switches(run) % |mem|), a.p.shift, a.p.len)] else []
  {
    assert (run + [a])[..|run|] == run;
  }

  /** No step changes the areas but filling the current one, or the current one but moving on. */
  lemma ProducerMoves(s: State, p: ProducerStep)
    requires Shaped(s) && ProducerEnabled(s, p)
    ensures var t := ProducerApply(s, p);
            && t.num == s.num && t.mem == (if p.Fill? then s.mem[s.cur := p.content] else s.mem)
            && t.cur == (if p.Switch? then if s.cur + 1 == s.num then 0 else s.cur + 1 else s.cur)
  {
  }

  lemma WriterMoves(s: State, w: WriterStep)
    requires Shaped(s) && WriterEnabled(s, w)
    ensures var t := WriterApply(s, w); Shaped(t) && t.num == s.num && t.mem == s.mem && t.cur == s.cur
  {
    hide Window;
  }

  lemma TracksStep(mem: seq<Bytes>, run: seq<Action>, s: State, a: Action)
    requires Tracks(mem, run, s) && Enabled(s, a)
    ensures Tracks(mem, run + [a], Apply(s, a))
  {
    hide Switches, Filled, HandedOver, ProducerApply, WriterApply, Window;
    NextInTurn(Switches(run), s.num);
    OneMore(mem, run, a);
    match a
    case Producer(p) =>
      ProducerShaped(s, p);
      ProducerMoves(s, p);
      hide ProducerEnabled;
    case Writer(w) =>
      WriterMoves(s, w);
  }

  /** What is posted, and what is stored and about to be. */
  function Offered(s: State): seq<Bytes>
    requires Shaped(s)
  {
    s.posted + if s.ppc.Stored? then [Window(s, s.cur)] else []
  }

  /** Storing offers the window of the current area, and nothing else does. */
  lemma ProducerOffers(s: State, p: ProducerStep)
    requires Shaped(s) && ProducerEnabled(s, p)
    ensures Shaped(ProducerApply(s, p))
    ensures Offered(ProducerApply(s, p)) == Offered(s) + if p.Store? then [Cut(s.mem[s.cur], p.shift, p.len)] else []
  {
  }

  lemma WriterOffers(s: State, w: WriterStep)
    requires Shaped(s) && WriterEnabled(s, w)
    ensures Shaped(WriterApply(s, w)) && Offered(WriterApply(s, w)) == Offered(s)
  {
    assert Window(WriterApply(s, w), s.cur) == Window(s, s.cur);
  }

  lemma OfferedStep(mem: seq<Bytes>, run: seq<Action>, s: State, a: Action)
    requires Tracks(mem, run, s) && Enabled(s, a) && Offered(s) == HandedOver(mem, run)
    ensures Shaped(Apply(s, a)) && Offered(Apply(s, a)) == HandedOver(mem, run + [a])
  {
    hide Switches, Filled, HandedOver, Offered, Cut, ProducerApply, WriterApply;
    OneMore(mem, run, a);
    match a
    case Producer(p) => ProducerOffers(s, p);
    case Writer(w) => WriterOffers(s, w);
  }

  lemma {:induction false} TracksRun(s0: State, run: seq<Action>, s: State)
    requires Init(s0) && Reaches(s0, run, s)
    ensures Tracks(s0.mem, run, s) && Offered(s) == HandedOver(s0.mem, run)
    decreases |run|
  {
    hide Offered, HandedOver, Apply, Enabled;
    if run == [] {
      TracksNothing(s0);
    } else {
      var n := |run| - 1;
      var u := LastStep(s0, run, s);
      TracksRun(s0, run[..n], u);
      TracksStep(s0.mem, run[..n], u, run[n]);
      OfferedStep(s0.mem, run[..n], u, run[n]);
      assert run[..n] + [run[n]] == run;
    }
  }

  lemma TracksNothing(s0: State)
    requires Init(s0)
    ensures Tracks(s0.mem, [], s0) && Offered(s0) == HandedOver(s0.mem, [])
  {
    DivModUnique(0, s0.num, 0, 0);
  }

  /** In any interleaving the buffers posted are those the cache has handed over: the windows it
      stored, out of what it last filled each area with. */
  lemma PostedIsHandedOver(s0: State, run: seq<Action>, s: State)
    requires Init(s0) && Reaches(s0, run, s)
    ensures Shaped(s) && s0.mem != []
    ensures HandedOver(s0.mem, run) == s.posted + if s.ppc.Stored? then [Window(s, s.cur)] else []
  {
    TracksRun(s0, run, s);
  }

  /** Whatever window of its area the cache has filled, it can hand it over, and that is what is
      then posted. */
  lemma PostsWindow(s: State, content: Bytes, shift: nat, len: nat)
    requires Shaped(s) && s.ppc.Filling? && |content| == |s.mem[s.cur]| && shift + len <= |content|
    ensures Enabled(s, Producer(Fill(content)))
    ensures var s1 := Apply(s, Producer(Fill(content)));
            && Shaped(s1) && Enabled(s1, Producer(Store(shift, len)))
            && var s2 := Apply(s1, Producer(Store(shift, len)));
            && Shaped(s2) && Enabled(s2, Producer(PostQueue))
            && Apply(s2, Producer(PostQueue)).posted == s.posted + [content[shift..shift + len]]
  {
    ProducerShaped(s, Fill(content));
  }

  // ---------- what every schedule keeps ----------

  /** Between calls the spares and the buffers not yet written add up to num_area - 1, cur_area is
      write_area advanced by the latter, and the area being filled is none of theirs. */
  lemma FilledAreaIsPrivate(s0: State, run: seq<Action>, s: State)
    requires Init(s0) && Reaches(s0, run, s) && (s.ppc.Filling? || s.ppc.Stored?)
    ensures s.done <= |s.posted| && s.spare + (|s.posted| - s.done) == s.num - 1
    ensures s.cur == Area(|s.posted|, s.num)
    ensures forall j :: s.done <= j < |s.posted| ==> Area(j, s.num) != s.cur
    ensures s.wpc.Writing? ==> s.writeArea == Area(s.done, s.num) && s.writeArea != s.cur
  {
    InitInv(s0);
    InvRun(s0, run, s);
    forall j | s.done <= j < |s.posted| ensures Area(j, s.num) != s.cur {
      DistinctAreas(j, |s.posted|, s.num);
    }
  }

  lemma {:induction false} FlattenPrefix(bs: seq<Bytes>, n: nat)
    requires n <= |bs|
    ensures Flatten(bs[..n]) <= Flatten(bs)
    decreases |bs|
  {
    if n == |bs| {
      assert bs[..n] == bs;
    } else {
      FlattenPrefix(bs[..|bs| - 1], n);
      assert bs[..|bs| - 1][..n] == bs[..n];
    }
  }

  lemma OutputPrefix(s: State)
    requires Shaped(s) && Counts(s) && Output(s) && !s.error
    ensures Flatten(s.posted[..s.done]) <= s.out <= Flatten(s.posted)
  {
    if s.wpc.Writing? || s.wpc.WriteDone? {
      assert s.posted[..s.done + 1][..s.done] == s.posted[..s.done];
      FlattenPrefix(s.posted, s.done + 1);
    } else {
      FlattenPrefix(s.posted, s.done);
    }
  }

  /** Without a failed lower write, the bytes out are always a prefix of the buffers handed over,
      joined in order, at least up to the last finished one. */
  lemma WrittenOnceInOrder(s0: State, run: seq<Action>, s: State)
    requires Init(s0) && Reaches(s0, run, s) && !s.error
    ensures s0.mem != [] && s.done <= |s.posted| && s.posted <= HandedOver(s0.mem, run)
    ensures s.out <= Flatten(HandedOver(s0.mem, run))
    ensures Flatten(HandedOver(s0.mem, run)[..s.done]) <= s.out
    ensures !s.wpc.Writing? && !s.wpc.WriteDone? ==> s.out == Flatten(HandedOver(s0.mem, run)[..s.done])
  {
    hide HandedOver, Window;
    InitInv(s0);
    InvRun(s0, run, s);
    OutputPrefix(s);
    PostedIsHandedOver(s0, run, s);
    var all := HandedOver(s0.mem, run);
    assert all[..|s.posted|] == s.posted && all[..s.done] == s.posted[..s.done];
    FlattenPrefix(all, |s.posted|);
  }

  /** wait_complete(complete = 1) is about to return only when every buffer handed over is finished,
      and it has put back every spare it took. */
  lemma CompleteMeansWritten(s0: State, run: seq<Action>, s: State)
    requires Init(s0) && Reaches(s0, run, s) && s.ppc == DrainPut(0)
    ensures s.done == |s.posted| && s.queue == 0 && s.spare == s.num - 1
    ensures s0.mem != [] && s.posted == HandedOver(s0.mem, run)
    ensures !s.error ==> s.out == Flatten(HandedOver(s0.mem, run))
  {
    hide HandedOver;
    InitInv(s0);
    InvRun(s0, run, s);
    PostedIsHandedOver(s0, run, s);
    assert s.posted[..s.done] == s.posted;
  }

  // ---------- no lost wake-up, no deadlock ----------

  /** The producer sits in a semaphore wait that cannot return yet. */
  predicate Blocked(s: State) {
    s.spare == 0 && (s.ppc.WantSpare? || s.ppc.PeekWait? || (s.ppc.DrainTake? && s.ppc.taken < s.num - 1))
  }

  /** Writer steps left, at most, until it posts a spare, when the next buffer has len bytes. */
  function RankAt(w: WriterPc, len: nat): nat {
    match w
    case EventWait => 6 + len
    case QuitCheck => 5 + len
    case Advance => 5 + len
    case TryQueue => 4 + len
    case Writing(k) => if k <= len then 2 + len - k else 0
    case _ => 1
  }

  function Rank(s: State): (r: nat)
    requires Inv(s) && Blocked(s)
    ensures r > 0
  {
    RankAt(s.wpc, |s.posted[s.done]|)
  }

  lemma BlockedFacts(s: State)
    requires Shaped(s) && Counts(s) && Signals(s) && Intact(s) && Blocked(s)
    ensures s.done < |s.posted| && !s.quit && (s.wpc.EventWait? ==> s.wake)
    ensures s.wpc.Writing? && s.writeArea == Area(s.done, s.num) ==> s.size[s.writeArea] == |s.posted[s.done]|
  {
    if s.wpc.Writing? && s.writeArea == Area(s.done, s.num) {
      assert Window(s, Area(s.done, s.num)) == s.posted[s.done];
    }
  }

  lemma SendBounded(s: State)
    requires Inv(s)
    ensures s.wpc.Writing? ==> s.wpc.sent <= s.size[s.writeArea]
  {
    if s.wpc.Writing? { assert Window(s, Area(s.done, s.num)) == s.posted[s.done]; }
  }

  lemma WritingSize(s: State)
    requires Inv(s)
    ensures s.wpc.Writing? ==> s.size[s.writeArea] == |s.posted[s.done]|
  {
    if s.wpc.Writing? { assert Window(s, Area(s.done, s.num)) == s.posted[s.done]; }
  }

  /** While the producer is blocked the writer thread always has a step. */
  function WriterMove(s: State): (w: WriterStep)
    requires Inv(s) && Blocked(s)
    ensures WriterEnabled(s, w)
  {
    BlockedFacts(s);
    match s.wpc
    case EventWait => Wake
    case QuitCheck => Check
    case TryQueue => Try
    case Writing(k) => if k < s.size[s.writeArea] then SendByte else SendEnd
    case WriteDone => PostSpare
    case Advance => Step
    case Exited => assert false; Step
  }

  lemma BlockedOnlyWriter(s: State, a: Action)
    requires Shaped(s) && Blocked(s) && Enabled(s, a)
    ensures a.Writer?
  {
  }

  lemma RankFalls(s: State, w: WriterStep)
    requires Shaped(s) && Counts(s) && Blocked(s) && WriterEnabled(s, w) && !s.quit && s.done < |s.posted|
    requires s.wpc.Writing? ==> s.wpc.sent <= s.size[s.writeArea] == |s.posted[s.done]|
    ensures WriterApply(s, w).spare > 0 || (Blocked(WriterApply(s, w)) && WriterApply(s, w).posted == s.posted
              && WriterApply(s, w).done == s.done
              && RankAt(WriterApply(s, w).wpc, |s.posted[s.done]|) < RankAt(s.wpc, |s.posted[s.done]|))
  {
  }

  lemma BlockedStep(s: State, a: Action)
    requires Inv(s) && Blocked(s) && Enabled(s, a)
    ensures a.Writer? && Inv(Apply(s, a)) && Apply(s, a).ppc == s.ppc && Apply(s, a).num == s.num
    ensures Apply(s, a).spare > 0 || (Blocked(Apply(s, a)) && Rank(Apply(s, a)) < Rank(s))
  {
    hide Intact, Output, Window, Positions;
    InvStep(s, a);
    BlockedOnlyWriter(s, a);
    BlockedFacts(s);
    WritingSize(s);
    SendBounded(s);
    RankFalls(s, a.w);
  }

  /** The producer never waits for ever: any schedule of Rank(s) steps or more from a blocked
      state passes through one in which a spare is available and the producer can take it. */
  lemma {:induction false} BlockedRunEnds(s: State, run: seq<Action>, t: State)
    requires Inv(s) && Blocked(s) && Reaches(s, run, t) && |run| >= Rank(s)
    ensures exists k, u :: 0 <= k <= Rank(s) && k <= |run| && Reaches(s, run[..k], u) && u.spare > 0 && u.ppc == s.ppc
    decreases |run|
  {
    var k, u := FindSpare(s, run, t, Rank(s));
  }

  lemma {:induction false} FindSpare(s: State, run: seq<Action>, t: State, rank: nat) returns (k: nat, u: State)
    requires Inv(s) && Blocked(s) && Reaches(s, run, t) && |run| >= rank == Rank(s)
    ensures k <= rank && k <= |run| && Reaches(s, run[..k], u) && u.spare > 0 && u.ppc == s.ppc && u.num == s.num && Shaped(u)
    decreases |run|
  {
    hide Areas, Intact, Output, Positions, Signals, Window;
    var s' := Apply(s, run[0]);
    BlockedStep(s, run[0]);
    if s'.spare > 0 {
      k, u := 1, s';
      assert run[..1][1..] == [];
    } else {
      k, u := FindSpare(s', run[1..], t, Rank(s'));
      k := k + 1;
      assert run[..k][1..] == run[1..][..k - 1];
    }
  }

  /** The cache has a step to take. */
  ghost predicate CacheCanMove(s: State)
    requires Shaped(s)
  {
    exists p :: ProducerEnabled(s, p)
  }

  /** Between the call of async_io_stop and its end the cache waits for nothing but the writer to
      leave. */
  predicate WaitsForExit(s: State) {
    s.ppc.Joining? && !s.wpc.Exited?
  }

  /** In a reachable state short of a joined stop some thread has a step, and it is the cache
      unless that waits for a spare or for the writer to leave. */
  lemma NeverStuck(s0: State, run: seq<Action>, s: State)
    requires Init(s0) && Reaches(s0, run, s) && !s.ppc.Stopped?
    ensures Shaped(s) && (Blocked(s) || WaitsForExit(s) || CacheCanMove(s))
    ensures Blocked(s) || WaitsForExit(s) ==> exists w :: WriterEnabled(s, w)
  {
    InitInv(s0);
    InvRun(s0, run, s);
    if Blocked(s) {
      assert WriterEnabled(s, WriterMove(s));
    } else if WaitsForExit(s) {
      SendBounded(s);
      var w := ExitMove(s);
    } else {
      var p := ProducerMove(s);
    }
  }

  lemma ProducerMove(s: State) returns (p: ProducerStep)
    requires Shaped(s) && Counts(s) && Positions(s) && !Blocked(s) && !WaitsForExit(s) && !s.ppc.Stopped?
    ensures ProducerEnabled(s, p)
  {
    match s.ppc
    case Filling => p := PeekBegin;
    case Stored => p := PostQueue;
    case Posted => p := Signal;
    case WantSpare => p := TakeSpare;
    case HaveSpare => p := Switch;
    case PeekWait => p := PeekTake;
    case PeekHeld => p := PeekReturn;
    case DrainTake(k) => p := if k < s.num - 1 then DrainTakeOne else DrainTurn;
    case DrainPut(k) => p := if k > 0 then DrainPutOne else DrainReturn;
    case QuitSet => p := StopSignal;
    case Joining => p := Join;
  }

  lemma ExitMove(s: State) returns (w: WriterStep)
    requires Shaped(s) && Signals(s) && WaitsForExit(s)
    requires s.wpc.Writing? ==> s.wpc.sent <= s.size[s.writeArea]
    ensures WriterEnabled(s, w)
  {
    match s.wpc
    case EventWait => w := Wake;
    case QuitCheck => w := Check;
    case TryQueue => w := Try;
    case Writing(k) => w := if k < s.size[s.writeArea] then SendByte else SendEnd;
    case WriteDone => w := PostSpare;
    case Advance => w := Step;
  }

  // ---------- stopping ----------

  /** The writer will empty the queue before it next looks at the quit flag. */
  predicate DrainsOnStop(s: State) {
    s.queue == 0 || s.wpc.TryQueue? || s.wpc.Writing? || s.wpc.WriteDone? || s.wpc.Advance?
  }

  lemma DrainsStep(s: State, a: Action)
    requires Shaped(s) && Counts(s) && Signals(s) && s.quit && DrainsOnStop(s) && Enabled(s, a)
    ensures Apply(s, a).quit && DrainsOnStop(Apply(s, a)) && Apply(s, a).posted == s.posted
  {
  }

  lemma {:induction false} StopDrains(s: State, run: seq<Action>, t: State)
    requires Inv(s) && s.quit && DrainsOnStop(s) && Reaches(s, run, t) && t.ppc.Stopped?
    ensures t.done == |t.posted| && t.posted == s.posted
    decreases |run|
  {
    if run == [] {
    } else {
      InvStep(s, run[0]);
      DrainsStep(s, run[0]);
      StopDrains(Apply(s, run[0]), run[1..], t);
    }
  }

  ghost predicate EveryStopIsLossless(q: State) {
    forall run, t :: Reaches(q, run, t) && t.ppc.Stopped? ==> t.done == |t.posted|
  }

  /** async_io_stop writes out every posted buffer, whatever the schedule, exactly when nothing is
      queued or the writer is already inside its queue-draining loop: the thread tests the quit flag
      before the queue. The guard a caller has is a wait_complete(complete = 1) first, which
      leaves the queue empty (CompleteMeansWritten). */
  lemma StopIsLosslessIff(s: State)
    requires Inv(s) && s.ppc.Filling?
    ensures DrainsOnStop(s) <==> EveryStopIsLossless(Apply(s, Producer(StopBegin)))
  {
    var q := Apply(s, Producer(StopBegin));
    InvStep(s, Producer(StopBegin));
    if DrainsOnStop(s) {
      forall run, t | Reaches(q, run, t) && t.ppc.Stopped? ensures t.done == |t.posted| {
        StopDrains(q, run, t);
      }
    } else {
      var run, t := LosingStop(q);
    }
  }

  lemma LosingStop(q: State) returns (run: seq<Action>, t: State)
    requires Shaped(q) && q.ppc.QuitSet? && q.quit && !DrainsOnStop(q) && !q.wpc.Exited?
    requires q.done <= q.taken < |q.posted|
    ensures Reaches(q, run, t) && t.ppc.Stopped? && t.done < |t.posted|
    ensures t.posted == q.posted && t.out == q.out && t.error == q.error
  {
    hide Window, Reaches;
    var q1 := Apply(q, Producer(StopSignal));
    var q2 := if q.wpc.EventWait? then Apply(q1, Writer(Wake)) else q1;
    var q3 := Apply(q2, Writer(Check));
    t := Apply(q3, Producer(Join));
    ReachesNothing(t, []);
    run := Prepend(q3, Producer(Join), [], t);
    run := Prepend(q2, Writer(Check), run, t);
    if q.wpc.EventWait? { run := Prepend(q1, Writer(Wake), run, t); }
    run := Prepend(q, Producer(StopSignal), run, t);
  }

  /** Writer steps needed for the posted buffers from one on. */
  function Work(posted: seq<Bytes>, from: nat): nat
    requires from <= |posted|
    decreases |posted| - from
  {
    if from == |posted| then 0 else |posted[from]| + 4 + Work(posted, from + 1)
  }

  /** Writer steps left, at most, once quit is set. */
  function WriterLeft(s: State): nat
    requires Counts(s)
  {
    match s.wpc
    case Exited => 0
    case QuitCheck => 1
    case EventWait => 2
    case TryQueue => 3 + Work(s.posted, s.taken)
    case Advance => 4 + Work(s.posted, s.taken)
    case WriteDone => 5 + Work(s.posted, s.taken)
    case Writing(k) => 6 + (if k <= |s.posted[s.done]| then |s.posted[s.done]| - k else 0) + Work(s.posted, s.taken)
  }

  /** Steps of both threads left, at most, once quit is set. */
  function StopRank(s: State): nat
    requires Counts(s)
  {
    WriterLeft(s) + if s.ppc.QuitSet? then 2 else if s.ppc.Joining? then 1 else 0
  }

  lemma WriterLeftFalls(s: State, w: WriterStep)
    requires Shaped(s) && Counts(s) && WriterEnabled(s, w) && Counts(WriterApply(s, w)) && s.quit
    requires s.wpc.Writing? ==> s.size[s.writeArea] == |s.posted[s.done]|
    ensures WriterLeft(WriterApply(s, w)) < WriterLeft(s)
  {
    hide Window;
  }

  lemma StopStep(s: State, a: Action)
    requires Inv(s) && s.quit && Enabled(s, a)
    ensures Inv(Apply(s, a)) && Apply(s, a).quit && StopRank(Apply(s, a)) < StopRank(s)
  {
    hide Intact, Output, Areas, Positions, Window;
    InvStep(s, a);
    if a.Writer? {
      WritingSize(s);
      WriterLeftFalls(s, a.w);
    }
  }

  /** A stop ends: from the moment quit is set, every schedule has at most StopRank(s) steps, and it
      can go on until the thread is joined. */
  lemma {:induction false} StopEnds(s: State, run: seq<Action>, t: State)
    requires Inv(s) && s.quit && Reaches(s, run, t)
    ensures Inv(t) && t.quit && |run| + StopRank(t) <= StopRank(s)
    ensures t.ppc.Stopped? <==> !exists a :: Enabled(t, a)
    decreases |run|
  {
    if run == [] {
      StoppedIffStuck(s);
    } else {
      StopStep(s, run[0]);
      StopEnds(Apply(s, run[0]), run[1..], t);
    }
  }

  lemma StoppedIffStuck(s: State)
    requires Inv(s) && s.quit
    ensures s.ppc.Stopped? <==> !exists a :: Enabled(s, a)
  {
    if s.ppc.Stopped? {
    } else if WaitsForExit(s) {
      SendBounded(s);
      var w := ExitMove(s);
      assert Enabled(s, Writer(w));
    } else {
      var p := ProducerMove(s);
      assert Enabled(s, Producer(p));
    }
  }

  /** How many steps of any schedule the cache can have to wait for its own next step. */
  function Patience(s: State): nat
    requires Inv(s)
  {
    if Blocked(s) then Rank(s) else if WaitsForExit(s) then StopRank(s) else 0
  }

  /** The cache gets on: any schedule of Patience(s) steps or more passes, within so many steps,
      through a state in which the cache itself has a step. */
  lemma CacheGetsOn(s: State, run: seq<Action>, t: State)
    requires Inv(s) && !s.ppc.Stopped? && Reaches(s, run, t) && |run| >= Patience(s)
    ensures exists k, u :: 0 <= k <= Patience(s) && Reaches(s, run[..k], u) && Shaped(u) && CacheCanMove(u)
  {
    hide Counts, Areas, Intact, Output, Signals, Rank, WriterLeft, Reaches;
    if Blocked(s) {
      var k, u := FindSpare(s, run, t, Rank(s));
      var p := if u.ppc.WantSpare? then TakeSpare else if u.ppc.PeekWait? then PeekTake else DrainTakeOne;
      assert ProducerEnabled(u, p);
    } else if WaitsForExit(s) {
      var k, u := FindExit(s, run, t);
      assert ProducerEnabled(u, Join);
    } else {
      var p := ProducerMove(s);
      ReachesNothing(s, run[..0]);
    }
  }

  lemma ReachesNothing(s: State, run: seq<Action>)
    requires run == []
    ensures Reaches(s, run, s)
  {
  }

  lemma {:induction false} FindExit(s: State, run: seq<Action>, t: State) returns (k: nat, u: State)
    requires Inv(s) && s.ppc.Joining? && Reaches(s, run, t) && |run| >= WriterLeft(s)
    ensures k <= WriterLeft(s) && k <= |run| && Reaches(s, run[..k], u) && Shaped(u) && u.ppc.Joining? && u.wpc.Exited?
    decreases |run|
  {
    hide Areas, Intact, Output, Positions, Window;
    if s.wpc.Exited? {
      k, u := 0, s;
    } else {
      StopStep(s, run[0]);
      k, u := FindExit(Apply(s, run[0]), run[1..], t);
      k := k + 1;
      assert run[..k][1..] == run[1..][..k - 1];
    }
  }

  /** Area is the index modulo the number of areas. */
  lemma {:induction false} AreaIsModulo(j: nat, n: nat)
    requires n >= 2
    ensures Area(j, n) == j % n
    decreases j
  {
    if j == 0 {
      DivModUnique(0, n, 0, 0);
    } else {
      AreaIsModulo(j - 1, n);
      var q := (j - 1) / n;
      assert j - 1 == q * n + Area(j - 1, n);
      if Area(j - 1, n) + 1 == n {
        assert (q + 1) * n == q * n + n;
        DivModUnique(j, n, q + 1, 0);
      } else {
        DivModUnique(j, n, q, Area(j - 1, n) + 1);
      }
    }
  }

  lemma Prepend(s: State, a: Action, run: seq<Action>, t: State) returns (longer: seq<Action>)
    requires Shaped(s) && Enabled(s, a) && Reaches(Apply(s, a), run, t)
    ensures Reaches(s, longer, t)
  {
    longer := [a] + run;
    assert longer[1..] == run;
  }
}
