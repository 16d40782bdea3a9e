/** Runs of calls, on a fresh cache of any memory size, after which the cached stream does not hold
    what a plain file would: one for each way to be irregular. */
module CacheFailures {
  import opened Basics
  import opened CacheControl
  import opened IoCache

  /** A cache just opened on a file. */
  function Opened(f: Bytes, memory: nat): (s: Cached)
    requires memory >= ALIGNMENT
    ensures s.control.Valid()
  {
    Cached(f, Control(memory, 0, 0, 0, 0, 0, false, 0))
  }

  lemma PlainMore(s: Plain, ops: seq<Op>, op: Op)
    requires s.pos >= 0
    ensures PlainEnd(s, []) == s && PlainEnd(s, ops + [op]) == PlainNext(PlainEnd(s, ops), op)
  {
    hide PlainNext;
    assert (ops + [op])[..|ops|] == ops;
  }

  lemma CachedMore(s: Cached, ops: seq<Op>, op: Op)
    requires s.control.Valid()
    ensures CachedEnd(s, []) == s && AllSafe(s, [])
    ensures CachedEnd(s, ops + [op]) == CachedNext(CachedEnd(s, ops), op)
    ensures AllSafe(s, ops + [op]) <==> AllSafe(s, ops) && CachedEnd(s, ops).control.Safe(op)
  {
    hide CachedNext, Control.Safe;
    assert (ops + [op])[..|ops|] == ops;
  }

  // ---------- writes through the buffer ----------

  lemma FreshRead(c: Control, len: nat)
    requires c == Control(c.memory, 0, 0, 0, 0, 0, false, 0) && c.memory >= ALIGNMENT && len >= 2
    ensures var k := if len < c.memory then len else c.memory;
            c.Read(len, 1) == Control(c.memory, 1, k, 0, k, 1, false, 0)
  {
    hide Control.AfterRead;
    c.ReadOnce(len, 1);
  }

  function ReadAndWrite(x: byte): seq<Op> {
    [OpRead(1)] + [OpWrite([x])]
  }

  /** A write right after a read that left bytes in the buffer lands behind them. */
  lemma ReadThenWrite(f: Bytes, memory: nat, x: byte)
    requires |f| >= 2 && x != f[1] && memory >= ALIGNMENT
    ensures AllSafe(Opened(f, memory), ReadAndWrite(x))
    ensures CachedEnd(Opened(f, memory), ReadAndWrite(x)).file == Overlay(f, if |f| < memory then |f| else memory, [x])
    ensures CachedEnd(Opened(f, memory), ReadAndWrite(x)).file != PlainEnd(Plain(f, 0), ReadAndWrite(x)).file
  {
    hide Overlay, ReadAt, PlainEnd, CachedEnd, AllSafe, Control.Read;
    var s, p := Opened(f, memory), Plain(f, 0);
    FreshRead(s.control, |f|);
    assert [] + [OpRead(1)] == [OpRead(1)];
    CachedMore(s, [], OpRead(1));
    CachedMore(s, [OpRead(1)], OpWrite([x]));
    PlainMore(p, [], OpRead(1));
    PlainMore(p, [OpRead(1)], OpWrite([x]));
    assert CachedEnd(s, ReadAndWrite(x)).file[1] == f[1];
    assert PlainEnd(p, ReadAndWrite(x)).file[1] == x;
  }

  lemma FreshWrite(c: Control)
    requires c == Control(c.memory, 0, 0, 0, 0, 0, false, 0) && c.memory >= ALIGNMENT
    ensures c.AfterWrite(1) == Control(c.memory, 0, 0, 0, 1, 1, true, 0)
  {
    hide Control.WriteLoop;
    c.WriteOnce(1);
  }

  lemma OverlayFromNothing(d: Bytes)
    ensures Overlay([], 0, d) == d
  {
  }

  lemma OverwriteAll(a: byte, d: Bytes)
    requires d != []
    ensures Overlay([a], 0, d) == d
  {
  }

  /** One byte written to an empty file, and back to its start. */
  function WriteAndReturn(a: byte): seq<Op> {
    [OpWrite([a])] + [OpSeek(0)]
  }

  /** The buffer is then dirty and rewound. */
  lemma Rewound(memory: nat, a: byte)
    requires memory >= ALIGNMENT
    ensures var s := CachedEnd(Opened([], memory), WriteAndReturn(a));
            AllSafe(Opened([], memory), WriteAndReturn(a)) && s == Cached([a], Control(memory, 0, 0, 0, 1, 0, true, 0))
    ensures PlainEnd(Plain([], 0), WriteAndReturn(a)) == Plain([a], 0)
  {
    hide Overlay, PlainEnd, CachedEnd, AllSafe, Control.AfterWrite;
    var s, p := Opened([], memory), Plain([], 0);
    FreshWrite(s.control);
    OverlayFromNothing([a]);
    assert [] + [OpWrite([a])] == [OpWrite([a])];
    CachedMore(s, [], OpWrite([a]));
    CachedMore(s, [OpWrite([a])], OpSeek(0));
    PlainMore(p, [], OpWrite([a]));
    PlainMore(p, [OpWrite([a])], OpSeek(0));
  }

  /** A seek that fails on a dirty buffer not read to its end leaves the next write behind it, and so
      does a flush there. */
  lemma MisplacedAfter(memory: nat, a: byte, op: Op, b: byte)
    requires memory >= ALIGNMENT && (op == OpSeek(-1) || op == OpFlush)
    ensures var ops := WriteAndReturn(a) + [op] + [OpWrite([b])];
            && AllSafe(Opened([], memory), ops) && CachedEnd(Opened([], memory), ops).file == [a, b]
            && PlainEnd(Plain([], 0), ops).file == [b]
  {
    hide Overlay, PlainEnd, CachedEnd, AllSafe, WriteAndReturn, Control.AfterWrite;
    var s, p, ops := Opened([], memory), Plain([], 0), WriteAndReturn(a);
    Rewound(memory, a);
    CachedMore(s, ops, op);
    CachedMore(s, ops + [op], OpWrite([b]));
    PlainMore(p, ops, op);
    PlainMore(p, ops + [op], OpWrite([b]));
    OverlayJoins([], 0, [a], [b]);
    OverlayFromNothing([a]);
    OverlayFromNothing([a] + [b]);
    OverwriteAll(a, [b]);
  }

  lemma FailingSeekThenWrite(memory: nat, a: byte, b: byte)
    requires memory >= ALIGNMENT
    ensures var ops := WriteAndReturn(a) + [OpSeek(-1)] + [OpWrite([b])];
            && AllSafe(Opened([], memory), ops) && CachedEnd(Opened([], memory), ops).file == [a, b]
            && PlainEnd(Plain([], 0), ops).file == [b]
  {
    hide CachedEnd, PlainEnd, AllSafe;
    MisplacedAfter(memory, a, OpSeek(-1), b);
  }

  lemma FlushThenWrite(memory: nat, a: byte, b: byte)
    requires memory >= ALIGNMENT
    ensures var ops := WriteAndReturn(a) + [OpFlush] + [OpWrite([b])];
            && AllSafe(Opened([], memory), ops) && CachedEnd(Opened([], memory), ops).file == [a, b]
            && PlainEnd(Plain([], 0), ops).file == [b]
  {
    hide CachedEnd, PlainEnd, AllSafe;
    MisplacedAfter(memory, a, OpFlush, b);
  }

  // ---------- writes past the buffer ----------

  /** The lower stream and the dirty bytes that a cache in that state can hold. */
  predicate Holds(s: Cached, lower: Bytes, stale: Bytes)
    requires s.control.Valid()
  {
    if s.control.dirty then |stale| == s.control.size && s.file == Overlay(lower, s.control.cOffset, stale)
    else stale == [] && s.file == lower
  }

  /** What they make of a write of d. */
  function WrittenOver(s: Cached, lower: Bytes, stale: Bytes, d: Bytes): Bytes
    requires s.control.Valid() && s.control.actual >= 0
  {
    var c := s.control.Settled();
    if c.GoesDirect(|d|) && c.actual >= 0 then DirectFile(lower, c.actual, c.cOffset, stale, d, Rest(|d|, c.memory))
    else Overlay(s.file, s.control.WriteStart(), d)
  }

  /** A file that a write of d in that state can leave. */
  ghost predicate Leaves(s: Cached, d: Bytes, file: Bytes)
    requires s.control.Valid()
  {
    exists lower, stale :: Holds(s, lower, stale) && s.control.actual >= 0 && file == WrittenOver(s, lower, stale, d)
  }

  /** Any run without unsafe writes, then one write, safe or not: what the lower stream is left
      with when the cache is flushed at last. */
  method RunThenWrite(f: Bytes, memory: nat, ops: seq<Op>, d: Bytes) returns (file: Bytes)
    requires memory >= ALIGNMENT && AllSafe(Opened(f, memory), ops)
    ensures Leaves(CachedEnd(Opened(f, memory), ops), d, file)
  {
    hide CachedEnd, AllSafe, Overlay, Window, Copied, DirectFile;
    var lower := new Stream(f);
    var io := new CachedIo(lower, memory);
    var rs := io.RunAny(ops);
    ghost var s, was, stale := io.Now(), io.lower.data, io.Stale();
    assert Holds(s, was, stale);
    assert io.Written(d) == WrittenOver(s, was, stale, d);
    var k := io.Write(d);
    var ret := io.CacheFlush();
    file := io.lower.data;
  }

  /** A write as long as the memory goes past the dirty bytes, which come back behind it. */
  lemma StaleThenDirectWrite(memory: nat, a: byte, d: Bytes, file: Bytes)
    requires memory >= ALIGNMENT && |d| == memory && Leaves(CachedEnd(Opened([], memory), WriteAndReturn(a)), d, file)
    ensures file == d + [a] && PlainEnd(Plain([], 0), WriteAndReturn(a) + [OpWrite(d)]).file == d
  {
    hide Overlay, PlainEnd, CachedEnd, AllSafe, WriteAndReturn, DirectFile;
    Rewound(memory, a);
    var s := CachedEnd(Opened([], memory), WriteAndReturn(a));
    PlainMore(Plain([], 0), WriteAndReturn(a), OpWrite(d));
    OverwriteAll(a, d);
    var lower, stale :| Holds(s, lower, stale) && file == WrittenOver(s, lower, stale, d);
    StaleBehind(lower, stale, a, d);
  }

  lemma StaleBehind(lower: Bytes, stale: Bytes, a: byte, d: Bytes)
    requires |stale| == 1 && Overlay(lower, 0, stale) == [a] && d != []
    ensures Rest(|d|, |d|) == 0 && DirectFile(lower, 0, 0, stale, d, 0) == d + [a]
  {
    DivModUnique(|d|, |d|, 1, 0);
    assert Overlay(lower, 0, stale)[0] == a;
    assert stale == [a] && |lower| <= 1;
    assert d[..|d|] == d && d[|d|..] == [];
    OverBehind(lower, a, d);
  }

  lemma OverBehind(lower: Bytes, a: byte, d: Bytes)
    requires |lower| <= 1 && d != []
    ensures Overlay(Overlay(Overlay(lower, 0, d), |d|, [a]), |d|, []) == d + [a]
  {
    assert Overlay(lower, 0, d) == d;
    assert Overlay(d, |d|, [a]) == d + [a];
  }

  /** Past the start of a file, a read, back in front of it, and on to its end. */
  function BackAndOn(memory: nat): seq<Op>
    requires memory >= ALIGNMENT
  {
    [OpSeek(100)] + [OpRead(1)] + [OpSeek(50)] + [OpRead(memory - 50)]
  }

  lemma BackAndOnControl(c: Control)
    requires c == Control(c.memory, 0, 0, 0, 0, 0, false, 0) && c.memory >= ALIGNMENT
    ensures c.Seek(100) == Control(c.memory, 100, 100, 100, 0, 0, false, 0)
    ensures Control(c.memory, 100, 100, 100, 0, 0, false, 0).Read(c.memory, 1)
         == Control(c.memory, 101, c.memory, 100, c.memory - 100, 1, false, 100)
    ensures Control(c.memory, 101, c.memory, 100, c.memory - 100, 1, false, 100).Seek(50)
         == Control(c.memory, 50, 100, 0, c.memory, 50, false, 0)
    ensures Control(c.memory, 50, 100, 0, c.memory, 50, false, 0).Read(c.memory, c.memory - 50)
         == Control(c.memory, c.memory, 100, 0, c.memory, c.memory, false, 0)
  {
    hide Control.AfterRead;
    c.SeekEmpty(100);
    Control(c.memory, 100, 100, 100, 0, 0, false, 0).ReadOnce(c.memory, 1);
    Control(c.memory, 50, 100, 0, c.memory, 50, false, 0).ReadHeld(c.memory, c.memory - 50);
  }

  /** The cache is then at the end of a clean buffer, and the lower stream at offset 100. */
  lemma AtEnd(f: Bytes, memory: nat)
    requires memory >= ALIGNMENT && |f| == memory
    ensures AllSafe(Opened(f, memory), BackAndOn(memory))
    ensures CachedEnd(Opened(f, memory), BackAndOn(memory)) == Cached(f, Control(memory, memory, 100, 0, memory, memory, false, 0))
    ensures PlainEnd(Plain(f, 0), BackAndOn(memory)) == Plain(f, memory)
  {
    hide PlainEnd, CachedEnd, AllSafe, Control.Read, Control.Seek;
    var s, p := Opened(f, memory), Plain(f, 0);
    BackAndOnControl(s.control);
    assert [] + [OpSeek(100)] == [OpSeek(100)];
    CachedMore(s, [], OpSeek(100));
    CachedMore(s, [OpSeek(100)], OpRead(1));
    CachedMore(s, [OpSeek(100)] + [OpRead(1)], OpSeek(50));
    CachedMore(s, [OpSeek(100)] + [OpRead(1)] + [OpSeek(50)], OpRead(memory - 50));
    PlainMore(p, [], OpSeek(100));
    PlainMore(p, [OpSeek(100)], OpRead(1));
    PlainMore(p, [OpSeek(100)] + [OpRead(1)], OpSeek(50));
    PlainMore(p, [OpSeek(100)] + [OpRead(1)] + [OpSeek(50)], OpRead(memory - 50));
  }

  /** From there a write as long as the memory goes to where the buffer had begun. */
  lemma BackFillThenDirectWrite(f: Bytes, memory: nat, d: Bytes, file: Bytes)
    requires memory >= ALIGNMENT && memory % ALIGNMENT == 0 && |f| == |d| == memory
    requires Leaves(CachedEnd(Opened(f, memory), BackAndOn(memory)), d, file)
    ensures file == f[..100] + d && PlainEnd(Plain(f, 0), BackAndOn(memory) + [OpWrite(d)]).file == f + d
  {
    hide Overlay, PlainEnd, CachedEnd, AllSafe, BackAndOn, DirectFile;
    AtEnd(f, memory);
    var s := CachedEnd(Opened(f, memory), BackAndOn(memory));
    PlainMore(Plain(f, 0), BackAndOn(memory), OpWrite(d));
    DivModUnique(memory, memory, 1, 0);
    PlacedAt(f, d);
    var lower, stale :| Holds(s, lower, stale) && file == WrittenOver(s, lower, stale, d);
  }

  lemma PlacedAt(f: Bytes, d: Bytes)
    requires |f| == |d| >= 100
    ensures Overlay(f, |f|, d) == f + d && DirectFile(f, 100, |f|, [], d, 0) == f[..100] + d
  {
    assert d[..|d|] == d && d[|d|..] == [];
    assert Overlay(f, 100, d) == f[..100] + d;
    OverlayNothing(Overlay(f, 100, d), 2 * |f|);
  }
}
