/** The single-buffer read and write cache of containers_io.c over a seekable stream.
    The cache refines a plain random-access file: View() is that file. */
module IoCache {
  import opened Basics
  import opened CacheControl

  /** What reading n bytes at off gives: short only at the end of the file. */
  function ReadAt(f: Bytes, off: nat, n: nat): (r: Bytes)
    ensures |r| == if off >= |f| then 0 else if off + n <= |f| then n else |f| - off
  {
    if off >= |f| then [] else if off + n <= |f| then f[off..off + n] else f[off..]
  }

  /** The file after d is written at off: exactly the written range changes, and a gap past the
      old end reads as zeros. */
  function Overlay(f: Bytes, off: nat, d: Bytes): (g: Bytes)
    ensures |g| == if d == [] || |f| > off + |d| then |f| else off + |d|
    ensures forall i :: 0 <= i < |g| ==> g[i] == OverlayByte(f, off, d, i)
  {
    if d == [] then f
    else seq(if |f| > off + |d| then |f| else off + |d|, i requires 0 <= i => OverlayByte(f, off, d, i))
  }

  function OverlayByte(f: Bytes, off: nat, d: Bytes, i: nat): byte {
    if off <= i < off + |d| then d[i - off] else if i < |f| then f[i] else 0
  }

  /** What was written is what is read back. */
  lemma ReadBack(f: Bytes, off: nat, d: Bytes)
    ensures ReadAt(Overlay(f, off, d), off, |d|) == d
  {
  }

  /** The file before the written bytes stays, they follow, and then the file behind them; only a
      write past the end leaves zeros in between. */
  lemma OverlayParts(f: Bytes, off: nat, d: Bytes)
    requires d != []
    ensures var g, end := Overlay(f, off, d), off + |d|;
            && end <= |g| && g[off..end] == d && g[end..] == (if end <= |f| then f[end..] else [])
            && (if off <= |f| then g[..off] == f[..off] else g[..|f|] == f && forall i :: |f| <= i < off ==> g[i] == 0)
  {
  }

  /** Read bytes are those of the file, in order. */
  lemma ReadAtBytes(f: Bytes, off: nat, n: nat)
    ensures forall i :: 0 <= i < |ReadAt(f, off, n)| ==> off + i < |f| && ReadAt(f, off, n)[i] == f[off + i]
  {
    var r := ReadAt(f, off, n);
    forall i | 0 <= i < |r| ensures off + i < |f| && r[i] == f[off + i] {
      assert r == f[off..off + |r|];
    }
  }

  /** Writing a then b right behind it is writing a + b. */
  lemma OverlayJoins(f: Bytes, off: nat, a: Bytes, b: Bytes)
    ensures Overlay(Overlay(f, off, a), off + |a|, b) == Overlay(f, off, a + b)
  {
    hide Overlay;
    var x, y := Overlay(Overlay(f, off, a), off + |a|, b), Overlay(f, off, a + b);
    assert |x| == |y|;
    assert forall i :: 0 <= i < |x| ==> x[i] == y[i];
  }

  /** A buffer b with d put in at p: the cache's memcpy. */
  function Splice(b: Bytes, p: nat, d: Bytes): Bytes
    requires p <= |b|
  {
    b[..p] + d + if p + |d| <= |b| then b[p + |d|..] else []
  }

  /** Changing the dirty buffer changes the file it stands for in the same way. */
  lemma OverlaySplice(f: Bytes, off: nat, b: Bytes, p: nat, d: Bytes)
    requires p <= |b|
    ensures Overlay(f, off, Splice(b, p, d)) == Overlay(Overlay(f, off, b), off + p, d)
  {
    SpliceBytes(b, p, d);
  }

  lemma SpliceBytes(b: Bytes, p: nat, d: Bytes)
    requires p <= |b|
    ensures |Splice(b, p, d)| == if p + |d| > |b| then p + |d| else |b|
    ensures forall i :: 0 <= i < |Splice(b, p, d)| ==> Splice(b, p, d)[i] == (if p <= i < p + |d| then d[i - p] else b[i])
  {
  }

  lemma SpliceWindow(m: Bytes, at: nat, d: Bytes)
    requires at + |d| <= |m|
    ensures |Splice(m, at, d)| == |m| && Window(Splice(m, at, d), at, |d|) == d
  {
  }

  lemma ReadAtJoins(f: Bytes, off: nat, n: nat, m: nat)
    requires off + n <= |f|
    ensures ReadAt(f, off, n) + ReadAt(f, off + n, m) == ReadAt(f, off, n + m)
  {
  }

  /** The n bytes of memory from lo on. */
  function Window(m: Bytes, lo: nat, n: nat): (w: Bytes)
    requires lo + n <= |m|
    ensures |w| == n
  {
    m[lo..lo + n]
  }

  /** A clean buffer is a copy of the file. */
  ghost predicate Copied(f: Bytes, off: nat, b: Bytes) {
    b == [] || (off + |b| <= |f| && b == f[off..off + |b|])
  }

  /** A read inside the written range gives the written bytes. */
  lemma OverlaySlice(f: Bytes, off: nat, d: Bytes, p: nat, n: nat)
    requires p + n <= |d|
    ensures ReadAt(Overlay(f, off, d), off + p, n) == d[p..p + n]
  {
  }

  /** The file a buffer b for offset off stands for. */
  function Seen(f: Bytes, off: nat, b: Bytes, dirty: bool): Bytes {
    if dirty then Overlay(f, off, b) else f
  }

  /** Either way, the buffer's bytes are those of the file it stands for. */
  lemma SeenSlice(f: Bytes, off: nat, b: Bytes, dirty: bool, p: nat, n: nat)
    requires p + n <= |b| && (!dirty ==> Copied(f, off, b))
    ensures ReadAt(Seen(f, off, b, dirty), off + p, n) == b[p..p + n]
  {
    if dirty { OverlaySlice(f, off, b, p, n); } else { CopiedSlice(f, off, b, p, n); }
  }

  lemma ReadAtCopied(f: Bytes, off: nat, n: nat)
    ensures Copied(f, off, ReadAt(f, off, n))
  {
  }

  lemma CopiedSlice(f: Bytes, off: nat, b: Bytes, p: nat, n: nat)
    requires Copied(f, off, b) && p + n <= |b|
    ensures ReadAt(f, off + p, n) == b[p..p + n]
  {
    if n > 0 { SliceOfSlice(f, off, off + |b|, p, n); }
  }

  /** The stream underneath. Reads are short only at its end, writes are complete, and a
      seek fails exactly on a negative offset. */
  class Stream {
    var data: Bytes
    var pos: nat

    constructor (data: Bytes)
      ensures this.data == data && pos == 0
    {
      this.data, pos := data, 0;
    }

    method PfRead(n: nat) returns (d: Bytes)
      modifies this
      ensures data == old(data)
      ensures d == ReadAt(data, old(pos), n) && pos == old(pos) + |d|
    {
      d := ReadAt(data, pos, n);
      pos := pos + |d|;
    }

    method PfWrite(d: Bytes)
      modifies this
      ensures data == Overlay(old(data), old(pos), d) && pos == old(pos) + |d|
    {
      data := Overlay(data, pos, d);
      pos := pos + |d|;
    }

    method PfSeek(offset: int) returns (ok: bool)
      modifies this
      ensures ok == (offset >= 0) && data == old(data)
      ensures pos == if ok then offset else old(pos)
    {
      ok := offset >= 0;
      if ok { pos := offset; }
    }
  }

  class CachedIo {
    const lower: Stream
    const mem: array<byte>
    var offset: int        // logical offset of the stream
    var actual: int        // actual_offset: where the lower stream is believed to be
    var cOffset: int       // file offset of the start of the buffer
    var size: nat          // bytes in the buffer
    var position: nat      // next byte in the buffer
    var dirty: bool
    var shift: nat         // start of the buffer within mem

    function Capacity(): int
      reads this
    {
      mem.Length - shift
    }

    /** While a write is in progress position may run ahead of size. */
    function Filled(): nat
      reads this
    {
      if position > size then position else size
    }

    ghost predicate Shape()
      reads this, lower, mem
    {
      && mem.Length >= ALIGNMENT && shift < ALIGNMENT
      && offset >= 0 && cOffset >= 0 && position <= Capacity() && size <= Capacity()
      && actual == lower.pos
    }

    ghost function Buffer(): Bytes
      requires Shape()
      reads this, lower, mem
    {
      Window(mem[..], shift, Filled())
    }

    /** Everything but the bytes. */
    function State(): Control
      reads this
    {
      Control(mem.Length, offset, actual, cOffset, size, position, dirty, shift)
    }

    /** A clean buffer is a copy of the file; a dirty one is never empty. */
    ghost predicate Sound()
      reads this, lower, mem
    {
      && Shape()
      && (dirty ==> Filled() > 0)
      && (!dirty ==> position <= size)
      && (!dirty ==> Copied(lower.data, cOffset, Buffer()))
      && (!dirty && size > 0 ==> shift <= cOffset)
    }

    ghost predicate Valid()
      reads this, lower, mem
    {
      Sound() && position <= size
    }

    /** The logical offset and the position in the buffer agree. */
    ghost predicate Aligned()
      reads this
    {
      cOffset + position == offset
    }

    /** The file the cache stands for. */
    ghost function View(): Bytes
      requires Shape()
      reads this, lower, mem
    {
      Seen(lower.data, cOffset, Buffer(), dirty)
    }

    constructor (lower: Stream, memSize: nat)
      requires memSize >= ALIGNMENT && lower.pos == 0
      ensures Valid() && Aligned() && this.lower == lower && fresh(mem) && offset == 0
      ensures View() == lower.data && State() == Control(memSize, 0, 0, 0, 0, 0, false, 0)
    {
      this.lower := lower;
      mem := new byte[memSize](_ => 0);
      offset, actual, cOffset, size, position, dirty, shift := 0, 0, 0, 0, 0, false, 0;
    }

    /** Write the buffer to the lower stream. */
    method WriteBack()
      requires Shape()
      modifies `actual, lower
      ensures Shape() && lower.data == Overlay(old(lower.data), cOffset, Window(mem[..], shift, size)) && actual == cOffset + size
    {
      hide Overlay, Window;
      if actual != cOffset {
        var ok := lower.PfSeek(cOffset);
        if !ok { assert false; }
      }
      lower.PfWrite(Window(mem[..], shift, size));
      actual := cOffset + size;
    }

    /** vc_container_io_cache_flush. The buffer is emptied and moved past what it held;
        the result is non-zero when dirty bytes lay beyond the position. */
    method CacheFlush() returns (ret: int)
      requires Sound()
      modifies this, lower
      ensures Valid() && !dirty && size == 0 && position == 0 && offset == old(offset)
      ensures lower.data == old(View()) && View() == old(View())
      ensures cOffset == old(cOffset) + old(Filled()) && shift == cOffset % 1024
      ensures State() == old(State()).Flushed()
      ensures ret == 0 <==> !old(dirty) || old(position) == old(Filled())
    {
      hide Overlay, ReadAt, Splice;
      ret := 0;
      if position > size { size := position; }
      if dirty && size > 0 {
        WriteBack();
        ret := position - size;
      }
      dirty := false;
      cOffset := cOffset + size;
      shift := cOffset % ALIGNMENT;
      position := 0;
      size := 0;
    }

    /** Copy d into mem from index at on. */
    method Copy(at: nat, d: Bytes)
      requires at + |d| <= mem.Length
      modifies mem
      ensures mem[..] == Splice(old(mem[..]), at, d)
    {
      forall i | 0 <= i < |d| {
        mem[at + i] := d[i];
      }
    }

    /** Make d the contents of the buffer. */
    method Load(d: Bytes)
      requires mem.Length >= shift && |d| <= Capacity()
      modifies mem, `size, `position
      ensures size == |d| && position == 0 && Window(mem[..], shift, |d|) == d
    {
      SpliceWindow(mem[..], shift, d);
      Copy(shift, d);
      size := |d|;
      position := 0;
    }

    /** Called on an exhausted buffer: read the next bufferful of the file. */
    method CacheRefill() returns (n: nat)
      requires Valid() && position == size
      modifies this, lower, mem
      ensures Valid() && !dirty && offset == old(offset) && View() == old(View())
      ensures State() == old(State()).Refilled(|View()|) && n == size
    {
      hide Overlay, ReadAt, Copied, Window, Splice;
      var ret := CacheFlush();
      if actual != cOffset {
        var ok := lower.PfSeek(cOffset);
        if !ok { assert false; }
      }
      var d := lower.PfRead(Capacity());
      ReadAtCopied(lower.data, cOffset, Capacity());
      Load(d);
      n := |d|;
      actual := cOffset + n;
    }

    /** Called on an exhausted buffer: read n bytes past the cache. */
    method CacheRefillBypass(n: nat) returns (d: Bytes)
      requires Valid() && position == size
      modifies this, lower
      ensures Valid() && !dirty && size == 0 && offset == old(offset) && View() == old(View())
      ensures d == ReadAt(View(), old(cOffset) + old(size), n)
      ensures cOffset == old(cOffset) + old(size) + |d| && State() == old(State()).Bypassed(|View()|, n)
    {
      hide Overlay, Window, Splice;
      var ret := CacheFlush();
      if actual != cOffset {
        var ok := lower.PfSeek(cOffset);
        if !ok { assert false; }
      }
      d := lower.PfRead(n);
      size := 0;
      position := 0;
      cOffset := cOffset + |d|;
      actual := cOffset;
    }

    /** The bytes held from the position on are those of the file. */
    lemma BufferedBytes(n: nat)
      requires Valid() && position + n <= size
      ensures Window(mem[..], shift + position, n) == ReadAt(View(), cOffset + position, n)
    {
      hide Overlay, Seen, Copied, ReadAt;
      SliceOfSlice(mem[..], shift, shift + size, position, n);
      SeenSlice(lower.data, cOffset, Buffer(), dirty, position, n);
    }

    /** Copy n bytes out of the buffer. */
    method TakeBuffered(n: nat) returns (d: Bytes)
      requires Valid() && position + n <= size
      modifies `position
      ensures Valid() && View() == old(View()) && position == old(position) + n
      ensures |d| == n && d == ReadAt(View(), cOffset + old(position), n)
    {
      BufferedBytes(n);
      d := Window(mem[..], shift + position, n);
      position := position + n;
    }

    /** One round of the read loop: past the cache when it is empty and in the way, else out of
        the buffer, refilled if exhausted. Fewer bytes than wanted means the file has ended. */
    method ReadChunk(left: nat) returns (d: Bytes, want: nat)
      requires Valid() && left > 0
      modifies this, lower, mem
      ensures Valid() && offset == old(offset) && View() == old(View())
      ensures 0 < want <= left && d == ReadAt(View(), old(cOffset + position), want)
      ensures cOffset + position == old(cOffset + position) + |d|
      ensures (State(), want) == old(State()).ReadRound(|View()|, left)
    {
      hide Overlay, ReadAt, Copied, Window, Seen;
      var bytes := size - position;
      if bytes == 0 && left > mem.Length {
        want := mem.Length;
        d := CacheRefillBypass(want);
        return;
      }
      if bytes == 0 {
        bytes := CacheRefill();
      }
      if bytes == 0 {
        return [], 1;
      }
      want := if bytes > left then left else bytes;
      d := TakeBuffered(want);
    }

    /** vc_container_io_cache_read: the bytes of the file, short only at its end. */
    method CacheRead(n: nat) returns (out: Bytes)
      requires Valid()
      modifies this, lower, mem
      ensures Valid() && offset == old(offset) && View() == old(View())
      ensures out == ReadAt(View(), old(cOffset + position), n)
      ensures cOffset + position == old(cOffset + position) + |out|
      ensures State() == old(State()).AfterRead(|View()|, n)
    {
      hide Overlay, ReadAt, Copied, Window, Seen, Control.ReadRound;
      ghost var v, start := View(), cOffset + position;
      var left := n;
      out := [];
      while left > 0
        invariant Valid() && offset == old(offset) && View() == v
        invariant old(State()).AfterRead(|v|, n) == State().AfterRead(|v|, left)
        invariant |out| + left == n && cOffset + position == start + |out|
        invariant out == ReadAt(v, start, |out|) && (out != [] ==> start + |out| <= |v|)
      {
        var d, want := ReadChunk(left);
        ReadAtMore(v, start, out, d, want, left);
        out := out + d;
        if |d| < want {
          return;
        }
        left := left - want;
      }
    }

    // ---------- writing ----------

    /** Where the next write will land. */
    function WriteStart(): int
      reads this
    {
      if !dirty && size > 0 then cOffset + size else cOffset + position
    }

    /** Copy d into the buffer at the position. */
    method StoreBuffered(d: Bytes)
      requires Sound() && d != [] && position + |d| <= Capacity() && (!dirty ==> size == 0)
      modifies mem, `position, `dirty
      ensures Sound() && dirty && position == old(position) + |d|
      ensures View() == Overlay(old(View()), cOffset + old(position), d)
    {
      hide Overlay, Window, ReadAt, Copied;
      ghost var b, f, off, p := Buffer(), lower.data, cOffset, position;
      ghost var m := mem[..];
      if dirty { OverlaySplice(f, off, b, p, d); } else { assert Splice(b, p, d) == d; }
      SpliceInside(m, shift, |b|, p, d);
      Copy(shift + position, d);
      position := position + |d|;
      dirty := true;
      assert Buffer() == Splice(b, p, d);
    }

    /** The dirty bytes in the buffer. */
    ghost function Stale(): Bytes
      requires Shape()
      reads this, lower, mem
    {
      if dirty then Buffer() else []
    }

    /** Write d past the buffer. */
    method WriteStraight(d: Bytes)
      requires Sound() && (!dirty ==> size == 0) && shift == 0 && position == 0 && d != []
      modifies this, lower
      ensures Sound() && Snap() == old(Snap()).Direct(d)
      ensures !dirty && old(actual == cOffset) ==> View() == Overlay(old(View()), old(cOffset), d)
    {
      hide ReadAt, Splice, Overlay;
      lower.PfWrite(d);
      cOffset := cOffset + |d|;
      actual := actual + |d|;
    }

    /** One round of the write loop on the data left: flush a full buffer, or write directly past
        an empty one, or copy into it. n bytes of d are taken. */
    method WriteRound(d: Bytes) returns (n: nat)
      requires Sound() && d != [] && (!dirty ==> size == 0)
      modifies this, lower, mem
      ensures Sound() && (!dirty ==> size == 0) && n <= |d|
      ensures (State(), n) == old(State()).WriteRound(|d|)
      ensures cOffset + position == old(cOffset + position) + n
      ensures old(State()).GoesDirect(|d|) ==> Snap() == old(Snap()).Direct(d[..mem.Length])
      ensures old(State()).Smooth(|d|) ==> State().Smooth(|d| - n)
      ensures old(State()).Smooth(|d|) ==> View() == Overlay(old(View()), old(cOffset + position), d[..n])
    {
      hide ReadAt, Splice, Overlay, Control.Writing, Seen, Window, Copied;
      var bytes := Capacity() - position;
      if bytes == 0 {
        var ret := CacheFlush();
        return 0;
      }
      n := if bytes > |d| then |d| else bytes;
      if n == mem.Length {
        WriteStraight(d[..n]);
      } else {
        StoreBuffered(d[..n]);
      }
    }

    /** The file after a write: the bytes go where the write starts, but what goes straight to the
        lower stream goes where that stands, and dirty bytes in the way are moved behind it. */
    ghost function Written(data: Bytes): Bytes
      requires Valid()
      reads this, lower, mem
    {
      var c := State().Settled();
      if c.GoesDirect(|data|) then
        DirectFile(lower.data, c.actual, c.cOffset, Stale(), data, Rest(|data|, mem.Length))
      else Overlay(View(), WriteStart(), data)
    }

    /** Control state, memory, lower stream. */
    ghost function Snap(): Snapshot
      reads this, lower, mem
    {
      Snapshot(State(), mem[..], lower.data)
    }

    lemma SnapMeans(data: Bytes)
      requires Sound() && (!dirty ==> size == 0)
      ensures Snap().Shape() && Snap().View() == View()
      ensures Snap().AllDirect(data) == DirectFile(lower.data, actual, cOffset, Stale(), data, Rest(|data|, mem.Length))
    {
      hide Overlay, Window, Copied, Seen, DirectFile;
    }

    /** In the write loop. */
    ghost predicate Ready()
      reads this, lower, mem
    {
      Sound() && (!dirty ==> size == 0)
    }

    lemma ReadyFacts()
      requires Ready()
      ensures Shape() && State().Writing() && Snap().Shape()
    {
    }

    /** One round of the write loop, in a write that may have begun by going straight at s0. */
    method LoopRound(ghost s0: Snapshot, ghost direct: bool, data: Bytes, w: nat) returns (n: nat)
      requires Ready() && w < |data|
      requires direct ==> s0.Shape() && s0.control.GoesDirect(|data|) && Straight(s0, data, w, Snap())
      modifies this, lower, mem
      ensures Ready() && Shape() && Snap().Shape() && State().Writing() && n <= |data| - w
      ensures (State(), n) == old(State()).WriteRound(|data| - w)
      ensures cOffset + position == old(cOffset + position) + n
      ensures direct ==> Straight(s0, data, w + n, Snap())
      ensures old(State()).Smooth(|data| - w) ==> State().Smooth(|data| - w - n)
      ensures old(State()).Smooth(|data| - w) ==> View() == Overlay(old(View()), old(cOffset + position), data[w..][..n])
    {
      hide Overlay, Seen, Window, Copied, Straight, Control.WriteRound, Control.Smooth, Control.GoesDirect;
      SnapMeans(data);
      ghost var s := Snap();
      n := WriteRound(data[w..]);
      SnapMeans(data);
      if direct { StraightStep(s0, data, w, s, n, Snap()); }
    }

    /** The write loop, on a buffer that is dirty or empty. */
    method WriteAll(data: Bytes)
      requires Ready()
      modifies this, lower, mem
      ensures Sound() && State() == old(State()).WriteLoop(|data|)
      ensures cOffset + position == old(cOffset + position) + |data|
      ensures old(State()).Smooth(|data|) ==> View() == Overlay(old(View()), old(cOffset + position), data)
      ensures old(State()).GoesDirect(|data|) ==>
                View() == DirectFile(old(lower.data), old(actual), old(cOffset), old(Stale()), data, Rest(|data|, mem.Length))
    {
      hide Overlay, ReadAt, Window, Copied, Seen, DirectFile, Straight, Control.WriteLoop, Control.WriteRound, Control.Smooth;
      hide Control.GoesDirect, Control.Writing, Snapshot.View, Snapshot.AllDirect, Snapshot.Stale, Snapshot.Buffer, Splice;
      hide View, Buffer, Rest, Copied;
      ReadyFacts();
      SnapMeans(data);
      ghost var v, start, c, s0 := View(), cOffset + position, State(), Snap();
      ghost var smooth, direct := c.Smooth(|data|), c.GoesDirect(|data|);
      var written := 0;
      assert data[..0] == [];
      OverlayNothing(v, start);
      if direct { StraightStart(s0, data); }
      while written < |data|
        invariant written <= |data|
        invariant Ready() && Shape() && Snap().Shape() && State().Writing() && cOffset + position == start + written
        invariant c.WriteLoop(|data|) == State().WriteLoop(|data| - written)
        invariant smooth ==> State().Smooth(|data| - written) && View() == Overlay(v, start, data[..written])
        invariant direct ==> Straight(s0, data, written, Snap())
        decreases |data| - written, position
      {
        State().WriteLoopStep(|data| - written);
        var n := LoopRound(s0, direct, data, written);
        OverlayStep(v, start, data, written, n);
        written := written + n;
      }
      assert data[..written] == data;
      State().WriteLoopStep(0);
      if direct { StraightEnd(s0, data, Snap()); SnapMeans(data); }
    }

    /** Give up a clean buffer. */
    method Settle()
      requires Valid()
      modifies this, lower
      ensures Valid() && (!dirty ==> size == 0) && State() == old(State()).Settled()
      ensures View() == old(View()) && lower.data == old(lower.data) && Stale() == old(Stale())
    {
      hide Overlay, ReadAt, Copied;
      if size > 0 && !dirty {
        var ret := CacheFlush();
      }
    }

    /** vc_container_io_cache_write: the bytes replace those of the file from WriteStart on. */
    method CacheWrite(data: Bytes) returns (written: nat)
      requires Valid()
      modifies this, lower, mem
      ensures Valid() && written == |data| && State() == old(State()).AfterWrite(|data|)
      ensures cOffset + position == old(WriteStart()) + |data|
      ensures View() == old(Written(data))
    {
      hide Overlay, ReadAt, Window, Copied, DirectFile, Seen, Control.WriteLoop;
      Settle();
      WriteAll(data);
      written := |data|;
      if position > size { size := position; }
    }

    // ---------- seeking ----------

    /** Back up to the start of mem and read in the bytes before the buffer. */
    method BackFill()
      requires Valid() && !dirty && size > 0
      modifies this, lower, mem
      ensures Valid() && !dirty && View() == old(View()) && offset == old(offset)
      ensures cOffset == old(cOffset) - old(shift) && size == old(size) + old(shift) && shift == 0
      ensures actual == old(cOffset) && position == old(position)
    {
      hide Overlay, ReadAt, Splice, Copied, Window;
      var ok := lower.PfSeek(cOffset - shift);
      if !ok { assert false; }
      var d := lower.PfRead(shift);
      CopiedBack(lower.data, mem[..], cOffset, shift, size, d);
      cOffset := cOffset - shift;
      Copy(0, d);
      size := size + shift;
      shift := 0;
      actual := cOffset + |d|;
    }

    /** Move the lower stream and, if that succeeds, the emptied buffer. */
    method MoveTo(target: int) returns (ok: bool)
      requires Valid() && !dirty
      modifies this, lower
      ensures Valid() && View() == old(View())
      ensures ok <==> target >= 0
      ensures State() == if ok then old(State()).Flushed().(cOffset := target, actual := target) else old(State())
    {
      hide Overlay, ReadAt, Splice;
      ok := lower.PfSeek(target);
      actual := lower.pos;  // not looked at by the flush of a clean buffer below
      if !ok {
        return;
      }
      var ret := CacheFlush();
      cOffset := target;
      actual := target;
    }

    /** vc_container_io_cache_seek: inside the buffer, just before it, or elsewhere. It fails
        exactly on a negative target, and only a dirty buffer not read to its end then
        loses its position. */
    method CacheSeek(target: int) returns (ok: bool)
      requires Valid()
      modifies this, lower, mem
      ensures Valid() && View() == old(View()) && offset == old(offset)
      ensures ok <==> target >= 0
      ensures ok ==> cOffset + position == target
      ensures !ok ==> (cOffset + position == old(cOffset + position) <==> !old(dirty) || old(position) == old(size))
      ensures State() == old(State()).AfterSeek(target)
    {
      hide Overlay, ReadAt, Window, Splice, Copied, Seen;
      if cOffset <= target < cOffset + size {
        position := target - cOffset;
        return true;
      }
      if !dirty && shift > 0 && size > 0 && cOffset - shift <= target < cOffset {
        BackFill();
        position := target - cOffset;
        return true;
      }
      if dirty {
        var ret := CacheFlush();
      }
      ok := MoveTo(target);
    }

    // ---------- the stream's own calls ----------

    /** vc_container_io_read */
    method Read(n: nat) returns (out: Bytes)
      requires Valid()
      modifies this, lower, mem
      ensures Valid() && View() == old(View()) && (Aligned() <==> old(Aligned()))
      ensures out == ReadAt(View(), old(cOffset + position), n) && offset == old(offset) + |out|
      ensures old(Aligned()) ==> out == ReadAt(View(), old(offset), n)
      ensures State() == old(State()).Read(|View()|, n)
    {
      hide Overlay, ReadAt, Seen, Window, Copied, Control.AfterRead;
      out := CacheRead(n);
      offset := offset + |out|;
    }

    /** vc_container_io_seek */
    method Seek(target: int) returns (ok: bool)
      requires Valid()
      modifies this, lower, mem
      ensures Valid() && View() == old(View()) && (ok <==> target >= 0)
      ensures offset == if ok then target else old(offset)
      ensures ok ==> Aligned()
      ensures !ok && old(Aligned()) ==> (Aligned() <==> !old(dirty) || old(position) == old(size))
      ensures State() == old(State()).Seek(target)
    {
      ok := CacheSeek(target);
      if ok { offset := target; }
    }

    /** vc_container_io_peek */
    method Peek(n: nat) returns (out: Bytes)
      requires Valid()
      modifies this, lower, mem
      ensures Valid() && Aligned() && View() == old(View()) && offset == old(offset)
      ensures out == ReadAt(View(), old(cOffset + position), n)
      ensures old(Aligned()) ==> out == ReadAt(View(), offset, n)
      ensures State() == old(State()).Next(|View()|, OpPeek(n))
    {
      var saved := offset;
      out := Read(n);
      var ok := Seek(saved);
    }

    /** vc_container_io_skip: fewer than eight bytes are read, more are sought over. */
    method Skip(n: nat) returns (skipped: nat)
      requires Valid()
      modifies this, lower, mem
      ensures Valid() && View() == old(View()) && offset == old(offset) + skipped
      ensures Aligned() <==> n >= 8 || old(Aligned())
      ensures skipped == if n < 8 then |ReadAt(View(), old(cOffset + position), n)| else n
      ensures State() == old(State()).Skip(|View()|, n)
    {
      if n == 0 { return 0; }
      if n < 8 {
        var out := Read(n);
        return |out|;
      }
      skipped := n;
      SkipFar(n);
    }

    method SkipFar(n: nat)
      requires Valid() && n >= 8
      modifies this, lower, mem
      ensures Valid() && View() == old(View()) && offset == old(offset) + n && Aligned()
      ensures State() == old(State()).Skip(|View()|, n)
    {
      hide Overlay, ReadAt, Seen, Window, Copied;
      var ok := CacheSeek(offset + n);
      offset := offset + n;
    }

    /** The write starts on a clean buffer that still holds unread bytes. */
    predicate StartsInsideReadAhead()
      reads this
    {
      !dirty && position < size
    }

    lemma WrittenPlainly(data: Bytes)
      requires Valid() && State().Settled().DirectSafe(|data|)
      ensures Written(data) == Overlay(View(), WriteStart(), data)
    {
      hide Overlay, Window, Copied, DirectFile;
      var c := State().Settled();
      if c.GoesDirect(|data|) {
        OverlayNothing(lower.data, c.cOffset);
        DirectRight(lower.data, c.cOffset, Stale(), data, Rest(|data|, mem.Length));
      }
    }

    /** vc_container_io_write. A write from an aligned stream lands where that stands exactly when it
        does not start inside read-ahead: flushing a clean buffer moves past all of it. */
    method Write(data: Bytes) returns (written: nat)
      requires Valid()
      modifies this, lower, mem
      ensures Valid() && written == |data| && offset == old(offset) + |data|
      ensures Aligned() <==> old(WriteStart()) == old(offset)
      ensures old(Aligned()) ==> (Aligned() <==> !old(StartsInsideReadAhead()))
      ensures View() == old(Written(data)) && State() == old(State()).Next(old(|View()|), OpWrite(data))
      ensures old(State()).Settled().DirectSafe(|data|) ==> View() == Overlay(old(View()), old(WriteStart()), data)
    {
      hide Overlay, Seen, Window, Copied, Control.AfterWrite, Written, Control.DirectSafe;
      if State().Settled().DirectSafe(|data|) { WrittenPlainly(data); }
      written := CacheWrite(data);
      offset := offset + written;
    }

    /** VC_CONTAINER_CONTROL_IO_FLUSH: the lower stream holds the file. */
    method Flush()
      requires Valid()
      modifies this, lower
      ensures Valid() && lower.data == old(View()) && View() == old(View()) && State() == old(State()).Flushed()
      ensures old(Aligned()) ==> (Aligned() <==> old(position) == old(size))
    {
      var ret := CacheFlush();
    }

    /** Any call, aligned or not. */
    method Do(op: Op) returns (r: Result)
      requires Valid()
      modifies this, lower, mem
      ensures Valid() && State() == old(State()).Next(old(|View()|), op)
      ensures r == CachedResult(old(Now()), op) && (old(State()).Safe(op) ==> Now() == CachedNext(old(Now()), op))
      ensures old(Aligned() && State().Regular(op)) ==>
                Aligned() && r == PlainResult(old(PlainState()), op) && PlainState() == PlainNext(old(PlainState()), op)
    {
      hide Overlay, ReadAt, Seen, Window, Copied, Written, DirectFile, Control.Read, Control.Skip, Control.AfterWrite;
      match op
      case OpRead(n) => var d := Read(n); r := Data(d);
      case OpPeek(n) => var d := Peek(n); r := Data(d);
      case OpSkip(n) => var k := Skip(n); r := Count(k);
      case OpSeek(target) => var ok := Seek(target); r := Done(ok);
      case OpWrite(d) => var k := Write(d); r := Count(k);
      case OpFlush => Flush(); r := Done(true);
    }

    /** The file the cache stands for and where the cache stands. */
    ghost function Now(): Cached
      requires Valid()
      reads this, lower, mem
    {
      Cached(View(), State())
    }

    /** Any run, regular or not: as long as no write goes past the cache unsafely, the calls alone
        decide every result and the file. */
    method RunAny(ops: seq<Op>) returns (rs: seq<Result>)
      requires Valid()
      modifies this, lower, mem
      ensures Valid()
      ensures AllSafe(old(Now()), ops) ==> rs == CachedResults(old(Now()), ops) && Now() == CachedEnd(old(Now()), ops)
    {
      hide CachedNext, CachedResult, Control.Safe;
      rs := [];
      ghost var s0 := Now();
      assert ops[..0] == [] && ops[..|ops|] == ops;
      for i := 0 to |ops|
        invariant Valid()
        invariant AllSafe(s0, ops[..i]) ==> rs == CachedResults(s0, ops[..i]) && Now() == CachedEnd(s0, ops[..i])
      {
        assert ops[..i + 1][..i] == ops[..i];
        var r := Do(ops[i]);
        rs := rs + [r];
      }
    }

    ghost function PlainState(): Plain
      requires Valid() && Aligned()
      reads this, lower, mem
    {
      Plain(View(), offset)
    }

    /** Refinement over whole runs: the calls up to the first irregular one behave as on a plain
        random-access file, and whether there is one is known from the calls alone. */
    method Run(ops: seq<Op>) returns (rs: seq<Result>, regular: bool)
      requires Valid() && Aligned()
      modifies this, lower, mem
      ensures Valid() && (regular <==> old(State()).RunRegular(old(|View()|), ops))
      ensures regular ==> Aligned() && rs == PlainResults(old(PlainState()), ops)
                          && PlainState() == PlainEnd(old(PlainState()), ops)
    {
      hide Control.Regular, Control.Next, Control.NextLength, Control.RunRegular, PlainNext, PlainResult;
      rs, regular := [], true;
      ghost var s0, whole := PlainState(), State().RunRegular(|View()|, ops);
      assert ops[..0] == [];
      for i := 0 to |ops|
        invariant Valid() && Aligned() && regular
        invariant whole <==> State().RunRegular(|View()|, ops[i..])
        invariant rs == PlainResults(s0, ops[..i]) && PlainState() == PlainEnd(s0, ops[..i])
      {
        State().RunRegularStep(|View()|, ops[i..]);
        NextLengthIsFile(State(), PlainState(), ops[i]);
        if !State().Regular(ops[i]) {
          regular := false;
          return;
        }
        assert ops[..i + 1][..i] == ops[..i];
        assert ops[i..][1..] == ops[i + 1..];
        var r := Do(ops[i]);
        rs := rs + [r];
      }
      assert ops[..|ops|] == ops && ops[|ops|..] == [];
      State().RunRegularStep(|View()|, []);
    }

    /** Write-back: after a regular run and a flush, the lower stream itself holds the fold of the
        run's writes. Reading from a clean stream and writing behind an empty or dirty buffer are
        regular whatever the bytes. */
    method RunAndFlush(ops: seq<Op>) returns (rs: seq<Result>, regular: bool)
      requires Valid() && Aligned()
      modifies this, lower, mem
      ensures Valid() && (regular <==> old(State()).RunRegular(old(|View()|), ops))
      ensures !old(dirty) && (forall op :: op in ops ==> ReadOnly(op)) ==> regular
      ensures old(dirty || size == 0) && (forall op :: op in ops ==> WriteBehind(op, mem.Length)) ==> regular
      ensures regular ==> rs == PlainResults(old(PlainState()), ops)
                          && lower.data == PlainEnd(old(PlainState()), ops).file
    {
      if !dirty && forall op :: op in ops ==> ReadOnly(op) { ReadOnlyRegular(State(), |View()|, ops); }
      if (dirty || size == 0) && forall op :: op in ops ==> WriteBehind(op, mem.Length) { WriteBehindRegular(State(), |View()|, ops); }
      rs, regular := Run(ops);
      if regular { Flush(); }
    }
  }

  datatype Result = Data(data: Bytes) | Count(n: nat) | Done(ok: bool)
  datatype Plain = Plain(file: Bytes, pos: int)

  // ---------- the cached file ----------

  /** The file a cache stands for, and where the cache stands. */
  datatype Cached = Cached(file: Bytes, control: Control)

  function CachedResult(s: Cached, op: Op): Result
    requires s.control.Valid()
  {
    match op
    case OpRead(n) => Data(ReadAt(s.file, s.control.Place(), n))
    case OpPeek(n) => Data(ReadAt(s.file, s.control.Place(), n))
    case OpSkip(n) => Count(if n < 8 then |ReadAt(s.file, s.control.Place(), n)| else n)
    case OpSeek(target) => Done(target >= 0)
    case OpWrite(d) => Count(|d|)
    case OpFlush => Done(true)
  }

  /** Only a write changes the file, and it lands where the cache stands. */
  function CachedNext(s: Cached, op: Op): (t: Cached)
    requires s.control.Valid()
    ensures t.control.Valid()
  {
    Cached(if op.OpWrite? then Overlay(s.file, s.control.WriteStart(), op.data) else s.file, s.control.Next(|s.file|, op))
  }

  function CachedEnd(s: Cached, ops: seq<Op>): (t: Cached)
    requires s.control.Valid()
    ensures t.control.Valid()
  {
    if ops == [] then s else CachedNext(CachedEnd(s, ops[..|ops| - 1]), ops[|ops| - 1])
  }

  function CachedResults(s: Cached, ops: seq<Op>): seq<Result>
    requires s.control.Valid()
  {
    if ops == [] then []
    else CachedResults(s, ops[..|ops| - 1]) + [CachedResult(CachedEnd(s, ops[..|ops| - 1]), ops[|ops| - 1])]
  }

  /** No write of the run goes past the cache unsafely. */
  predicate AllSafe(s: Cached, ops: seq<Op>)
    requires s.control.Valid()
  {
    ops == [] || (AllSafe(s, ops[..|ops| - 1]) && CachedEnd(s, ops[..|ops| - 1]).control.Safe(ops[|ops| - 1]))
  }

  // ---------- the plain file ----------

  function PlainResult(s: Plain, op: Op): Result
    requires s.pos >= 0
  {
    match op
    case OpRead(n) => Data(ReadAt(s.file, s.pos, n))
    case OpPeek(n) => Data(ReadAt(s.file, s.pos, n))
    case OpSkip(n) => Count(if n < 8 then |ReadAt(s.file, s.pos, n)| else n)
    case OpSeek(target) => Done(target >= 0)
    case OpWrite(d) => Count(|d|)
    case OpFlush => Done(true)
  }

  function PlainNext(s: Plain, op: Op): (t: Plain)
    requires s.pos >= 0
    ensures t.pos >= 0
  {
    match op
    case OpRead(n) => s.(pos := s.pos + |ReadAt(s.file, s.pos, n)|)
    case OpPeek(_) => s
    case OpSkip(n) => s.(pos := s.pos + if n < 8 then |ReadAt(s.file, s.pos, n)| else n)
    case OpSeek(target) => if target >= 0 then s.(pos := target) else s
    case OpWrite(d) => Plain(Overlay(s.file, s.pos, d), s.pos + |d|)
    case OpFlush => s
  }

  lemma NextLengthIsFile(c: Control, s: Plain, op: Op)
    requires s.pos == c.offset >= 0
    ensures |PlainNext(s, op).file| == c.NextLength(|s.file|, op)
  {
  }

  function PlainEnd(s: Plain, ops: seq<Op>): (t: Plain)
    requires s.pos >= 0
    ensures t.pos >= 0
  {
    if ops == [] then s else PlainNext(PlainEnd(s, ops[..|ops| - 1]), ops[|ops| - 1])
  }

  function PlainResults(s: Plain, ops: seq<Op>): seq<Result>
    requires s.pos >= 0
  {
    if ops == [] then []
    else PlainResults(s, ops[..|ops| - 1]) + [PlainResult(PlainEnd(s, ops[..|ops| - 1]), ops[|ops| - 1])]
  }

  /** The bytes just before a clean copy, put in front of it, make a longer clean copy. */
  lemma CopiedBack(f: Bytes, m: Bytes, off: nat, shift: nat, size: nat, d: Bytes)
    requires 0 < size && shift <= off && shift + size <= |m| && Copied(f, off, Window(m, shift, size))
    requires d == ReadAt(f, off - shift, shift)
    ensures |d| == shift && |Splice(m, 0, d)| == |m|
    ensures Copied(f, off - shift, Window(Splice(m, 0, d), 0, size + shift))
  {
    var w := Window(Splice(m, 0, d), 0, size + shift);
    assert w == d + Window(m, shift, size);
    assert f[off - shift..off + size] == f[off - shift..off] + f[off..off + size];
  }

  /** What is left of n bytes after all memory-sized pieces. */
  function Rest(n: nat, m: nat): (r: nat)
    requires m > 0
    ensures r <= n && r < m
  {
    ModLe(n, m);
    n % m
  }

  /** The file when all but the last r bytes of d go straight to pos, and the stale bytes a buffer
      at off held stay in it, in front of the rest. */
  function DirectFile(f: Bytes, pos: nat, off: nat, stale: Bytes, d: Bytes, r: nat): Bytes
    requires r <= |d|
  {
    var m := |d| - r;
    Overlay(Overlay(Overlay(f, pos, d[..m]), off + m, stale), off + m, d[m..])
  }

  /** A cache at one moment. */
  datatype Snapshot = Snapshot(control: Control, memory: Bytes, lower: Bytes) {
    predicate Shape() {
      && control.Writing() && control.memory == |memory| && control.actual >= 0
    }

    function Buffer(): Bytes
      requires Shape()
    {
      Window(memory, control.shift, control.Filled())
    }

    function View(): Bytes
      requires Shape()
    {
      Seen(lower, control.cOffset, Buffer(), control.dirty)
    }

    function Stale(): Bytes
      requires Shape()
    {
      if control.dirty then Buffer() else []
    }

    /** After d went straight to the lower stream. */
    function Direct(d: Bytes): Snapshot
      requires control.actual >= 0
    {
      Snapshot(control.(cOffset := control.cOffset + |d|, actual := control.actual + |d|), memory,
               Overlay(lower, control.actual, d))
    }

    function AllDirect(d: Bytes): Bytes
      requires Shape()
    {
      DirectFile(lower, control.actual, control.cOffset, Stale(), d, Rest(|d|, |memory|))
    }
  }

  /** How a write that began by going straight stands: the memory-sized pieces up to here are in
      the lower stream, or the rest is in the buffer as well. */
  predicate Straight(s0: Snapshot, d: Bytes, w: nat, s: Snapshot)
    requires s0.Shape() && s.Shape() && w <= |d|
  {
    var r := |d| % |s0.memory|;
    if w + r <= |d| then (|d| - w) % |s0.memory| == r && s == s0.Direct(d[..w])
    else w == |d| && s.View() == s0.AllDirect(d)
  }

  lemma StraightStart(s: Snapshot, d: Bytes)
    requires s.Shape()
    ensures Straight(s, d, 0, s)
  {
    hide Overlay, Seen, Window, DirectFile;
    assert d[..0] == [];
    OverlayNothing(s.lower, s.control.actual);
    ModLe(|d|, |s.memory|);
  }

  /** One more round: another memory-sized piece, or the rest. */
  lemma StraightStep(s0: Snapshot, d: Bytes, w: nat, s: Snapshot, n: nat, t: Snapshot)
    requires s0.Shape() && s.Shape() && t.Shape() && w < |d| && w + n <= |d| && s0.control.GoesDirect(|d|)
    requires Straight(s0, d, w, s) && (t.control, n) == s.control.WriteRound(|d| - w)
    requires s.control.GoesDirect(|d| - w) ==> t == s.Direct(d[w..][..|s.memory|])
    requires s.control.Smooth(|d| - w) ==> t.View() == Overlay(s.View(), s.control.cOffset + s.control.position, d[w..][..n])
    ensures Straight(s0, d, w + n, t)
  {
    hide Overlay, Seen, Window, DirectFile, Snapshot.View, Snapshot.Stale, Snapshot.Buffer;
    var k, r := |s0.memory|, |d| % |s0.memory|;
    OverlayStep(s0.lower, s0.control.actual, d, w, n);
    if |d| - w >= k {
      ModMinus(|d| - w, k);
      ModLe(|d| - w - k, k);
    } else {
      DivModUnique(|d| - w, k, 0, |d| - w);
      assert d[w..][..n] == d[w..];
      StraightRest(s0, d, w);
    }
  }

  /** Behind what went straight stand the stale bytes. */
  lemma StraightView(s: Snapshot, d: Bytes)
    requires s.Shape() && s.control.shift == 0 && s.control.position == 0 && s.Direct(d).Shape()
    ensures s.Direct(d).View() == Overlay(s.Direct(d).lower, s.control.cOffset + |d|, s.Stale())
  {
    hide Overlay, Window;
    OverlayNothing(s.Direct(d).lower, s.control.cOffset + |d|);
  }

  lemma StraightRest(s0: Snapshot, d: Bytes, w: nat)
    requires s0.Shape() && s0.control.shift == 0 && s0.control.position == 0
    requires w + |d| % |s0.memory| == |d| && s0.Direct(d[..w]).Shape()
    ensures Overlay(s0.Direct(d[..w]).View(), s0.control.cOffset + w, d[w..]) == s0.AllDirect(d)
  {
    hide Overlay, Seen, Window, Snapshot.View, Snapshot.Stale, Snapshot.Buffer;
    StraightView(s0, d[..w]);
  }

  lemma StraightEnd(s0: Snapshot, d: Bytes, t: Snapshot)
    requires s0.Shape() && t.Shape() && s0.control.GoesDirect(|d|) && Straight(s0, d, |d|, t)
    ensures t.View() == s0.AllDirect(d)
  {
    hide Overlay, Seen, Window;
    if |d| % |s0.memory| == 0 {
      assert d[..|d|] == d && d[|d|..] == [];
      StraightView(s0, d);
      OverlayNothing(t.View(), s0.control.cOffset + |d|);
    }
  }

  /** A write that goes straight is right for all contents of the file, the buffer and the write
      exactly when the lower stream is in place and the rest covers the stale bytes. */
  lemma DirectExact(lenF: nat, pos: nat, off: nat, stale: nat, n: nat, r: nat)
    requires r < n && stale <= n - r
    ensures (forall f: Bytes, b: Bytes, d: Bytes | |f| == lenF && |b| == stale && |d| == n ::
               DirectFile(f, pos, off, b, d, r) == Overlay(Overlay(f, off, b), off, d))
            <==> pos == off && stale <= r
  {
    if pos == off && stale <= r {
      forall f: Bytes, b: Bytes, d: Bytes | |f| == lenF && |b| == stale && |d| == n
        ensures DirectFile(f, pos, off, b, d, r) == Overlay(Overlay(f, off, b), off, d)
      {
        DirectRight(f, off, b, d, r);
      }
    } else {
      var f, b, d := seq(lenF, _ => 0 as byte), seq(stale, _ => 1 as byte), seq(n, _ => 2 as byte);
      DirectWrong(f, pos, off, b, d, r);
    }
  }

  lemma DirectRight(f: Bytes, off: nat, b: Bytes, d: Bytes, r: nat)
    requires r < |d| && |b| <= r
    ensures DirectFile(f, off, off, b, d, r) == Overlay(Overlay(f, off, b), off, d)
  {
    var x, y := DirectFile(f, off, off, b, d, r), Overlay(Overlay(f, off, b), off, d);
    assert |x| == |y|;
    assert forall i :: 0 <= i < |x| ==> x[i] == y[i];
    assert x == y;
  }

  lemma DirectWrong(f: Bytes, pos: nat, off: nat, b: Bytes, d: Bytes, r: nat)
    requires r < |d| && |b| <= |d| - r && (pos != off || |b| > r)
    requires (forall i :: 0 <= i < |f| ==> f[i] == 0) && (forall i :: 0 <= i < |b| ==> b[i] == 1)
    requires forall i :: 0 <= i < |d| ==> d[i] == 2
    ensures DirectFile(f, pos, off, b, d, r) != Overlay(Overlay(f, off, b), off, d)
  {
    var x, y := DirectFile(f, pos, off, b, d, r), Overlay(Overlay(f, off, b), off, d);
    if pos < off {
      assert x[pos] == 2;
      assert y[pos] == 0;
    } else if pos > off {
      assert y[off] == 2;
      assert x[off] == 0;
    } else {
      assert x[off + |d|] == 1;
      assert |y| > off + |d| ==> y[off + |d|] == 0;
    }
  }

  lemma ModLe(a: nat, k: nat)
    requires k > 0
    ensures a % k <= a
  {
    if a < k { DivModUnique(a, k, 0, a); }
  }

  lemma ModMinus(a: nat, k: nat)
    requires a >= k > 0
    ensures (a - k) % k == a % k
  {
    DivModUnique(a - k, k, a / k - 1, a % k);
  }

  lemma OverlayNothing(v: Bytes, start: nat)
    ensures Overlay(v, start, []) == v
  {
  }

  lemma OverlayStep(v: Bytes, start: nat, data: Bytes, w: nat, n: nat)
    requires w + n <= |data|
    ensures Overlay(Overlay(v, start, data[..w]), start + w, data[w..][..n]) == Overlay(v, start, data[..w + n])
  {
    hide Overlay;
    OverlayJoins(v, start, data[..w], data[w..][..n]);
    assert data[..w] + data[w..][..n] == data[..w + n];
  }

  /** Splicing into memory inside a window, or growing it, splices the window. */
  lemma SpliceInside(m: Bytes, lo: nat, n: nat, p: nat, d: Bytes)
    requires lo + n <= |m| && p <= n && lo + p + |d| <= |m|
    ensures var k := if p + |d| > n then p + |d| else n;
            |Splice(m, lo + p, d)| == |m| && Window(Splice(m, lo + p, d), lo, k) == Splice(Window(m, lo, n), p, d)
  {
    hide Splice;
    SpliceBytes(m, lo + p, d);
    SpliceBytes(Window(m, lo, n), p, d);
    var k := if p + |d| > n then p + |d| else n;
    var x, y := Window(Splice(m, lo + p, d), lo, k), Splice(Window(m, lo, n), p, d);
    assert forall i :: 0 <= i < k ==> x[i] == Splice(m, lo + p, d)[lo + i];
    assert x == y;
  }

  /** One more piece of a read: either it came whole, or it ends the read. */
  lemma ReadAtMore(f: Bytes, start: nat, out: Bytes, d: Bytes, n: nat, left: nat)
    requires out == ReadAt(f, start, |out|) && (out != [] ==> start + |out| <= |f|)
    requires d == ReadAt(f, start + |out|, n) && 0 < n <= left
    ensures out + d == ReadAt(f, start, |out| + |d|) && (out + d != [] ==> start + |out| + |d| <= |f|)
    ensures |d| < n ==> out + d == ReadAt(f, start, |out| + left)
  {
    if out == [] {
      assert out + d == d;
    } else {
      ReadAtJoins(f, start, |out|, n);
    }
  }
}
