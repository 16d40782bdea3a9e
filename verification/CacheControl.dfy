/** Where the cache of containers_io.c stands, without any bytes: its control state, how every
    call moves it, and which runs of calls keep the stream in step with a plain file. */
module CacheControl {
  import opened Basics

  const ALIGNMENT := 1024

  datatype Op = OpRead(n: nat) | OpPeek(n: nat) | OpSkip(n: nat) | OpSeek(target: int) | OpWrite(data: Bytes) | OpFlush

  /** The fields of the stream and its cache; memory is the size of the cache's memory. */
  datatype Control = Control(memory: nat, offset: int, actual: int, cOffset: int, size: nat, position: nat,
                             dirty: bool, shift: nat)
  {
    predicate Valid() {
      && memory >= ALIGNMENT && shift < ALIGNMENT && cOffset >= 0
      && position <= size <= memory - shift
      && (!dirty && size > 0 ==> shift <= cOffset)
    }

    /** In the middle of a write. */
    predicate Writing() {
      && memory >= ALIGNMENT && shift < ALIGNMENT && cOffset >= 0
      && position <= memory - shift && size <= memory - shift
      && (!dirty ==> size == 0 && position == 0)
    }

    /** While a write is in progress position may run ahead of size. */
    function Filled(): nat {
      if position > size then position else size
    }

    function Flushed(): Control {
      this.(actual := if dirty && Filled() > 0 then cOffset + Filled() else actual,
            cOffset := cOffset + Filled(), size := 0, position := 0, dirty := false,
            shift := (cOffset + Filled()) % ALIGNMENT)
    }

    /** How many of the next n bytes a file of length len has. */
    function Available(len: nat, n: nat): (k: nat)
      ensures k <= n
    {
      if cOffset >= len then 0 else if cOffset + n <= len then n else len - cOffset
    }

    function Refilled(len: nat): Control
      requires memory >= ALIGNMENT
    {
      var c := Flushed();
      var k := c.Available(len, memory - c.shift);
      c.(size := k, actual := c.cOffset + k)
    }

    function Bypassed(len: nat, n: nat): Control {
      var c := Flushed();
      var k := c.Available(len, n);
      c.(cOffset := c.cOffset + k, actual := c.cOffset + k)
    }

    /** One round of the read loop with left bytes to go, and the bytes it asked for. */
    function ReadRound(len: nat, left: nat): (r: (Control, nat))
      requires Valid() && left > 0
      ensures r.0.Valid() && 0 < r.1 <= left && r.0.memory == memory && r.0.offset == offset
      ensures !dirty ==> !r.0.dirty
      ensures r.0.cOffset + r.0.position <= cOffset + position + r.1
    {
      if position == size && left > memory then (Bypassed(len, memory), memory)
      else
        var c := if position == size then Refilled(len) else this;
        var bytes := c.size - c.position;
        if bytes == 0 then (c, 1)
        else var want := if bytes > left then left else bytes; (c.(position := c.position + want), want)
    }

    /** The read loop: it ends at n bytes or at the first round that falls short. */
    function AfterRead(len: nat, n: nat): (c: Control)
      requires Valid()
      ensures c.Valid() && c.memory == memory && c.offset == offset && (!dirty ==> !c.dirty)
      decreases n
    {
      if n == 0 then this
      else
        var r := ReadRound(len, n);
        if r.0.cOffset + r.0.position < cOffset + position + r.1 then r.0 else r.0.AfterRead(len, n - r.1)
    }

    lemma AfterReadStep(len: nat, n: nat)
      requires Valid()
      ensures n == 0 ==> AfterRead(len, n) == this
      ensures n > 0 ==> var r := ReadRound(len, n);
                        AfterRead(len, n) == if r.0.cOffset + r.0.position < cOffset + position + r.1 then r.0
                                             else r.0.AfterRead(len, n - r.1)
    {
      hide ReadRound;
    }

    /** A read that one bufferful answers. */
    lemma ReadOnce(len: nat, n: nat)
      requires Valid() && position == size && 0 < n <= Refilled(len).size
      ensures AfterRead(len, n) == Refilled(len).(position := n)
    {
      hide AfterRead;
      AfterReadStep(len, n);
      ReadRound(len, n).0.AfterReadStep(len, 0);
    }

    /** A read that the buffer answers. */
    lemma ReadHeld(len: nat, n: nat)
      requires Valid() && 0 < n <= size - position
      ensures AfterRead(len, n) == this.(position := position + n)
    {
      hide AfterRead;
      AfterReadStep(len, n);
      ReadRound(len, n).0.AfterReadStep(len, 0);
    }

    /** Seeking inside the buffer, just before it, or elsewhere. */
    function AfterSeek(target: int): (c: Control)
      requires Valid()
      ensures c.Valid() && c.memory == memory && c.offset == offset && (!dirty ==> !c.dirty)
    {
      if cOffset <= target < cOffset + size then this.(position := target - cOffset)
      else if !dirty && shift > 0 && size > 0 && cOffset - shift <= target < cOffset then
        this.(cOffset := cOffset - shift, size := size + shift, shift := 0, actual := cOffset,
              position := target - (cOffset - shift))
      else
        var c := if dirty then Flushed() else this;
        if target < 0 then c else c.Flushed().(cOffset := target, actual := target)
    }

    /** A write first gives up a clean buffer, which moves past all of it. */
    function Settled(): Control {
      if size > 0 && !dirty then Flushed() else this
    }

    /** One round of the write loop with left bytes to go, and the bytes it took. */
    function WriteRound(left: nat): (r: (Control, nat))
      requires Writing() && left > 0
      ensures r.0.Writing() && r.0.memory == memory && r.0.offset == offset && r.1 <= left
      ensures r.1 == 0 ==> r.0.position < position
    {
      var bytes := memory - shift - position;
      if bytes == 0 then (Flushed(), 0)
      else
        var k := if bytes > left then left else bytes;
        if k == memory then (this.(cOffset := cOffset + k, actual := actual + k), k)
        else (this.(position := position + k, dirty := true), k)
    }

    /** The write loop. */
    function WriteLoop(n: nat): (c: Control)
      requires Writing()
      ensures c.Writing() && c.memory == memory && c.offset == offset
      decreases n, position
    {
      if n == 0 then this else var r := WriteRound(n); r.0.WriteLoop(n - r.1)
    }

    lemma WriteLoopStep(n: nat)
      requires Writing()
      ensures n == 0 ==> WriteLoop(n) == this
      ensures n > 0 ==> WriteLoop(n) == WriteRound(n).0.WriteLoop(n - WriteRound(n).1)
    {
    }

    /** A write that fits into the buffer. */
    lemma WriteOnce(n: nat)
      requires Writing() && 0 < n <= memory - shift - position && n < memory
      ensures WriteLoop(n) == this.(position := position + n, dirty := true)
    {
      hide WriteLoop;
      WriteLoopStep(n);
      WriteRound(n).0.WriteLoopStep(0);
    }

    /** The lower stream stands where the buffer begins. */
    predicate InPlace() {
      actual == cOffset
    }

    /** Flushing a dirty buffer puts the lower stream in place, and it stays there over rounds of the
        write loop and seeks inside a dirty buffer, so the next flush does not move it. */
    lemma StaysInPlace(n: nat, target: int)
      requires Writing()
      ensures dirty && Filled() > 0 ==> Flushed().InPlace()
      ensures InPlace() && n > 0 ==> WriteRound(n).0.InPlace()
      ensures Valid() && InPlace() && dirty && cOffset <= target < cOffset + size ==> AfterSeek(target).InPlace()
    {
    }

    function AfterWrite(n: nat): (c: Control)
      requires Valid()
      ensures c.Valid() && c.memory == memory && c.offset == offset && (c.dirty || c.size == 0)
    {
      var c := Settled().WriteLoop(n);
      c.(size := c.Filled())
    }

    /** A write of n bytes begins by going straight to the lower stream. */
    predicate GoesDirect(n: nat) {
      n >= memory && shift == 0 && position == 0
    }

    /** Such a write is right, whatever the bytes, exactly when the lower stream is in place and
        what is left for the buffer covers the dirty bytes it still holds. */
    predicate DirectSafe(n: nat)
      requires memory > 0
    {
      GoesDirect(n) ==> actual == cOffset && (dirty ==> size <= n % memory)
    }

    /** The next n bytes can be written without looking at those the buffer holds. */
    predicate Smooth(n: nat) {
      GoesDirect(n) ==> actual == cOffset && !dirty
    }

    /** Where reading goes on. */
    function Place(): int {
      cOffset + position
    }

    /** Where the next write will land. */
    function WriteStart(): (at: int)
      ensures Valid() ==> at >= 0
    {
      Settled().Place()
    }

    /** The call does not write past the cache unsafely. */
    predicate Safe(op: Op)
      requires memory > 0
    {
      op.OpWrite? ==> Settled().DirectSafe(|op.data|)
    }

    /** The calls for which the stream behaves as a plain file. */
    predicate Regular(op: Op)
      requires memory > 0
    {
      match op
      case OpWrite(d) => Safe(op) && (dirty || position == size)
      case OpSeek(target) => target >= 0 || !dirty || position == size
      case OpFlush => position == size
      case _ => true
    }

    function Read(len: nat, n: nat): (c: Control)
      requires Valid()
      ensures c.Valid() && c.memory == memory && (!dirty ==> !c.dirty)
    {
      var c := AfterRead(len, n);
      c.(offset := offset + (c.cOffset + c.position) - (cOffset + position))
    }

    function Seek(target: int): (c: Control)
      requires Valid()
      ensures c.Valid() && c.memory == memory && (!dirty ==> !c.dirty)
    {
      AfterSeek(target).(offset := if target >= 0 then target else offset)
    }

    lemma SeekEmpty(target: nat)
      requires Valid() && size == 0 && !dirty
      ensures Seek(target) == this.(offset := target, actual := target, cOffset := target, shift := cOffset % ALIGNMENT)
    {
    }

    function Skip(len: nat, n: nat): (c: Control)
      requires Valid()
      ensures c.Valid() && c.memory == memory && (!dirty ==> !c.dirty)
    {
      if n == 0 then this
      else if n < 8 then Read(len, n)
      else AfterSeek(offset + n).(offset := offset + n)
    }

    /** The control state after a call on a file of length len. */
    function Next(len: nat, op: Op): (c: Control)
      requires Valid()
      ensures c.Valid() && c.memory == memory
    {
      match op
      case OpRead(n) => Read(len, n)
      case OpPeek(n) => Read(len, n).Seek(offset)
      case OpSkip(n) => Skip(len, n)
      case OpSeek(target) => Seek(target)
      case OpWrite(d) => AfterWrite(|d|).(offset := offset + |d|)
      case OpFlush => Flushed()
    }

    /** The length of the file after a regular call. */
    function NextLength(len: nat, op: Op): nat {
      if op.OpWrite? && op.data != [] && offset + |op.data| > len then offset + |op.data| else len
    }

    /** Every call of the run is regular where it comes. */
    predicate RunRegular(len: nat, ops: seq<Op>)
      requires Valid()
      decreases |ops|
    {
      ops == [] || (Regular(ops[0]) && Next(len, ops[0]).RunRegular(NextLength(len, ops[0]), ops[1..]))
    }

    lemma RunRegularStep(len: nat, ops: seq<Op>)
      requires Valid()
      ensures ops == [] ==> RunRegular(len, ops)
      ensures ops != [] ==>
                (RunRegular(len, ops) <==> Regular(ops[0]) && Next(len, ops[0]).RunRegular(NextLength(len, ops[0]), ops[1..]))
    {
    }
  }

  predicate ReadOnly(op: Op) {
    !op.OpWrite? && !op.OpFlush?
  }

  /** Writes shorter than the memory, with seeks and long skips in between: what the writers of
      container files do. */
  predicate WriteBehind(op: Op, memory: nat) {
    match op
    case OpWrite(d) => |d| < memory
    case OpSeek(target) => target >= 0
    case OpSkip(n) => n >= 8
    case _ => false
  }

  /** Reading from a clean stream is always regular. */
  lemma {:induction false} ReadOnlyRegular(c: Control, len: nat, ops: seq<Op>)
    requires c.Valid() && !c.dirty && forall op :: op in ops ==> ReadOnly(op)
    ensures c.RunRegular(len, ops)
    decreases |ops|
  {
    if ops == [] {
    } else {
      assert ReadOnly(ops[0]);
      ReadOnlyRegular(c.Next(len, ops[0]), c.NextLength(len, ops[0]), ops[1..]);
    }
  }

  /** So is writing behind an empty or dirty buffer. */
  lemma {:induction false} WriteBehindRegular(c: Control, len: nat, ops: seq<Op>)
    requires c.Valid() && (c.dirty || c.size == 0) && forall op :: op in ops ==> WriteBehind(op, c.memory)
    ensures c.RunRegular(len, ops)
    decreases |ops|
  {
    if ops == [] {
    } else {
      assert WriteBehind(ops[0], c.memory);
      WriteBehindRegular(c.Next(len, ops[0]), c.NextLength(len, ops[0]), ops[1..]);
    }
  }
}
