/** The packetizer of mpga_packetizer.c, which finds MPEG audio frames in a byte stream,
    resynchronising over damage. */
module MpgaPacketizer {
  import opened Basics
  import opened MpgaHeader
  import opened Bytestream

  // ---------- what the packetizer does to its input ----------

  /** What became of the input: a byte skipped while looking for sync, or a whole frame. */
  datatype Event = Skipped(b: byte) | Frame(data: Bytes, confirmed: bool)

  function EventBytes(e: Event): Bytes {
    match e case Skipped(b) => [b] case Frame(d, _) => d
  }

  /** The input the events account for. */
  function LogBytes(log: seq<Event>): Bytes {
    if log == [] then [] else LogBytes(log[..|log| - 1]) + EventBytes(log[|log| - 1])
  }

  /** The frames among the events, joined. */
  function FrameBytes(log: seq<Event>): Bytes {
    if log == [] then []
    else FrameBytes(log[..|log| - 1]) + (match log[|log| - 1] case Skipped(_) => [] case Frame(d, _) => d)
  }

  lemma LogGrows(log: seq<Event>, e: Event)
    ensures LogBytes(log + [e]) == LogBytes(log) + EventBytes(e)
    ensures FrameBytes(log + [e]) == FrameBytes(log) + (match e case Skipped(_) => [] case Frame(d, _) => d)
  {
    assert (log + [e])[..|log|] == log;
  }

  /** A frame whose own header decodes to its length, with the given version and layer. */
  predicate GoodFrame(f: Bytes, version: nat, layer: nat) {
    |f| >= HEADER_SIZE && Announces(f, |f|, version, layer)
  }

  /** Such a frame starts with the code of its fields, and is as long as they say. */
  lemma GoodFrameMeans(f: Bytes, version: nat, layer: nat)
    requires GoodFrame(f, version, layer)
    ensures Known(FieldsOf(f)) && f[..4] == Encoded(FieldsOf(f)) && FieldsOf(f).version == version && FieldsOf(f).layer == layer
    ensures var r := ReadHeader(f[..HEADER_SIZE]).value; |f| == r.frameSize && Means(r, FieldsOf(f))
  {
    hide ReadHeader, Means, Known, Encoded;
    var h := f[..HEADER_SIZE];
    OnlyEncoded(h);
    assert FieldsOf(h) == FieldsOf(f) && h[..4] == f[..4];
    HeaderMeans(FieldsOf(h), h[4], h[5]);
    assert FieldsOf(h).version == version && FieldsOf(h).layer == layer by { MeansKind(ReadHeader(h).value, FieldsOf(h)); }
  }

  /** The header at the start of f announces a frame of that size, version and layer. */
  predicate Announces(f: Bytes, size: nat, version: nat, layer: nat) {
    |f| >= HEADER_SIZE && ReadHeader(f[..HEADER_SIZE]).Some?
    && ReadHeader(f[..HEADER_SIZE]).value.frameSize == size
    && ReadHeader(f[..HEADER_SIZE]).value.version == version
    && ReadHeader(f[..HEADER_SIZE]).value.layer == layer
  }

  predicate GoodLog(log: seq<Event>, version: nat, layer: nat) {
    forall e :: e in log && e.Frame? ==> GoodFrame(e.data, version, layer)
  }

  /** The bytes at hand rule out a frame at the start of u: no sync word, a header that is bad, of
      another version or layer than the stream's or without a size, or no matching header where
      the next frame should be. */
  predicate Refuted(u: Bytes, version: nat, layer: nat) {
    (|u| >= 2 && !(u[0] == 0xff && u[1] / 0x20 == 7))
    || (|u| >= HEADER_SIZE && BadHeader(ReadHeader(u[..HEADER_SIZE]), version, layer))
    || (|u| >= HEADER_SIZE && BadNext(u, ReadHeader(u[..HEADER_SIZE])))
  }

  predicate BadHeader(h: Option<Header>, version: nat, layer: nat) {
    h.None? || (version != 0 && version != h.value.version) || (layer != 0 && layer != h.value.layer) || h.value.frameSize == 0
  }

  predicate BadNext(u: Bytes, h: Option<Header>) {
    h.Some? && h.value.frameSize + HEADER_SIZE <= |u|
    && !SameKind(ReadHeader(u[h.value.frameSize..h.value.frameSize + HEADER_SIZE]), h.value.version, h.value.layer)
  }

  predicate SameKind(h: Option<Header>, version: nat, layer: nat) {
    h.Some? && h.value.version == version && h.value.layer == layer
  }

  lemma RefutedForGood(u: Bytes, more: Bytes, version: nat, layer: nat)
    requires Refuted(u, version, layer)
    ensures Refuted(u + more, version, layer)
  {
    hide ReadHeader;
    if |u| >= HEADER_SIZE {
      assert (u + more)[..HEADER_SIZE] == u[..HEADER_SIZE];
      var h := ReadHeader(u[..HEADER_SIZE]);
      if h.Some? && h.value.frameSize + HEADER_SIZE <= |u| {
        var n := h.value.frameSize;
        assert (u + more)[n..n + HEADER_SIZE] == u[n..n + HEADER_SIZE];
      }
    }
  }

  /** A header of that version and layer follows n bytes. */
  predicate Confirmed(u: Bytes, n: nat, version: nat, layer: nat) {
    n + HEADER_SIZE <= |u| && SameKind(ReadHeader(u[n..n + HEADER_SIZE]), version, layer)
  }

  /** What the input from there on says about an event: a skipped byte is ruled out as the start
      of a frame of the stream, a confirmed frame is followed by another header of the stream. */
  predicate Backed(e: Event, u: Bytes, version: nat, layer: nat) {
    match e
    case Skipped(_) => Refuted(u, version, layer)
    case Frame(d, confirmed) => confirmed ==> Confirmed(u, |d|, version, layer)
  }

  lemma BackedForGood(e: Event, u: Bytes, more: Bytes, version: nat, layer: nat)
    requires Backed(e, u, version, layer)
    ensures Backed(e, u + more, version, layer)
  {
    hide ReadHeader, Refuted;
    match e
    case Skipped(_) => RefutedForGood(u, more, version, layer);
    case Frame(d, confirmed) => ConfirmedForGood(u, |d|, more);
  }

  lemma ConfirmedForGood(u: Bytes, n: nat, more: Bytes)
    ensures forall v, l :: Confirmed(u, n, v, l) ==> Confirmed(u + more, n, v, l)
  {
    if n + HEADER_SIZE <= |u| { assert (u + more)[n..n + HEADER_SIZE] == u[n..n + HEADER_SIZE]; }
  }

  /** The input backs every event. */
  predicate Justified(log: seq<Event>, input: Bytes, version: nat, layer: nat) {
    forall k :: 0 <= k < |log| ==>
      |LogBytes(log[..k])| <= |input| && Backed(log[k], input[|LogBytes(log[..k])|..], version, layer)
  }

  lemma JustifiedMore(log: seq<Event>, input: Bytes, more: Bytes, version: nat, layer: nat)
    requires Justified(log, input, version, layer)
    ensures Justified(log, input + more, version, layer)
  {
    hide Backed, LogBytes;
    forall k | 0 <= k < |log|
      ensures |LogBytes(log[..k])| <= |input + more|
      ensures Backed(log[k], (input + more)[|LogBytes(log[..k])|..], version, layer)
    {
      var i := |LogBytes(log[..k])|;
      BackedForGood(log[k], input[i..], more, version, layer);
      assert (input + more)[i..] == input[i..] + more;
    }
  }

  /** Learning the stream's version and layer rules nothing in again. */
  lemma JustifiedStill(log: seq<Event>, input: Bytes, version: nat, layer: nat)
    requires Justified(log, input, 0, 0) && forall e :: e in log ==> e.Skipped?
    ensures Justified(log, input, version, layer)
  {
    hide ReadHeader, LogBytes;
    forall k | 0 <= k < |log|
      ensures |LogBytes(log[..k])| <= |input| && Backed(log[k], input[|LogBytes(log[..k])|..], version, layer)
    {
      assert log[k] in log && Backed(log[k], input[|LogBytes(log[..k])|..], 0, 0);
    }
  }

  lemma JustifiedNext(log: seq<Event>, input: Bytes, u: Bytes, e: Event, version: nat, layer: nat)
    requires Justified(log, input, version, layer) && input == LogBytes(log) + u && Backed(e, u, version, layer)
    ensures Justified(log + [e], input, version, layer)
  {
    hide Backed, LogBytes;
    var after := log + [e];
    assert input[|LogBytes(log)|..] == u;
    forall k | 0 <= k < |after|
      ensures |LogBytes(after[..k])| <= |input| && Backed(after[k], input[|LogBytes(after[..k])|..], version, layer)
    {
      if k < |log| { assert after[..k] == log[..k]; } else { assert after[..k] == log; }
    }
  }

  datatype ModuleState = Sync | SyncLost | SyncNext | SyncDone | ReadingHeader | ReadingData
  datatype Status = Success | Incomplete

  class Packetizer {
    const stream: Stream
    var state: ModuleState
    var frameSize: nat
    var version: nat
    var layer: nat
    var lostSync: nat
    var streamVersion: nat
    var streamLayer: nat
    var bytesRead: nat
    ghost var input: Bytes       // everything pushed so far
    ghost var log: seq<Event>    // what became of it
    ghost var taken: Bytes       // the part of the current frame already handed out
    ghost var confirmed: bool    // the next frame's header has been seen behind the current one

    ghost predicate Accounts()
      reads this, stream, stream.packets
    {
      && stream.Valid() && stream.drift == 0
      && input == LogBytes(log) + taken + stream.Unread()
      && GoodLog(log, streamVersion, streamLayer) && Justified(log, input, streamVersion, streamLayer)
      && ((forall e :: e in log ==> e.Skipped?) || streamVersion > 0)
      && (streamVersion == 0 <==> streamLayer == 0)
    }

    ghost predicate Stage()
      requires stream.Valid()
      reads this, stream, stream.packets
    {
      && (state != ReadingData ==> taken == [])
      && (state == SyncNext || state == SyncDone ==>
            frameSize > 0 && Announces(stream.Unread(), frameSize, version, layer)
            && (streamVersion > 0 ==> version == streamVersion && layer == streamLayer))
      && (state == ReadingData ==>
            bytesRead == |taken| < frameSize && streamVersion > 0
            && Announces(taken + stream.Unread(), frameSize, streamVersion, streamLayer))
      && (state == SyncDone && confirmed ==> Confirmed(stream.Unread(), frameSize, version, layer))
      && (state == ReadingData && confirmed ==> Confirmed(taken + stream.Unread(), frameSize, streamVersion, streamLayer))
      && (state == SyncLost ==> stream.Unread() != [] && Refuted(stream.Unread(), streamVersion, streamLayer))
    }

    /** The input is exactly the skipped bytes and completed frames so far, in order, then what
        has been handed out of the current frame, then the unread bytes. */
    ghost predicate Valid()
      reads this, stream, stream.packets
    {
      Accounts() && Stage() && state != SyncLost && state != SyncDone
    }

    /** Everything handed out or dropped as part of a frame. */
    ghost function Delivered(): Bytes
      reads this
    {
      FrameBytes(log) + taken
    }

    constructor (stream: Stream)
      requires stream.Valid() && stream.drift == 0
      ensures Valid() && this.stream == stream && input == stream.Unread() && log == [] && taken == []
      ensures state == Sync && streamVersion == 0
    {
      this.stream := stream;
      state, frameSize, version, layer, lostSync := Sync, 0, 0, 0, 0;
      streamVersion, streamLayer, bytesRead := 0, 0, 0;
      input, log, taken, confirmed := stream.Unread(), [], [], false;
    }

    /** Drop one byte as not in sync. */
    method SkipOne()
      requires Accounts() && taken == [] && stream.Unread() != [] && Refuted(stream.Unread(), streamVersion, streamLayer)
      modifies `log, stream`current, stream`currentOffset, stream`offset, stream`cur
      ensures Accounts() && stream.Unread() == old(stream.Unread())[1..]
      ensures log == old(log) + [Skipped(old(stream.Unread())[0])]
    {
      hide GoodFrame, Announces, LogBytes, FrameBytes, Refuted, Justified;
      stream.CountedIsUnread();
      ghost var u := stream.Unread();
      LogGrows(log, Skipped(u[0]));
      assert input == LogBytes(log) + u;
      JustifiedNext(log, input, u, Skipped(u[0]), streamVersion, streamLayer);
      var ok := stream.SkipByte();
      log := log + [Skipped(u[0])];
    }

    /** STATE_SYNC: skip to the next eleven-bit sync word. */
    method FindSync() returns (found: bool)
      requires Accounts() && taken == [] && state == Sync
      modifies `log, `state, `lostSync, stream`current, stream`currentOffset, stream`offset, stream`cur
      ensures Accounts() && OnlySkips(old(log), log) && |stream.Unread()| <= |old(stream.Unread())|
      ensures if found then state == ReadingHeader else state == Sync && |stream.Unread()| < 2
    {
      hide GoodFrame, Announces, LogBytes, FrameBytes, GoodLog, Flat, Before, Justified, BadHeader, BadNext, ReadHeader, Stream.Valid, Stream.Linked;
      found := false;
      var done := false;
      while !done
        invariant Accounts() && taken == [] && state == Sync && !found && OnlySkips(old(log), log)
        invariant |stream.Unread()| <= |old(stream.Unread())|
        invariant done ==> |stream.Unread()| < 2
        decreases |stream.Unread()|, !done
      {
        stream.CountedIsUnread();
        var ok, header := stream.Peek(2);
        if !ok {
          done := true;
        } else {
          if header[0] == 0xff && header[1] / 0x20 == 7 {
            state := ReadingHeader;
            return true;
          }
          SkipOne();
          lostSync := lostSync + 1;
        }
      }
    }

    /** STATE_HEADER: decode the header at hand; versions and layers must not change mid-stream. */
    method DecodeHeader() returns (enough: bool)
      requires Accounts() && taken == [] && state == ReadingHeader
      modifies `state, `frameSize, `version, `layer
      ensures Accounts() && Stage()
      ensures if enough then state == SyncNext || state == SyncLost
              else state == ReadingHeader && |stream.Unread()| < HEADER_SIZE
    {
      hide LogBytes, FrameBytes, GoodLog, ReadHeader, Flat, Before, Justified, BadNext, Stream.Valid, Stream.Linked;
      stream.CountedIsUnread();
      var ok, header := stream.Peek(HEADER_SIZE);
      if !ok { return false; }
      enough := true;
      var h := ReadHeader(header);
      if h.None? {
        state := SyncLost;
        return;
      }
      frameSize, version, layer := h.value.frameSize, h.value.version, h.value.layer;
      if (streamVersion != 0 && streamVersion != version) || (streamLayer != 0 && streamLayer != layer) || frameSize == 0 {
        state := SyncLost;
        return;
      }
      state := SyncNext;
    }

    /** STATE_SYNC_NEXT: look for another header where the next frame should be, unless told
        that no more data will come. */
    method CheckNext(flush: bool) returns (enough: bool)
      requires Accounts() && Stage() && state == SyncNext
      modifies `state, `confirmed
      ensures Accounts() && Stage() && (state == SyncDone ==> confirmed || flush)
      ensures if enough then state == SyncDone || state == SyncLost
              else state == SyncNext && !flush && |stream.Unread()| < frameSize + HEADER_SIZE
    {
      hide LogBytes, FrameBytes, GoodLog, ReadHeader, Flat, Before, Justified, Stream.Valid, Stream.Linked;
      stream.CountedIsUnread();
      var ok, header := stream.PeekAt(frameSize, HEADER_SIZE);
      confirmed := ok;
      if !ok {
        if flush { state := SyncDone; }
        return flush;
      }
      enough := true;
      var h := ReadHeader(header);
      state := if h.None? || h.value.version != version || h.value.layer != layer then SyncLost else SyncDone;
    }

    /** STATE_SYNC_DONE: commit to the frame. */
    method StartFrame()
      requires Accounts() && Stage() && state == SyncDone
      modifies `state, `streamVersion, `streamLayer, `bytesRead, `lostSync
      ensures Accounts() && Stage() && state == ReadingData && bytesRead == 0
    {
      hide LogBytes, FrameBytes, ReadHeader, Flat, Before, Justified, Refuted, Confirmed;
      FrameSizeBounds(stream.Unread()[..HEADER_SIZE]);
      lostSync := 0;
      if streamVersion == 0 { JustifiedStill(log, input, version, layer); }
      streamVersion := version;
      streamLayer := layer;
      bytesRead := 0;
      state := ReadingData;
      assert taken + stream.Unread() == stream.Unread();
    }

    /** The frame's next bytes leave the stream; when they are its last the frame is complete. */
    method TakeFrame(n: nat) returns (d: Bytes)
      requires Accounts() && Stage() && state == ReadingData && bytesRead + n <= frameSize && n <= |stream.Unread()|
      modifies `bytesRead, `taken, stream`current, stream`currentOffset, stream`offset, stream`cur
      ensures Accounts() && d == old(stream.Unread())[..n] && taken == old(taken) + d
      ensures bytesRead == old(bytesRead) + n == |taken| && stream.Unread() == old(stream.Unread())[n..]
      ensures taken + stream.Unread() == old(taken + stream.Unread())
    {
      hide LogBytes, FrameBytes, GoodLog, Announces, Flat, Before, Justified, Refuted, Confirmed;
      stream.CountedIsUnread();
      ghost var u := stream.Unread();
      TakenOver(LogBytes(log), taken, u, n);
      var ok;
      ok, d := stream.Get(n);
      bytesRead := bytesRead + n;
      taken := taken + d;
    }

    method CompleteFrame()
      requires Accounts() && state == ReadingData && |taken| == frameSize > 0 && streamVersion > 0
      requires Announces(taken + stream.Unread(), frameSize, streamVersion, streamLayer)
      requires confirmed ==> Confirmed(taken + stream.Unread(), frameSize, streamVersion, streamLayer)
      modifies `log, `taken, `state
      ensures Accounts() && Stage() && state == ReadingHeader && taken == []
      ensures log == old(log) + [Frame(old(taken), confirmed)] && GoodFrame(old(taken), streamVersion, streamLayer)
    {
      hide LogBytes, FrameBytes, ReadHeader, Flat, Before, Justified, Refuted, Confirmed;
      ghost var e := Frame(taken, confirmed);
      FrameSizeBounds((taken + stream.Unread())[..HEADER_SIZE]);
      assert taken[..HEADER_SIZE] == (taken + stream.Unread())[..HEADER_SIZE];
      LogGrows(log, e);
      Associates(LogBytes(log), taken, stream.Unread());
      JustifiedNext(log, input, taken + stream.Unread(), e, streamVersion, streamLayer);
      log := log + [e];
      taken := [];
      state := ReadingHeader;
    }

    /** STATE_DATA: hand out, report or drop the next part of the frame. A call goes nowhere
        exactly when less than a whole frame's size is unread, even if the part of the frame
        still due is at hand. */
    method HandOut(info: bool, skip: bool, bufferSize: nat) returns (status: Status, size: nat, d: Bytes)
      requires Accounts() && Stage() && state == ReadingData
      modifies this, stream`current, stream`currentOffset, stream`offset, stream`cur
      ensures Valid() && (status == Incomplete <==> |old(stream.Unread())| < frameSize)
      ensures status == Incomplete || info ==> log == old(log) && taken == old(taken) && state == ReadingData
      ensures status == Incomplete || info ==> stream.Unread() == old(stream.Unread())
      ensures status == Success ==> size <= frameSize - old(bytesRead)
      ensures status == Success && info ==> size == frameSize - old(bytesRead)
      ensures status == Success && !info && (skip || bufferSize > frameSize - old(bytesRead)) ==> size == frameSize - old(bytesRead)
      ensures status == Success && !info && !skip && bufferSize <= frameSize - old(bytesRead) ==> size == bufferSize
      ensures status == Success && !info ==> size <= |old(stream.Unread())| && d == old(stream.Unread())[..size]
      ensures status == Success && !info ==> Delivered() == old(Delivered()) + d
      ensures status == Success && !info && old(bytesRead) + size == frameSize ==> log == old(log) + [Frame(old(taken) + d, confirmed)]
      ensures status == Success && !info && old(bytesRead) + size != frameSize ==> log == old(log)
      ensures input == old(input) && frameSize == old(frameSize) && confirmed == old(confirmed)
    {
      hide LogBytes, FrameBytes, GoodLog, Announces, GoodFrame, Flat, Before, Justified, Refuted, Confirmed;
      hide Stream.Valid, Stream.Linked, Stream.Unread;
      stream.CountedIsUnread();
      status, size, d := Incomplete, 0, [];
      if stream.Counted() < frameSize { return; }
      status := Success;
      size := frameSize - bytesRead;
      if info { return; }
      if !skip && bufferSize < size { size := bufferSize; }
      d := TakeFrame(size);
      assert (FrameBytes(log) + old(taken)) + d == FrameBytes(log) + taken;
      if bytesRead == frameSize {
        LogGrows(log, Frame(taken, confirmed));
        CompleteFrame();
      }
    }

    /** mpga_packetizer_packetize: for any input chunks and buffer sizes the account of Valid()
        is kept, and what is handed out is the frames' bytes in order. Without the flush flag no
        frame starts unless the next frame's header has been seen behind it. */
    method Packetize(flush: bool, info: bool, skip: bool, bufferSize: nat)
      returns (status: Status, size: nat, d: Bytes, start: bool)
      requires Valid()
      modifies this, stream`current, stream`currentOffset, stream`offset, stream`cur
      ensures Valid() && input == old(input) && old(log) <= log
      ensures status == Success && !info ==> Delivered() == old(Delivered()) + d && |d| == size
      ensures status == Incomplete || info ==> Delivered() == old(Delivered()) && OnlySkips(old(log), log)
      ensures status == Success && info ==> state == ReadingData && size == frameSize - bytesRead
      ensures status == Success ==> (start <==> old(taken) == [])
      ensures status == Success && !info && !skip ==> |d| <= bufferSize
      ensures status == Success && !info && (skip || bufferSize > 0) ==> d != []
      ensures status == Incomplete ==> |stream.Unread()| < MAX_FRAME_SIZE + HEADER_SIZE
      ensures status == Success && !flush && old(state) != ReadingData ==> confirmed
      ensures old(taken) != [] && status == Success && !info ==> (log == old(log) || log == old(log) + [Frame(old(taken) + d, confirmed)])
    {
      hide LogBytes, FrameBytes, GoodLog, Announces, GoodFrame, Flat, Before, ReadHeader, Justified, Refuted, Confirmed;
      status, size, d, start := Incomplete, 0, [], false;
      while state != ReadingData
        invariant Accounts() && Stage() && input == old(input) && OnlySkips(old(log), log)
        invariant FrameBytes(log) == old(FrameBytes(log)) && taken == old(taken)
        invariant state == ReadingData || taken == []
        invariant old(taken) != [] ==> log == old(log)
        invariant (state == SyncDone || state == ReadingData) && !flush && old(state) != ReadingData ==> confirmed
        decreases |stream.Unread()|, Rank(state)
      {
        var enough := Advance(flush);
        if !enough { return; }
      }
      StageFacts();
      start := bytesRead == 0;
      status, size, d := HandOut(info, skip, bufferSize);
    }

    /** One turn of the state machine before the data state. */
    method Advance(flush: bool) returns (enough: bool)
      requires Accounts() && Stage() && state != ReadingData
      modifies this, stream`current, stream`currentOffset, stream`offset, stream`cur
      ensures Accounts() && Stage() && input == old(input) && taken == old(taken) == []
      ensures OnlySkips(old(log), log) && FrameBytes(log) == old(FrameBytes(log))
      ensures state == SyncDone ==> confirmed || flush
      ensures state == ReadingData ==> old(state) == SyncDone && confirmed == old(confirmed)
      ensures enough ==> |stream.Unread()| <= |old(stream.Unread())|
      ensures enough && |stream.Unread()| == |old(stream.Unread())| ==> Rank(state) < Rank(old(state))
      ensures !enough ==> Valid() && |stream.Unread()| < MAX_FRAME_SIZE + HEADER_SIZE
    {
      hide LogBytes, FrameBytes, GoodLog, Announces, GoodFrame, Flat, Before, ReadHeader, Justified, Refuted, Confirmed;
      hide Stream.Valid, Stream.Linked;
      ghost var log0 := log;
      enough := true;
      match state
      case SyncLost =>
        SkipOne();
        lostSync := lostSync + 1;
        state := Sync;
        SkipsKeepFrames(log0, log);
      case Sync =>
        enough := FindSync();
        SkipsKeepFrames(log0, log);
      case ReadingHeader =>
        enough := DecodeHeader();
      case SyncNext =>
        StageFacts();
        enough := CheckNext(flush);
      case SyncDone =>
        StartFrame();
      case ReadingData =>
    }

    lemma StageFacts()
      requires Accounts() && Stage()
      ensures state == SyncNext ==> frameSize <= MAX_FRAME_SIZE
      ensures state == ReadingData ==> frameSize <= MAX_FRAME_SIZE
    {
      if state == SyncNext { FrameSizeBounds(stream.Unread()[..HEADER_SIZE]); }
      if state == ReadingData { FrameSizeBounds((taken + stream.Unread())[..HEADER_SIZE]); }
    }

    /** vc_packetizer_push */
    method Push(packet: Packet)
      requires Valid() && packet !in stream.packets
      modifies this, stream, stream.packets, packet
      ensures Valid() && input == old(input) + packet.data && log == old(log) && taken == old(taken)
    {
      hide LogBytes, FrameBytes, GoodLog, GoodFrame, Flat, Before, ReadHeader, Justified, Refuted, Confirmed;
      ghost var u := stream.Unread();
      JustifiedMore(log, input, packet.data, streamVersion, streamLayer);
      stream.Push(packet);
      input := input + packet.data;
      assert taken + (u + packet.data) == (taken + u) + packet.data;
      AnnouncesMore(taken + u, packet.data);
      AnnouncesMore(u, packet.data);
      ConfirmedForGood(taken + u, frameSize, packet.data);
    }
  }

  lemma TakenOver(log: Bytes, taken: Bytes, u: Bytes, n: nat)
    requires n <= |u|
    ensures log + (taken + u[..n]) + u[n..] == log + taken + u && (taken + u[..n]) + u[n..] == taken + u
  {
    assert u == u[..n] + u[n..];
  }

  function Rank(s: ModuleState): nat {
    match s case SyncLost => 0 case ReadingData => 1 case SyncDone => 2 case SyncNext => 3
    case ReadingHeader => 4 case Sync => 5
  }

  lemma AnnouncesMore(f: Bytes, more: Bytes)
    ensures forall n, v, l :: Announces(f, n, v, l) ==> Announces(f + more, n, v, l)
  {
    if |f| >= HEADER_SIZE { assert (f + more)[..HEADER_SIZE] == f[..HEADER_SIZE]; }
  }

  lemma {:induction false} SkipsKeepFrames(before: seq<Event>, after: seq<Event>)
    requires OnlySkips(before, after)
    ensures FrameBytes(after) == FrameBytes(before)
    decreases |after|
  {
    if |before| == |after| {
      assert before == after;
    } else {
      SkipsKeepFrames(before, after[..|after| - 1]);
    }
  }

  /** Between the two logs only bytes were skipped. */
  predicate OnlySkips(before: seq<Event>, after: seq<Event>) {
    before <= after && forall i :: |before| <= i < |after| ==> after[i].Skipped?
  }

  // ---------- the stall inside a frame ----------

  /** A frame of 104 bytes: MPEG1 layer 3 at 32 kbit/s and 44.1 kHz. */
  function SomeFrame(): (f: Bytes)
    ensures |f| == 104
  {
    [255, 251, 16, 0] + seq(100, _ => 0)
  }

  lemma SomeFrameIsGood()
    ensures GoodFrame(SomeFrame(), 1, 3)
  {
    var h := SomeFrame()[..HEADER_SIZE];
    assert h == [255, 251, 16, 0, 0, 0];
    DivModUnique(32000 * 144, 44100, 104, 21600);
    assert ReadHeader(h) == Some(Header(104, 32000, 1, 3, 44100, 2, 1152));
  }

  /** Nothing rules out a good frame with nothing behind it. */
  lemma FrameStands(f: Bytes)
    requires GoodFrame(f, 1, 3)
    ensures !Refuted(f, 0, 0) && |f| >= 24
  {
    FrameSizeBounds(f[..HEADER_SIZE]);
    assert f[..HEADER_SIZE][0] == f[0] && f[..HEADER_SIZE][1] == f[1];
  }

  /** Once its first byte is handed out, the frame is stuck: the whole rest of it is at hand, but the
      packetizer waits for as many bytes as the whole frame has. */
  method StallWithRestAtHand() returns (p: Packetizer, status: Status)
    ensures p.Valid() && p.input == SomeFrame() && p.taken == SomeFrame()[..1] && p.frameSize == 104
    ensures status == Incomplete && p.state == ReadingData && p.stream.Unread() == SomeFrame()[1..]
  {
    hide SomeFrame, ReadHeader, Flat, Before, Justified, GoodLog, Announces, GoodFrame, Refuted, Confirmed, LogBytes;
    SomeFrameIsGood();
    FrameStands(SomeFrame());
    p := ReadyToHandOut();
    var size, d;
    status, size, d := p.HandOut(false, false, 1);
    status, size, d := p.HandOut(false, false, 104);
  }

  /** The frame alone is the input, and the packetizer stands at its header. */
  method InSync() returns (p: Packetizer)
    ensures fresh(p) && fresh(p.stream) && p.Accounts() && p.state == ReadingHeader && p.input == SomeFrame()
    ensures p.taken == [] && p.stream.Unread() == SomeFrame() && p.streamVersion == p.streamLayer == 0
  {
    hide SomeFrame, ReadHeader, Flat, Before, GoodLog, Refuted, LogBytes, Justified, GoodFrame, Stream.Valid;
    SomeFrameIsGood();
    FrameStands(SomeFrame());
    var stream := new Stream();
    var packet := new Packet(SomeFrame(), true);
    stream.Push(packet);
    assert [] + SomeFrame() == SomeFrame();
    p := new Packetizer(stream);
    var found := p.FindSync();
    SkippedFirst(p.log, SomeFrame());
    assert p.stream.Unread() == SomeFrame();
  }

  /** From there its state machine comes to the data. */
  method ReadyToHandOut() returns (p: Packetizer)
    ensures fresh(p) && fresh(p.stream) && p.Accounts() && p.Stage() && p.state == ReadingData && p.input == SomeFrame()
    ensures p.bytesRead == 0 && p.frameSize == 104 && p.taken == [] && p.stream.Unread() == SomeFrame()
  {
    hide SomeFrame, ReadHeader, Flat, Before, GoodLog, Refuted, Confirmed, LogBytes, Justified, Stream.Valid;
    SomeFrameIsGood();
    FrameStands(SomeFrame());
    p := InSync();
    var enough := p.DecodeHeader();
    enough := p.CheckNext(true);
    p.StartFrame();
  }

  lemma SkippedFirst(log: seq<Event>, f: Bytes)
    requires Justified(log, f, 0, 0) && forall e :: e in log ==> e.Skipped?
    ensures log != [] ==> Refuted(f, 0, 0)
    ensures LogBytes([]) == []
  {
    hide Refuted;
    assert log != [] ==> log[..0] == [] && log[0] in log && Backed(log[0], f[|LogBytes(log[..0])|..], 0, 0);
    assert f[0..] == f;
  }
}
