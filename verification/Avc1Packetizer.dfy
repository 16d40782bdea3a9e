/** The packetizer of avc1_packetizer.c: frames of length-prefixed NAL units, as ISO 14496-15
    stores them, come out in the start-code form of Annex B of ITU-T H.264. */
module Avc1Packetizer {
  import opened Basics
  import opened Bytestream

  const START_CODE: Bytes := [0, 0, 0, 1]

  /** Non-empty NAL units with l-byte length fields fill s from o to e exactly. */
  predicate WellFormed(s: Bytes, o: nat, e: nat, l: nat)
    requires o <= e <= |s| && l > 0
    decreases e - o
  {
    o == e || (o + l <= e && BigEndianAt(s, o, l) > 0 && o + l + BigEndianAt(s, o, l) <= e
               && WellFormed(s, o + l + BigEndianAt(s, o, l), e, l))
  }

  /** The Annex B form of a well-formed stretch of bytes. */
  function AnnexB(s: Bytes, o: nat, e: nat, l: nat): Bytes
    requires o <= e <= |s| && l > 0 && WellFormed(s, o, e, l)
    decreases e - o
  {
    if o == e then []
    else var n := BigEndianAt(s, o, l);
      START_CODE + s[o + l..o + l + n] + AnnexB(s, o + l + n, e, l)
  }

  // ---------- the meaning of the two forms ----------

  lemma FormUnfolds(s: Bytes, o: nat, e: nat, l: nat)
    requires o <= e <= |s| && l > 0
    ensures WellFormed(s, o, e, l)
            <==> (o == e || (o + l <= e && BigEndianAt(s, o, l) > 0 && o + l + BigEndianAt(s, o, l) <= e
                             && WellFormed(s, o + l + BigEndianAt(s, o, l), e, l)))
    ensures WellFormed(s, o, e, l) ==>
              AnnexB(s, o, e, l) == (if o == e then [] else var n := BigEndianAt(s, o, l);
                                       START_CODE + s[o + l..o + l + n] + AnnexB(s, o + l + n, e, l))
  {
  }

  lemma SameNal(s: Bytes, t: Bytes, o: nat, p: nat, n: nat, l: nat, k: nat)
    requires o + n <= |s| && p + n <= |t| && s[o..o + n] == t[p..p + n] && l <= k <= n
    ensures s[o + l..o + k] == t[p + l..p + k] && s[o + k..o + k + (n - k)] == t[p + k..p + k + (n - k)]
  {
    SameSlice(s, t, o, p, n, l, k - l);
    SameSlice(s, t, o, p, n, k, n - k);
  }

  /** Only the bytes between o and e matter, not where they lie. */
  lemma {:induction false} FormSame(s: Bytes, t: Bytes, o: nat, p: nat, n: nat, l: nat)
    requires o + n <= |s| && p + n <= |t| && l > 0 && s[o..o + n] == t[p..p + n]
    ensures WellFormed(s, o, o + n, l) <==> WellFormed(t, p, p + n, l)
    ensures WellFormed(s, o, o + n, l) ==> AnnexB(s, o, o + n, l) == AnnexB(t, p, p + n, l)
    decreases n
  {
    hide BigEndianAt, WellFormed, AnnexB;
    FormUnfolds(s, o, o + n, l);
    FormUnfolds(t, p, p + n, l);
    if n == 0 || l > n {
    } else {
      SameSlice(s, t, o, p, n, 0, l);
      BigEndianSame(s, t, o, p, l);
      var k := l + BigEndianAt(s, o, l);
      if k <= n {
        SameNal(s, t, o, p, n, l, k);
        FormSame(s, t, o + k, p + k, n - k, l);
      }
    }
  }

  function LengthPrefixed(nals: seq<Bytes>, l: nat): Bytes {
    if nals == [] then [] else BigEndian(|nals[0]|, l) + nals[0] + LengthPrefixed(nals[1..], l)
  }

  function StartCoded(nals: seq<Bytes>): Bytes {
    if nals == [] then [] else START_CODE + nals[0] + StartCoded(nals[1..])
  }

  /** Whatever non-empty NAL units a frame was made of, for any length size, its Annex B form
      is each of them behind a start code, in order. */
  lemma {:induction false} AnnexBOfNals(nals: seq<Bytes>, l: nat)
    requires l > 0 && forall i :: 0 <= i < |nals| ==> 0 < |nals[i]| < Pow2(8 * l)
    ensures var f := LengthPrefixed(nals, l);
            WellFormed(f, 0, |f|, l) && AnnexB(f, 0, |f|, l) == StartCoded(nals)
    decreases |nals|
  {
    if nals == [] {
    } else {
      AnnexBOfNals(nals[1..], l);
      FirstNal(nals[0], LengthPrefixed(nals[1..], l), l);
    }
  }

  /** Where NAL unit k stands when each has so many bytes in front. */
  function NalPlace(nals: seq<Bytes>, front: nat, k: nat): nat
    requires k <= |nals|
  {
    if k == 0 then 0 else front + |nals[0]| + NalPlace(nals[1..], front, k - 1)
  }

  /** In the output form NAL unit k follows three zero bytes and a one. */
  lemma {:induction false} StartCodedAt(nals: seq<Bytes>, k: nat)
    requires k < |nals|
    ensures var at, s := NalPlace(nals, 4, k), StartCoded(nals);
            at + 4 + |nals[k]| <= |s| && s[at..at + 4] == [0, 0, 0, 1] && s[at + 4..at + 4 + |nals[k]|] == nals[k]
    decreases k
  {
    var rest := StartCoded(nals[1..]);
    if k == 0 {
      ThreeParts(START_CODE, nals[0], rest);
    } else {
      StartCodedAt(nals[1..], k - 1);
      FromBehind(START_CODE + nals[0], rest, NalPlace(nals[1..], 4, k - 1), 4);
      FromBehind(START_CODE + nals[0], rest, NalPlace(nals[1..], 4, k - 1) + 4, |nals[k]|);
    }
  }

  /** In a frame it follows its length, the most significant byte first. */
  lemma {:induction false} LengthPrefixedAt(nals: seq<Bytes>, l: nat, k: nat)
    requires k < |nals|
    ensures var at, s := NalPlace(nals, l, k), LengthPrefixed(nals, l);
            at + l + |nals[k]| <= |s| && s[at..at + l] == BigEndian(|nals[k]|, l) && s[at + l..at + l + |nals[k]|] == nals[k]
    decreases k
  {
    hide BigEndian;
    var n, rest := BigEndian(|nals[0]|, l), LengthPrefixed(nals[1..], l);
    if k == 0 {
      ThreeParts(n, nals[0], rest);
    } else {
      LengthPrefixedAt(nals[1..], l, k - 1);
      FromBehind(n + nals[0], rest, NalPlace(nals[1..], l, k - 1), l);
      FromBehind(n + nals[0], rest, NalPlace(nals[1..], l, k - 1) + l, |nals[k]|);
    }
  }

  lemma FromBehind(a: Bytes, b: Bytes, p: nat, n: nat)
    requires p + n <= |b|
    ensures (a + b)[|a| + p..|a| + p + n] == b[p..p + n]
  {
  }

  lemma ThreeParts(a: Bytes, b: Bytes, c: Bytes)
    ensures var f := a + b + c;
            && f[0..0 + |a|] == a == a[0..0 + |a|] && f[|a|..|a| + |b|] == b
            && f[|a| + |b|..|a| + |b| + |c|] == c == c[0..0 + |c|]
  {
  }

  lemma AnnexBStep(s: Bytes, o: nat, e: nat, l: nat)
    requires l > 0 && o + l <= e <= |s| && BigEndianAt(s, o, l) > 0 && o + l + BigEndianAt(s, o, l) <= e
    requires WellFormed(s, o + l + BigEndianAt(s, o, l), e, l)
    ensures var n := BigEndianAt(s, o, l);
            WellFormed(s, o, e, l)
            && AnnexB(s, o, e, l) == START_CODE + s[o + l..o + l + n] + AnnexB(s, o + l + n, e, l)
  {
  }

  lemma FirstNal(nal: Bytes, rest: Bytes, l: nat)
    requires l > 0 && 0 < |nal| < Pow2(8 * l) && WellFormed(rest, 0, |rest|, l)
    ensures var f := BigEndian(|nal|, l) + nal + rest;
            WellFormed(f, 0, |f|, l) && AnnexB(f, 0, |f|, l) == START_CODE + nal + AnnexB(rest, 0, |rest|, l)
  {
    hide WellFormed, AnnexB, BigEndianAt, BigEndian;
    var f, n := BigEndian(|nal|, l) + nal + rest, |nal|;
    BigEndianRoundTrip(n, l);
    ThreeParts(BigEndian(n, l), nal, rest);
    BigEndianSame(f, BigEndian(n, l), 0, 0, l);
    FormSame(f, rest, l + n, 0, |rest|, l);
    AnnexBStep(f, 0, |f|, l);
  }

  // ---------- what is still to come out ----------

  /** A piece of start code, nal bytes of its NAL unit, then whole NAL units up to e. */
  function Pending(code: nat, nal: nat, s: Bytes, o: nat, e: nat, l: nat): Bytes
    requires code <= 4 && o + nal <= e <= |s| && l > 0 && WellFormed(s, o + nal, e, l)
  {
    START_CODE[4 - code..] + s[o..o + nal] + AnnexB(s, o + nal, e, l)
  }

  /** The shape of what is still to come out; a NAL unit whose start code is unfinished is not empty. */
  predicate Due(code: nat, nal: nat, s: Bytes, o: nat, e: nat, l: nat) {
    code <= 4 && (code > 0 ==> nal > 0) && o + nal <= e <= |s| && l > 0 && WellFormed(s, o + nal, e, l)
  }

  lemma PendingCode(code: nat, n: nat, nal: nat, s: Bytes, o: nat, e: nat, l: nat)
    requires n <= code <= 4 && o + nal <= e <= |s| && l > 0 && WellFormed(s, o + nal, e, l)
    ensures Pending(code, nal, s, o, e, l) == START_CODE[4 - code..][..n] + Pending(code - n, nal, s, o, e, l)
  {
  }

  lemma PendingNal(nal: nat, m: nat, s: Bytes, o: nat, e: nat, l: nat)
    requires m <= nal && o + nal <= e <= |s| && l > 0 && WellFormed(s, o + nal, e, l)
    ensures Pending(0, nal, s, o, e, l) == s[o..o + m] + Pending(0, nal - m, s, o + m, e, l)
  {
    assert s[o..o + nal] == s[o..o + m] + s[o + m..o + nal];
  }

  lemma PendingWhole(s: Bytes, o: nat, e: nat, l: nat)
    requires o <= e <= |s| && l > 0 && WellFormed(s, o, e, l)
    ensures Pending(0, 0, s, o, e, l) == AnnexB(s, o, e, l)
    ensures o < e ==> AnnexB(s, o, e, l) != []
  {
    assert START_CODE[4..] + s[o..o] == [];
  }

  /** n bytes of start code and m of the NAL unit come out. */
  lemma PendingRound(code: nat, n: nat, nal: nat, m: nat, s: Bytes, o: nat, e: nat, l: nat)
    requires n <= code <= 4 && m <= nal && o + nal <= e <= |s| && l > 0 && WellFormed(s, o + nal, e, l)
    requires m > 0 ==> n == code
    ensures Pending(code, nal, s, o, e, l)
            == START_CODE[4 - code..][..n] + s[o..o + m] + Pending(code - n, nal - m, s, o + m, e, l)
  {
    PendingCode(code, n, nal, s, o, e, l);
    if m > 0 { PendingNal(nal, m, s, o, e, l); } else { assert s[o..o + 0] == []; }
  }

  /** Reading a length field turns whole NAL units into a start code and a payload. */
  lemma PendingLength(s: Bytes, o: nat, e: nat, l: nat)
    requires Due(0, 0, s, o, e, l) && Pending(0, 0, s, o, e, l) != []
    ensures l > 0 && o + l <= e <= |s| && BigEndianAt(s, o, l) + 4 <= |Pending(0, 0, s, o, e, l)|
    ensures Due(4, BigEndianAt(s, o, l), s, o + l, e, l)
    ensures Pending(0, 0, s, o, e, l) == Pending(4, BigEndianAt(s, o, l), s, o + l, e, l)
  {
    hide BigEndianAt, WellFormed, AnnexB;
    assert s[o..o + 0] == [];
    PendingWhole(s, o, e, l);
    FormUnfolds(s, o, e, l);
    assert START_CODE[0..] == START_CODE;
  }

  lemma PendingEmpty(code: nat, nal: nat, s: Bytes, o: nat, e: nat, l: nat)
    requires Due(code, nal, s, o, e, l)
    ensures Pending(code, nal, s, o, e, l) == [] ==> o == e && code == 0 && nal == 0
  {
  }

  /** Moving the bytes of the frame elsewhere changes nothing that is due. */
  lemma DueSame(code: nat, nal: nat, s: Bytes, t: Bytes, o: nat, p: nat, n: nat, l: nat)
    requires o + n <= |s| && p + n <= |t| && s[o..o + n] == t[p..p + n]
    requires Due(code, nal, s, o, o + n, l)
    ensures Due(code, nal, t, p, p + n, l)
    ensures Pending(code, nal, s, o, o + n, l) == Pending(code, nal, t, p, p + n, l)
  {
    hide WellFormed, AnnexB;
    SameNal(s, t, o, p, n, 0, nal);
    FormSame(s, t, o + nal, p + nal, n - nal, l);
  }

  // ---------- measuring ----------

  /** The NAL units before p take total bytes in Annex B form. */
  predicate Measured(s: Bytes, o: nat, p: nat, e: nat, total: nat, l: nat)
    requires o <= e <= |s| && l > 0 && WellFormed(s, o, e, l)
  {
    p <= e && WellFormed(s, p, e, l) && total + |AnnexB(s, p, e, l)| == |AnnexB(s, o, e, l)|
  }

  lemma MeasuredEnds(s: Bytes, o: nat, e: nat, total: nat, l: nat)
    requires o <= e <= |s| && l > 0 && WellFormed(s, o, e, l)
    ensures Measured(s, o, o, e, 0, l)
    ensures Measured(s, o, e, e, total, l) ==> total == |AnnexB(s, o, e, l)|
  {
  }

  lemma MeasuredStep(s: Bytes, o: nat, p: nat, e: nat, total: nat, l: nat)
    requires o <= e <= |s| && l > 0 && WellFormed(s, o, e, l) && Measured(s, o, p, e, total, l) && p < e
    ensures p + l < e && Measured(s, o, p + l + BigEndianAt(s, p, l), e, total + BigEndianAt(s, p, l) + 4, l)
  {
  }

  // ---------- frames in the packet list ----------

  /** The first packet from k on that ends a frame, or the end of the list. */
  function EndAt(ps: seq<Packet>, k: nat): (e: nat)
    requires k <= |ps|
    ensures k <= e <= |ps| && (e < |ps| ==> ps[e].frameEnd)
    ensures forall i :: k <= i < e ==> !ps[i].frameEnd
    decreases |ps| - k
  {
    if k == |ps| || ps[k].frameEnd then k else EndAt(ps, k + 1)
  }

  lemma {:induction false} EndUnique(ps: seq<Packet>, k: nat, e: nat)
    requires k <= e < |ps| && ps[e].frameEnd && forall i :: k <= i < e ==> !ps[i].frameEnd
    ensures EndAt(ps, k) == e
  {
  }

  lemma {:induction false} EndAtPush(ps: seq<Packet>, p: Packet, k: nat)
    requires k <= |ps| && EndAt(ps, k) < |ps|
    ensures EndAt(ps + [p], k) == EndAt(ps, k)
  {
    EndUnique(ps + [p], k, EndAt(ps, k));
  }

  lemma {:induction false} EndAtPop(ps: seq<Packet>, k: nat)
    requires 0 < k <= |ps| && EndAt(ps, k) < |ps|
    ensures EndAt(ps[1..], k - 1) == EndAt(ps, k) - 1
  {
    EndUnique(ps[1..], k - 1, EndAt(ps, k) - 1);
  }

  /** The bytes of the pieces, in order. */
  function Joined(pieces: seq<Piece>): Bytes {
    if pieces == [] then [] else Joined(pieces[..|pieces| - 1]) + pieces[|pieces| - 1].data
  }

  /** The room in buffers of those sizes. */
  function Space(sizes: seq<nat>): nat {
    if sizes == [] then 0 else Space(sizes[..|sizes| - 1]) + sizes[|sizes| - 1]
  }

  lemma SpaceNothing(sizes: seq<nat>)
    ensures Space(sizes[..0]) == 0 && sizes[..|sizes|] == sizes
  {
  }

  lemma SpaceStep(sizes: seq<nat>, i: nat)
    requires i < |sizes|
    ensures Space(sizes[..i + 1]) == Space(sizes[..i]) + sizes[i]
  {
    assert sizes[..i + 1][..i] == sizes[..i];
  }

  lemma {:induction false} SpaceMono(sizes: seq<nat>, i: nat)
    requires i <= |sizes|
    ensures Space(sizes[..i]) <= Space(sizes)
    decreases |sizes| - i
  {
    if i == |sizes| {
      assert sizes[..i] == sizes;
    } else {
      SpaceStep(sizes, i);
      SpaceMono(sizes, i + 1);
    }
  }

  datatype Status = Success | Incomplete
  datatype ModuleState = FrameWait | BufferInit | NalStart | NalData
  datatype Piece = Piece(data: Bytes, start: bool, end: bool)

  class Packetizer {
    const stream: Stream
    const lengthSize: nat
    var state: ModuleState
    var frameSize: nat
    var bytesRead: nat
    var startCodeLeft: nat
    var nalLeft: nat

    /** A whole frame is at hand. */
    ghost predicate Complete()
      requires stream.Valid()
      reads stream, stream.packets
    {
      EndAt(stream.packets, stream.cur) < |stream.packets|
    }

    ghost function AllBytes(): Bytes
      reads stream
    {
      Flat(stream.packets, 0)
    }

    /** Where the frame at hand ends among the bytes of the list. */
    ghost function FrameEnd(): (e: nat)
      requires stream.Valid() && Complete()
      reads stream, stream.packets
      ensures stream.Position() <= e <= |AllBytes()|
    {
      var k := EndAt(stream.packets, stream.cur);
      FlatLength(stream.packets, 0);
      BeforeMono(stream.packets, k + 1, |stream.packets|);
      BeforeMono(stream.packets, stream.cur + 1, k + 1);
      Before(stream.packets, k + 1)
    }

    /** The packet that ends the frame holds some of it. */
    ghost predicate EndsInData()
      requires stream.Valid() && Complete()
      reads stream, stream.packets
    {
      stream.packets[EndAt(stream.packets, stream.cur)].data != []
    }

    ghost predicate InFrame()
      reads this, stream, stream.packets
    {
      && stream.Valid() && 1 <= lengthSize <= 4 && Complete() && EndsInData()
      && startCodeLeft <= 4 && (startCodeLeft > 0 ==> nalLeft > 0)
      && stream.Position() + nalLeft <= FrameEnd()
      && WellFormed(AllBytes(), stream.Position() + nalLeft, FrameEnd(), lengthSize)
    }

    /** The bytes of the frame still to come out. */
    ghost function Remaining(): Bytes
      requires InFrame()
      reads this, stream, stream.packets
    {
      Pending(startCodeLeft, nalLeft, AllBytes(), stream.Position(), FrameEnd(), lengthSize)
    }

    ghost predicate Valid()
      reads this, stream, stream.packets
    {
      && stream.Valid() && 1 <= lengthSize <= 4
      && (state == FrameWait || state == BufferInit)
      && (state == FrameWait ==> bytesRead == 0 && frameSize == 0 && stream.offset == 0)
      && (state == BufferInit ==> InFrame() && bytesRead + |Remaining()| == frameSize && Remaining() != [])
    }

    /** The frame at hand, if there is one, is well formed and its last packet is not empty. */
    ghost predicate HeadOk()
      requires Valid()
      reads this, stream, stream.packets
    {
      state == FrameWait && Complete() ==>
        EndsInData() && WellFormed(AllBytes(), stream.Position(), FrameEnd(), lengthSize)
    }

    /** What the packetizer has yet to emit for the frame at hand. */
    ghost function Output(): Bytes
      requires Valid() && HeadOk() && Complete()
      reads this, stream, stream.packets
    {
      if state == FrameWait then AnnexB(AllBytes(), stream.Position(), FrameEnd(), lengthSize) else Remaining()
    }

    /** The bytes of the frame at hand. */
    ghost function FrameBytes(): Bytes
      requires stream.Valid() && Complete()
      reads stream, stream.packets
    {
      AllBytes()[stream.Position()..FrameEnd()]
    }

    /** A frame made of NAL units comes out as those units behind start codes, wherever in the list
        its bytes lie and however they are cut into packets. */
    lemma FrameOfNals(nals: seq<Bytes>)
      requires Valid() && state == FrameWait && Complete() && EndsInData()
      requires forall i :: 0 <= i < |nals| ==> 0 < |nals[i]| < Pow2(8 * lengthSize)
      requires FrameBytes() == LengthPrefixed(nals, lengthSize)
      ensures HeadOk() && Output() == StartCoded(nals)
    {
      hide WellFormed, AnnexB, LengthPrefixed, StartCoded, Pending, Flat, Before, EndAt;
      var f, s, o, e := LengthPrefixed(nals, lengthSize), AllBytes(), stream.Position(), FrameEnd();
      AnnexBOfNals(nals, lengthSize);
      assert f[0..0 + |f|] == f == s[o..o + |f|];
      FormSame(f, s, 0, o, |f|, lengthSize);
    }

    constructor (stream: Stream, lengthSize: nat)
      requires stream.Valid() && stream.offset == 0 && 1 <= lengthSize <= 4
      ensures Valid() && state == FrameWait && this.stream == stream && this.lengthSize == lengthSize
    {
      this.stream, this.lengthSize := stream, lengthSize;
      state, frameSize, bytesRead, startCodeLeft, nalLeft := FrameWait, 0, 0, 0, 0;
    }

    /** Take n bytes of the frame at hand. */
    method TakeFrame(n: nat) returns (d: Bytes)
      requires stream.Valid() && Complete() && 0 < n && stream.Position() + n <= FrameEnd()
      modifies stream`current, stream`currentOffset, stream`offset, stream`cur
      ensures stream.Valid() && Complete() && EndsInData() == old(EndsInData()) && FrameEnd() == old(FrameEnd())
      ensures stream.Position() == old(stream.Position()) + n && stream.drift == old(stream.drift)
      ensures d == AllBytes()[old(stream.Position())..old(stream.Position()) + n]
    {
      ghost var ps, e, p := stream.packets, EndAt(stream.packets, stream.cur), stream.Position();
      var ok;
      ok, d := stream.Get(n);
      if stream.cur > e { BeforeMono(ps, e + 1, stream.cur); }
      EndUnique(ps, stream.cur, e);
      assert AllBytes()[p..][..n] == AllBytes()[p..p + n];
    }

    /** Look for the end of the frame at hand, adding up packet sizes. */
    method FindFrame() returns (complete: bool, size: nat)
      requires stream.Valid() && stream.offset == 0
      ensures complete <==> Complete()
      ensures complete ==> stream.Position() + size == FrameEnd()
    {
      ghost var ps := stream.packets;
      var packet := stream.current;
      ghost var k: nat := stream.cur;
      size := 0;
      while packet != null && !packet.frameEnd
        invariant stream.cur <= k <= |ps| && packet == (if k < |ps| then ps[k] else null)
        invariant EndAt(ps, k) == EndAt(ps, stream.cur)
        invariant Before(ps, stream.cur) + size == Before(ps, k)
        decreases |ps| - k
      {
        size := size + |packet.data|;
        packet, k := packet.next, k + 1;
      }
      complete := packet != null;
      if complete { size := size + |packet.data|; }
    }

    /** The number in the length field at an offset into the unread bytes. */
    method PeekLength(offset: nat) returns (n: nat)
      requires stream.Valid() && stream.Position() + offset + lengthSize <= |AllBytes()| && lengthSize > 0
      ensures n == BigEndianAt(AllBytes(), stream.Position() + offset, lengthSize)
    {
      ghost var s, p := AllBytes(), stream.Position();
      var ok, data := stream.PeekAt(offset, lengthSize);
      assert s[p..][offset..offset + lengthSize] == s[p + offset..p + offset + lengthSize];
      assert data[0..0 + lengthSize] == data;
      BigEndianSame(s, data, p + offset, 0, lengthSize);
      n := BigEndianAt(data, 0, lengthSize);
    }

    /** Add up what the NAL units of the frame will take in Annex B form. */
    method MeasureFrame(size: nat) returns (total: nat)
      requires stream.Valid() && 1 <= lengthSize <= 4 && Complete() && stream.Position() + size == FrameEnd()
      requires WellFormed(AllBytes(), stream.Position(), FrameEnd(), lengthSize)
      ensures total == |AnnexB(AllBytes(), stream.Position(), FrameEnd(), lengthSize)|
    {
      hide AnnexB, WellFormed, BigEndianAt;
      ghost var s, o, e := AllBytes(), stream.Position(), FrameEnd();
      var offset := 0;
      total := 0;
      MeasuredEnds(s, o, e, 0, lengthSize);
      while offset + lengthSize < size
        invariant Measured(s, o, o + offset, e, total, lengthSize)
        decreases size - offset
      {
        MeasuredStep(s, o, o + offset, e, total, lengthSize);
        var nal := PeekLength(offset);
        offset := offset + lengthSize;
        if offset + nal > size { nal := size - offset; }
        offset := offset + nal;
        total := total + nal + 4;
      }
      if offset < size { MeasuredStep(s, o, o + offset, e, total, lengthSize); }
      MeasuredEnds(s, o, e, total, lengthSize);
    }

    /** The read pointer stands at byte o of s, in a frame that ends at e. */
    ghost predicate Reading(s: Bytes, o: nat, e: nat)
      reads stream, stream.packets
    {
      stream.Valid() && Complete() && EndsInData() && AllBytes() == s && stream.Position() == o && FrameEnd() == e
    }

    /** Read the length of the next NAL unit; a longer one than the frame holds would be cut. */
    method StartNal(ghost s: Bytes, ghost o: nat, ghost e: nat)
      requires Reading(s, o, e) && lengthSize > 0 && o + lengthSize <= e
      requires bytesRead + BigEndianAt(s, o, lengthSize) + 4 <= frameSize
      modifies `nalLeft, `startCodeLeft, stream`current, stream`currentOffset, stream`offset, stream`cur
      ensures Reading(s, o + lengthSize, e) && startCodeLeft == 4 && nalLeft == BigEndianAt(s, o, lengthSize)
    {
      var data := TakeFrame(lengthSize);
      assert data[0..0 + lengthSize] == data;
      BigEndianSame(s, data, o, 0, lengthSize);
      nalLeft := BigEndianAt(data, 0, lengthSize);
      if bytesRead + nalLeft + 4 > frameSize {
        assert false;  // the clamp here is for frames that are not well formed
      }
      startCodeLeft := 4;
    }

    /** Emit what fits of the start code. */
    method EmitCode(space: nat) returns (d: Bytes)
      requires startCodeLeft <= 4
      modifies `startCodeLeft, `bytesRead
      ensures |d| == (if space < old(startCodeLeft) then space else old(startCodeLeft))
      ensures d == START_CODE[4 - old(startCodeLeft)..][..|d|]
      ensures startCodeLeft == old(startCodeLeft) - |d| && bytesRead == old(bytesRead) + |d|
    {
      var n := if space < startCodeLeft then space else startCodeLeft;
      d := START_CODE[4 - startCodeLeft..][..n];
      startCodeLeft := startCodeLeft - n;
      bytesRead := bytesRead + n;
    }

    /** Emit what fits of the NAL unit. */
    method EmitNal(space: nat, ghost s: Bytes, ghost o: nat, ghost e: nat) returns (d: Bytes)
      requires Reading(s, o, e) && o + nalLeft <= e
      modifies `nalLeft, `bytesRead, stream`current, stream`currentOffset, stream`offset, stream`cur
      ensures |d| == (if space < old(nalLeft) then space else old(nalLeft))
      ensures Reading(s, o + |d|, e) && d == s[o..o + |d|]
      ensures nalLeft == old(nalLeft) - |d| && bytesRead == old(bytesRead) + |d|
    {
      var m := if space < nalLeft then space else nalLeft;
      d := [];
      if m > 0 {
        d := TakeFrame(m);
        nalLeft := nalLeft - m;
        bytesRead := bytesRead + m;
      }
    }

    /** All of the frame is out: move on to the packet after it. */
    method FinishFrame(ghost s: Bytes, ghost e: nat)
      requires Reading(s, e, e)
      modifies stream`current, stream`currentOffset, stream`offset, stream`cur, stream`drift
      ensures stream.Valid() && stream.offset == 0 && stream.Position() == e
    {
      LastPacket();
      var ok := stream.SkipPacket();
    }

    /** When the frame has been read, the read pointer is at the end of its last packet. */
    lemma LastPacket()
      requires stream.Valid() && Complete() && EndsInData() && stream.Position() == FrameEnd()
      ensures stream.cur == EndAt(stream.packets, stream.cur)
      ensures stream.offset == |stream.packets[stream.cur].data|
    {
      var ps, e := stream.packets, EndAt(stream.packets, stream.cur);
      if stream.cur < e { BeforeMono(ps, stream.cur + 1, e); }
    }

    /** A frame that ends in data still at hand is not empty. */
    lemma LastPacketNotRead()
      requires stream.Valid() && Complete() && EndsInData() && stream.offset == 0
      ensures stream.Position() < FrameEnd()
    {
      BeforeMono(stream.packets, stream.cur, EndAt(stream.packets, stream.cur));
    }

    /** One round of output: start code, then NAL unit, as far as the space goes. */
    method EmitRound(space: nat, ghost s: Bytes, ghost o: nat, ghost e: nat) returns (d: Bytes, ghost o': nat)
      requires Reading(s, o, e) && Due(startCodeLeft, nalLeft, s, o, e, lengthSize)
      modifies `nalLeft, `startCodeLeft, `bytesRead
      modifies stream`current, stream`currentOffset, stream`offset, stream`cur
      ensures o <= o' && Reading(s, o', e) && Due(startCodeLeft, nalLeft, s, o', e, lengthSize)
      ensures |d| <= space && (|d| < space ==> startCodeLeft == 0 && nalLeft == 0)
      ensures space > 0 && (old(startCodeLeft) > 0 || old(nalLeft) > 0) ==> d != []
      ensures Pending(old(startCodeLeft), old(nalLeft), s, o, e, lengthSize)
              == d + Pending(startCodeLeft, nalLeft, s, o', e, lengthSize)
      ensures bytesRead == old(bytesRead) + |d|
    {
      hide Reading, AnnexB, WellFormed, Pending, BigEndianAt, Flat, Before, Complete, EndsInData, EndAt;
      ghost var code, nal := startCodeLeft, nalLeft;
      var c := EmitCode(space);
      var u := EmitNal(space - |c|, s, o, e);
      PendingRound(code, |c|, nal, |u|, s, o, e, lengthSize);
      o' := o + |u|;
      d := c + u;
    }

    /** Read a length field when the next NAL unit is due. */
    method NextNal(ghost s: Bytes, ghost o: nat, ghost e: nat) returns (ghost o': nat)
      requires Reading(s, o, e) && Due(0, 0, s, o, e, lengthSize) && Pending(0, 0, s, o, e, lengthSize) != []
      requires bytesRead + |Pending(0, 0, s, o, e, lengthSize)| == frameSize
      modifies `nalLeft, `startCodeLeft, stream`current, stream`currentOffset, stream`offset, stream`cur
      ensures Reading(s, o', e) && Due(startCodeLeft, nalLeft, s, o', e, lengthSize) && startCodeLeft > 0
      ensures Pending(0, 0, s, o, e, lengthSize) == Pending(startCodeLeft, nalLeft, s, o', e, lengthSize)
    {
      hide Due, Pending, AnnexB, WellFormed, BigEndianAt, Reading;
      PendingLength(s, o, e, lengthSize);
      StartNal(s, o, e);
      o' := o + lengthSize;
    }

    /** The emitting states: start codes and NAL units until the buffer is full or the frame is out. */
    method EmitPieces(bufferSize: nat, ghost s: Bytes, ghost o: nat, ghost e: nat)
      returns (d: Bytes, ended: bool, ghost p: nat)
      requires Reading(s, o, e) && Due(startCodeLeft, nalLeft, s, o, e, lengthSize)
      requires Pending(startCodeLeft, nalLeft, s, o, e, lengthSize) != []
      requires bytesRead + |Pending(startCodeLeft, nalLeft, s, o, e, lengthSize)| == frameSize
      modifies this, stream`current, stream`currentOffset, stream`offset, stream`cur, stream`drift
      ensures var r := old(Pending(startCodeLeft, nalLeft, s, o, e, lengthSize));
              |d| <= bufferSize && |d| <= |r| && d == r[..|d|] && (ended <==> |d| == |r|)
              && (!ended ==> Due(startCodeLeft, nalLeft, s, p, e, lengthSize)
                             && r[|d|..] == Pending(startCodeLeft, nalLeft, s, p, e, lengthSize))
      ensures ended ==> state == FrameWait && stream.Valid() && stream.Position() == e && stream.offset == 0
                        && frameSize == 0 && bytesRead == 0
      ensures !ended ==> |d| == bufferSize && state == BufferInit && Reading(s, p, e)
                         && bytesRead == old(bytesRead) + |d| && frameSize == old(frameSize)
    {
      hide Reading, Pending, AnnexB, WellFormed, BigEndianAt, Flat, Before, Complete, EndsInData, EndAt;
      hide Stream.Valid, Stream.Linked, Stream.Position;
      ghost var r := Pending(startCodeLeft, nalLeft, s, o, e, lengthSize);
      p := o;
      d := [];
      state := if nalLeft > 0 || bytesRead == frameSize then NalData else NalStart;
      assert Pending(startCodeLeft, nalLeft, s, o, e, lengthSize) == [] + Pending(startCodeLeft, nalLeft, s, o, e, lengthSize);
      while true
        invariant Reading(s, p, e) && Due(startCodeLeft, nalLeft, s, p, e, lengthSize)
        invariant r == d + Pending(startCodeLeft, nalLeft, s, p, e, lengthSize) && |d| < |r|
        invariant |d| <= bufferSize && bytesRead == old(bytesRead) + |d| && bytesRead + |r| - |d| == frameSize
        invariant state == NalStart ==> startCodeLeft == 0 && nalLeft == 0
        invariant startCodeLeft > 0 ==> nalLeft > 0
        invariant d != [] ==> |d| < bufferSize
        invariant state == NalStart || (state == NalData && nalLeft > 0)
        invariant frameSize == old(frameSize)
        decreases |r| - |d|
      {
        if state == NalStart {
          p := NextNal(s, p, e);
          state := NalData;
        }
        ghost var before := Pending(startCodeLeft, nalLeft, s, p, e, lengthSize);
        var more;
        more, p := EmitRound(bufferSize - |d|, s, p, e);
        Associates(d, more, Pending(startCodeLeft, nalLeft, s, p, e, lengthSize));
        d := d + more;
        if bytesRead == frameSize {
          PendingEmpty(startCodeLeft, nalLeft, s, p, e, lengthSize);
          FinishFrame(s, e);
          state, frameSize, bytesRead := FrameWait, 0, 0;
          return d, true, p;
        }
        if |d| == bufferSize {
          state := BufferInit;
          return d, false, p;
        }
        state := NalStart;
      }
    }

    /** A whole frame has arrived: measure it and make ready to emit. */
    method Prepare(size: nat)
      requires Valid() && state == FrameWait && Complete() && HeadOk() && stream.Position() + size == FrameEnd()
      modifies `nalLeft, `startCodeLeft, `frameSize, `state
      ensures state == BufferInit && Valid() && Remaining() == old(Output()) && bytesRead == 0
    {
      hide AnnexB, WellFormed;
      nalLeft := 0;
      startCodeLeft := 0;
      PendingWhole(AllBytes(), stream.Position(), FrameEnd(), lengthSize);
      LastPacketNotRead();
      frameSize := MeasureFrame(size);
      state := BufferInit;
    }

    /** Emit the next bytes of the frame. */
    method Emit(bufferSize: nat) returns (piece: Piece)
      requires Valid() && state == BufferInit
      modifies this, stream`current, stream`currentOffset, stream`offset, stream`cur, stream`drift
      ensures Valid()
      ensures |piece.data| == (if bufferSize < |old(Remaining())| then bufferSize else |old(Remaining())|)
      ensures piece.data == old(Remaining())[..|piece.data|]
      ensures piece.start == (old(bytesRead) == 0) && piece.end == (|piece.data| == |old(Remaining())|)
      ensures piece.end ==> state == FrameWait && stream.Position() == old(FrameEnd())
      ensures !piece.end ==> state == BufferInit && Remaining() == old(Remaining())[|piece.data|..]
                             && bytesRead == old(bytesRead) + |piece.data| && FrameEnd() == old(FrameEnd())
    {
      hide Pending, AnnexB, WellFormed;
      ghost var p;
      var first := bytesRead == 0;
      var d, ended;
      d, ended, p := EmitPieces(bufferSize, AllBytes(), stream.Position(), FrameEnd());
      piece := Piece(d, first, ended);
    }

    /** avc1_packetizer_packetize. Without a whole frame nothing happens. Otherwise the call
        reports the size left (info) or emits the next bytes of the frame's Annex B form, as
        many as the buffer takes; the first piece of a frame and only it carries the start
        flag, the last and only it the end flag. */
    method Packetize(bufferSize: nat, info: bool) returns (status: Status, size: nat, piece: Piece)
      requires Valid() && HeadOk()
      modifies this, stream`current, stream`currentOffset, stream`offset, stream`cur, stream`drift
      ensures Valid() && (status == Success <==> old(Complete()))
      ensures status == Incomplete ==> unchanged(this) && unchanged(stream)
      ensures status == Success && info ==> size == |old(Output())| && bytesRead == old(bytesRead)
      ensures status == Success && info ==> state == BufferInit && Remaining() == old(Output())
      ensures status == Success && !info ==>
                size == |piece.data| == (if bufferSize < |old(Output())| then bufferSize else |old(Output())|)
                && piece.data == old(Output())[..size]
      ensures status == Success ==> piece.start == (old(bytesRead) == 0)
      ensures status == Success && !info ==> piece.end == (size == |old(Output())|)
      ensures status == Success && !info && piece.end ==> state == FrameWait && stream.Position() == old(FrameEnd())
      ensures status == Success && !info && !piece.end ==>
                state == BufferInit && Remaining() == old(Output())[size..] && bytesRead == old(bytesRead) + size
                && FrameEnd() == old(FrameEnd())
    {
      hide Pending, AnnexB, WellFormed;
      size, piece := 0, Piece([], false, false);
      if state == FrameWait {
        var complete, n := FindFrame();
        if !complete { return Incomplete, size, piece; }
        Prepare(n);
      }
      status := Success;
      size := frameSize - bytesRead;
      piece := Piece([], bytesRead == 0, true);
      if info { return; }
      piece := Emit(bufferSize);
      size := |piece.data|;
    }

    /** The next piece of a whole frame, seen as what is left of the frame's output. */
    method NextPiece(bufferSize: nat) returns (piece: Piece)
      requires Valid() && HeadOk() && Complete() && bufferSize > 0
      modifies this, stream`current, stream`currentOffset, stream`offset, stream`cur, stream`drift
      ensures Valid() && piece.start == (old(bytesRead) == 0)
      ensures |piece.data| == (if bufferSize < |old(Output())| then bufferSize else |old(Output())|) > 0
      ensures piece.data == old(Output())[..|piece.data|] && piece.end == (|piece.data| == |old(Output())|)
      ensures !piece.end ==> HeadOk() && Complete() && Output() == old(Output())[|piece.data|..]
      ensures !piece.end ==> bytesRead == old(bytesRead) + |piece.data|
    {
      hide Pending, AnnexB, WellFormed, Due;
      OutputNotEmpty();
      var status, size;
      status, size, piece := Packetize(bufferSize, false);
    }

    /** A frame drained through any output buffers: the pieces join to its Annex B form, or to
        as much of it as the buffers took; the start flag is on exactly the first piece and
        the end flag on exactly the one that completes the frame. */
    method EmitFrame(sizes: seq<nat>) returns (pieces: seq<Piece>)
      requires Valid() && HeadOk() && Complete() && bytesRead == 0
      requires forall i :: 0 <= i < |sizes| ==> sizes[i] > 0
      modifies this, stream`current, stream`currentOffset, stream`offset, stream`cur, stream`drift
      ensures Valid() && |pieces| <= |sizes| && |Joined(pieces)| <= |old(Output())|
      ensures Joined(pieces) == old(Output())[..|Joined(pieces)|]
      ensures forall i :: 0 <= i < |pieces| ==> (pieces[i].start <==> i == 0)
      ensures forall i :: 0 <= i < |pieces| ==> pieces[i].data != [] && |pieces[i].data| <= sizes[i]
      ensures forall i :: 0 <= i < |pieces| - 1 ==> !pieces[i].end && |pieces[i].data| == sizes[i]
      ensures |Joined(pieces)| == if Space(sizes) < |old(Output())| then Space(sizes) else |old(Output())|
      ensures Joined(pieces) == old(Output()) <==> pieces != [] && pieces[|pieces| - 1].end
      ensures Joined(pieces) != old(Output()) ==>
                |pieces| == |sizes| && (pieces != [] ==> |pieces[|pieces| - 1].data| == sizes[|sizes| - 1])
    {
      hide InFrame, EndsInData, Remaining, HeadOk, Complete, Output, Joined, Space;
      ghost var r := Output();
      OutputNotEmpty();
      JoinedNothing();
      pieces := [];
      SpaceNothing(sizes);
      for i := 0 to |sizes|
        invariant |Joined(pieces)| == Space(sizes[..i])
        invariant Valid() && HeadOk() && Complete() && |pieces| == i && |Joined(pieces)| < |r|
        invariant Joined(pieces) == r[..|Joined(pieces)|] && Output() == r[|Joined(pieces)|..]
        invariant bytesRead == |Joined(pieces)| && (i > 0 ==> bytesRead > 0)
        invariant forall j :: 0 <= j < i ==> (pieces[j].start <==> j == 0)
        invariant forall j :: 0 <= j < i ==> pieces[j].data != [] && |pieces[j].data| == sizes[j] && !pieces[j].end
      {
        ghost var n := |Joined(pieces)|;
        var piece := NextPiece(sizes[i]);
        JoinedMore(pieces, piece);
        JoinPrefix(r, n, |piece.data|);
        pieces := pieces + [piece];
        SpaceStep(sizes, i);
        if piece.end {
          SpaceMono(sizes, i + 1);
          return;
        }
      }
    }

    /** All NAL units of a frame that has arrived, drained through output buffers of any sizes: they
        come out behind start codes, whole when the buffers have room for them. */
    method EmitNals(ghost nals: seq<Bytes>, sizes: seq<nat>) returns (pieces: seq<Piece>)
      requires Valid() && state == FrameWait && Complete() && EndsInData()
      requires forall i :: 0 <= i < |nals| ==> 0 < |nals[i]| < Pow2(8 * lengthSize)
      requires FrameBytes() == LengthPrefixed(nals, lengthSize)
      requires forall i :: 0 <= i < |sizes| ==> sizes[i] > 0
      modifies this, stream`current, stream`currentOffset, stream`offset, stream`cur, stream`drift
      ensures Valid() && |pieces| <= |sizes|
      ensures if |StartCoded(nals)| <= Space(sizes) then Joined(pieces) == StartCoded(nals)
              else Joined(pieces) == StartCoded(nals)[..Space(sizes)] && |pieces| == |sizes|
      ensures forall i :: 0 <= i < |pieces| ==> (pieces[i].start <==> i == 0) && 0 < |pieces[i].data| <= sizes[i]
      ensures forall i :: 0 <= i < |pieces| ==>
                (pieces[i].end <==> i == |pieces| - 1 && |StartCoded(nals)| <= Space(sizes))
    {
      hide WellFormed, AnnexB, LengthPrefixed, StartCoded, Pending, InFrame, EndsInData, Complete, FrameBytes, Joined, Space;
      FrameOfNals(nals);
      pieces := EmitFrame(sizes);
    }

    lemma OutputNotEmpty()
      requires Valid() && HeadOk() && Complete()
      ensures Output() != []
    {
      if state == FrameWait {
        LastPacketNotRead();
        PendingWhole(AllBytes(), stream.Position(), FrameEnd(), lengthSize);
      }
    }

    /** vc_packetizer_push: more input leaves what is due for the frame at hand as it was. */
    method Push(packet: Packet)
      requires Valid() && HeadOk() && packet !in stream.packets
      modifies stream, stream.packets, packet
      ensures Valid() && stream.packets == old(stream.packets) + [packet]
      ensures old(Complete()) ==> Complete() && HeadOk() && Output() == old(Output())
    {
      hide Pending, AnnexB, WellFormed, Flat, Before;
      ghost var s, o, ps := AllBytes(), stream.Position(), stream.packets;
      ghost var had := Complete();
      if had {
        ghost var e := FrameEnd();
        EndAtPush(ps, packet, stream.cur);
        FlatPush(ps, packet, 0);
        BeforeSame(ps, ps + [packet], EndAt(ps, stream.cur) + 1);
        BeforeSame(ps, ps + [packet], stream.cur);
        assert s[o..o + (e - o)] == (s + packet.data)[o..o + (e - o)];
        if state == FrameWait { FormSame(s, s + packet.data, o, o, e - o, lengthSize); }
        else { DueSame(startCodeLeft, nalLeft, s, s + packet.data, o, o, e - o, lengthSize); }
      }
      stream.Push(packet);
    }

    /** bytestream_pop: so does giving back packets already read. */
    method Pop() returns (packet: Packet?)
      requires Valid() && HeadOk()
      modifies stream
      ensures Valid() && stream.Unread() == old(stream.Unread())
      ensures old(Complete()) ==> Complete() && HeadOk() && Output() == old(Output())
    {
      hide Pending, AnnexB, WellFormed, Flat, Before, EndAt, BigEndianAt, Stream.Linked;
      ghost var s, o, ps, k := AllBytes(), stream.Position(), stream.packets, stream.cur;
      if Complete() && k > 0 {
        ghost var e, d, t := FrameEnd(), |ps[0].data|, Flat(ps[1..], 0);
        FrameAtPop(ps, k, o);
        if state == FrameWait { FormSame(s, t, o, o - d, e - o, lengthSize); }
        else { DueSame(startCodeLeft, nalLeft, s, t, o, o - d, e - o, lengthSize); }
      }
      packet := stream.Pop();
    }
  }

  /** Without a first packet already read, the frame is the same bytes nearer the start. */
  lemma FrameAtPop(ps: seq<Packet>, k: nat, o: nat)
    requires 0 < k <= |ps| && EndAt(ps, k) < |ps|
    requires Before(ps, k) <= o <= Before(ps, EndAt(ps, k) + 1) <= |Flat(ps, 0)|
    ensures var e, d, t := Before(ps, EndAt(ps, k) + 1), |ps[0].data|, Flat(ps[1..], 0);
            && EndAt(ps[1..], k - 1) == EndAt(ps, k) - 1 && Before(ps[1..], k - 1) + d == Before(ps, k)
            && d <= o && Before(ps[1..], EndAt(ps, k)) == e - d <= |t|
            && Flat(ps, 0)[o..o + (e - o)] == t[o - d..o - d + (e - o)]
  {
    hide Before, EndAt;
    EndAtPop(ps, k);
    BeforePop(ps, EndAt(ps, k) + 1);
    BeforePop(ps, k);
    FlatPop(ps, 1);
    FlatHead(ps, 0);
  }

  lemma JoinedNothing()
    ensures Joined([]) == []
  {
  }

  lemma JoinedMore(pieces: seq<Piece>, piece: Piece)
    ensures Joined(pieces + [piece]) == Joined(pieces) + piece.data
  {
    assert (pieces + [piece])[..|pieces|] == pieces;
  }

  lemma JoinPrefix(r: Bytes, n: nat, m: nat)
    requires n + m <= |r|
    ensures r[..n] + r[n..][..m] == r[..n + m] && r[n..][m..] == r[n + m..]
  {
  }
}
