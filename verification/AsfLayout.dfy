/** The objects of an ASF header as asf_writer.c nests them, and what a reader that trusts their
    size fields makes of them. */
module AsfLayout {
  import opened Basics

  const OBJECT_HEADER_SIZE := 24

  datatype ObjectType = Header | FileProps | StreamProps | ExtStreamProps | DataObject | SimpleIndex | Index
                      | HeaderExt | HeaderExtInternal

  /** What a track's format says; codec numbers are taken as given. */
  datatype Format = Video(width: nat, height: nat, fourcc: nat)
                  | Audio(codec: nat, channels: nat, sampleRate: nat, bitrate: nat, blockAlign: nat, bitsPerSample: nat)
                  | Other

  datatype Track = Track(format: Format, extradata: Bytes)
  datatype Config = Config(tracks: seq<Track>, packetSize: nat)

  function Guid(a: nat, b: nat, c: nat, d: Bytes): (g: Bytes)
    requires |d| == 8
    ensures |g| == 16
  {
    LittleEndian(a, 4) + LittleEndian(b, 2) + LittleEndian(c, 2) + d
  }

  const NULL_GUID := Guid(0, 0, 0, [0, 0, 0, 0, 0, 0, 0, 0])
  const VIDEO_GUID := Guid(0xBC19EFC0, 0x5B4D, 0x11CF, [0xA8, 0xFD, 0x00, 0x80, 0x5F, 0x5C, 0x44, 0x2B])
  const AUDIO_GUID := Guid(0xF8699E40, 0x5B4D, 0x11CF, [0xA8, 0xFD, 0x00, 0x80, 0x5F, 0x5C, 0x44, 0x2B])
  const ERROR_CORRECTION_GUID := Guid(0x20FB5700, 0x5B55, 0x11CF, [0xA8, 0xFD, 0x00, 0x80, 0x5F, 0x5C, 0x44, 0x2B])

  function ObjectGuid(o: ObjectType): (g: Bytes)
    ensures |g| == 16
  {
    match o
    case Header => Guid(0x75B22630, 0x668E, 0x11CF, [0xA6, 0xD9, 0x00, 0xAA, 0x00, 0x62, 0xCE, 0x6C])
    case FileProps => Guid(0x8CABDCA1, 0xA947, 0x11CF, [0x8E, 0xE4, 0x00, 0xC0, 0x0C, 0x20, 0x53, 0x65])
    case StreamProps => Guid(0xB7DC0791, 0xA9B7, 0x11CF, [0x8E, 0xE6, 0x00, 0xC0, 0x0C, 0x20, 0x53, 0x65])
    case ExtStreamProps => Guid(0x14E6A5CB, 0xC672, 0x4332, [0x83, 0x99, 0xA9, 0x69, 0x52, 0x06, 0x5B, 0x5A])
    case DataObject => Guid(0x75B22636, 0x668E, 0x11CF, [0xA6, 0xD9, 0x00, 0xAA, 0x00, 0x62, 0xCE, 0x6C])
    case SimpleIndex => Guid(0x33000890, 0xE5B1, 0x11CF, [0x89, 0xF4, 0x00, 0xA0, 0xC9, 0x03, 0x49, 0xCB])
    case Index => Guid(0xD6E229D3, 0x35DA, 0x11D1, [0x90, 0x34, 0x00, 0xA0, 0xC9, 0x03, 0x49, 0xBE])
    case HeaderExt => Guid(0x5FBF03B5, 0xA92E, 0x11CF, [0x8E, 0xE3, 0x00, 0xC0, 0x0C, 0x20, 0x53, 0x65])
    case HeaderExtInternal => Guid(0x5FBF03B5, 0xA92E, 0x11CF, [0x8E, 0xE3, 0x00, 0xC0, 0x0C, 0x20, 0x53, 0x65])
  }

  // ---------- object bodies without objects inside ----------

  function FilePropsBody(c: Config): (b: Bytes)
    ensures |b| == 80
  {
    NULL_GUID + LittleEndian(0, 8) + LittleEndian(0, 8) + LittleEndian(0, 8) + LittleEndian(0, 8) + LittleEndian(0, 8) + LittleEndian(0, 8)
    + LittleEndian(0, 4) + LittleEndian(c.packetSize, 4) + LittleEndian(c.packetSize, 4) + LittleEndian(0, 4)
  }

  function ExtStreamPropsBody(track: nat): (b: Bytes)
    ensures |b| == 64
  {
    LittleEndian(0, 8) + LittleEndian(0, 8) + LittleEndian(0, 4) + LittleEndian(0, 4) + LittleEndian(0, 4) + LittleEndian(0, 4) + LittleEndian(0, 4) + LittleEndian(0, 4) + LittleEndian(0, 4) + LittleEndian(0, 4)
    + LittleEndian(track + 1, 2) + LittleEndian(0, 2) + LittleEndian(0, 8) + LittleEndian(0, 2) + LittleEndian(0, 2)
  }

  /** asf_write_bitmapinfoheader and asf_write_waveformatex */
  function TypeSpecific(t: Track): Bytes {
    match t.format
    case Video(width, height, fourcc) =>
      LittleEndian(width, 4) + LittleEndian(height, 4) + [0] + LittleEndian(40 + |t.extradata|, 2)
      + LittleEndian(40 + |t.extradata|, 4) + LittleEndian(width, 4) + LittleEndian(height, 4) + LittleEndian(0, 2) + LittleEndian(0, 2) + LittleEndian(fourcc, 4)
      + LittleEndian(0, 4) + LittleEndian(0, 4) + LittleEndian(0, 4) + LittleEndian(0, 4) + LittleEndian(0, 4) + t.extradata
    case Audio(codec, channels, sampleRate, bitrate, blockAlign, bitsPerSample) =>
      LittleEndian(codec, 2) + LittleEndian(channels, 2) + LittleEndian(sampleRate, 4) + LittleEndian(bitrate, 4) + LittleEndian(blockAlign, 2) + LittleEndian(bitsPerSample, 2)
      + LittleEndian(|t.extradata|, 2) + t.extradata
    case Other => []
  }

  function TypeSpecificSize(t: Track): nat {
    if t.format.Video? then 11 + 40 + |t.extradata| else if t.format.Audio? then 18 + |t.extradata| else 0
  }

  function StreamPropsFields(t: Track, track: nat): (b: Bytes)
    ensures |b| == 54
  {
    (if t.format.Video? then VIDEO_GUID else if t.format.Audio? then AUDIO_GUID else NULL_GUID)
    + ERROR_CORRECTION_GUID + LittleEndian(0, 8) + LittleEndian(TypeSpecificSize(t), 4) + LittleEndian(0, 4) + LittleEndian(track + 1, 2) + LittleEndian(0, 4)
  }

  function StreamPropsBody(t: Track, track: nat): Bytes {
    StreamPropsFields(t, track) + TypeSpecific(t)
  }

  /** The length field of the type-specific data is the length of what follows the fields. */
  lemma TypeSpecificLength(t: Track, track: nat)
    requires |t.extradata| + 51 < WORD
    ensures |TypeSpecific(t)| == TypeSpecificSize(t)
    ensures var b := StreamPropsBody(t, track); FromLittleEndian(b[40..44]) == |b| - 54
  {
    hide LittleEndian, FromLittleEndian, Guid, Pow2;
    Pow2Values();
    LittleEndianRoundTrip(TypeSpecificSize(t), 4);
    var b := StreamPropsBody(t, track);
    assert b[40..44] == LittleEndian(TypeSpecificSize(t), 4);
  }

  // ---------- nested objects ----------

  function Rank(o: ObjectType): nat {
    match o case Header => 3 case HeaderExt => 2 case HeaderExtInternal => 1 case _ => 0
  }

  function Body(o: ObjectType, c: Config, track: nat): Bytes
    decreases Rank(o), 1, 0
  {
    match o
    case Header => LittleEndian(0, 4) + [0] + [0] + Object(FileProps, c, track) + Object(HeaderExt, c, track)
                   + Each(StreamProps, c, |c.tracks|, Rank(o))
    case FileProps => FilePropsBody(c)
    case HeaderExt => NULL_GUID + LittleEndian(0, 2) + Object(HeaderExtInternal, c, track)
    case HeaderExtInternal => Each(ExtStreamProps, c, |c.tracks|, Rank(o))
    case StreamProps => if track < |c.tracks| then StreamPropsBody(c.tracks[track], track) else []
    case ExtStreamProps => ExtStreamPropsBody(track)
    case _ => []
  }

  /** An object states its own whole size; the inside of the header extension only that of its
      body. */
  function Object(o: ObjectType, c: Config, track: nat): Bytes
    decreases Rank(o), 2, 0
  {
    if o == HeaderExtInternal then LittleEndian(|Body(o, c, track)|, 4) + Body(o, c, track)
    else ObjectGuid(o) + LittleEndian(|Body(o, c, track)| + OBJECT_HEADER_SIZE, 8) + Body(o, c, track)
  }

  /** One object for each of the first n tracks. */
  function Each(o: ObjectType, c: Config, n: nat, rank: nat): Bytes
    requires Rank(o) < rank && n <= |c.tracks|
    decreases rank, 0, n
  {
    if n == 0 then [] else Each(o, c, n - 1, rank) + Object(o, c, n - 1)
  }

  /** Only the stream objects depend on the current track. */
  lemma TrackFree(o: ObjectType, c: Config, t: nat, u: nat)
    requires Rank(o) > 0
    ensures Body(o, c, t) == Body(o, c, u)
    decreases Rank(o)
  {
    hide LittleEndian, Guid, Each, ObjectGuid, FilePropsBody;
    if o == Header { TrackFree(HeaderExt, c, t, u); }
    if o == HeaderExt { TrackFree(HeaderExtInternal, c, t, u); }
  }

  // ---------- reading by the size fields ----------

  /** Cut at the size fields: the objects' identifiers and bodies. */
  function Cut(b: Bytes): seq<(Bytes, Bytes)>
    decreases |b|
  {
    if |b| < OBJECT_HEADER_SIZE then []
    else var size := FromLittleEndian(b[16..24]);
      if size < OBJECT_HEADER_SIZE || size > |b| then []
      else [(b[..16], b[24..size])] + Cut(b[size..])
  }

  lemma CutFirst(id: Bytes, body: Bytes, rest: Bytes)
    requires |id| == 16 && |body| + OBJECT_HEADER_SIZE < Pow2(64)
    ensures Cut(id + LittleEndian(|body| + OBJECT_HEADER_SIZE, 8) + body + rest) == [(id, body)] + Cut(rest)
  {
    hide LittleEndian, FromLittleEndian, Pow2;
    var size := |body| + OBJECT_HEADER_SIZE;
    var b := id + LittleEndian(size, 8) + body + rest;
    LittleEndianRoundTrip(size, 8);
    assert b[16..24] == LittleEndian(size, 8) && b[..16] == id && b[24..size] == body && b[size..] == rest;
  }

  /** The objects of the first n tracks, as a reader sees them. */
  function EachCut(o: ObjectType, c: Config, from: nat, n: nat): seq<(Bytes, Bytes)>
    requires from <= n <= |c.tracks|
    decreases n - from
  {
    if from == n then [] else [(ObjectGuid(o), Body(o, c, from))] + EachCut(o, c, from + 1, n)
  }

  lemma {:induction false} EachFromFront(o: ObjectType, c: Config, from: nat, n: nat, rank: nat, tail: Bytes)
    requires Rank(o) < rank && from <= n <= |c.tracks| && o != HeaderExtInternal
    requires forall t :: 0 <= t < |c.tracks| ==> |Body(o, c, t)| + OBJECT_HEADER_SIZE < Pow2(64)
    requires |Each(o, c, from, rank)| <= |Each(o, c, n, rank)| && Each(o, c, n, rank)[|Each(o, c, from, rank)|..] == tail
    ensures Cut(tail) == EachCut(o, c, from, n)
    decreases n - from
  {
    hide Body, ObjectGuid, Pow2, LittleEndian, Cut, Each;
    if from == n {
      CutNothing();
    } else {
      EachPrefix(o, c, from + 1, n, rank);
      EachStep(o, c, from, rank);
      var rest := Each(o, c, n, rank)[|Each(o, c, from + 1, rank)|..];
      assert tail == Object(o, c, from) + rest;
      EachFromFront(o, c, from + 1, n, rank, rest);
      CutFirst(ObjectGuid(o), Body(o, c, from), rest);
    }
  }

  lemma EachStep(o: ObjectType, c: Config, n: nat, rank: nat)
    requires Rank(o) < rank && n < |c.tracks|
    ensures Each(o, c, n + 1, rank) == Each(o, c, n, rank) + Object(o, c, n)
  {
  }

  lemma CutNothing()
    ensures Cut([]) == []
  {
  }

  lemma {:induction false} EachPrefix(o: ObjectType, c: Config, from: nat, n: nat, rank: nat)
    requires Rank(o) < rank && from <= n <= |c.tracks|
    ensures Each(o, c, from, rank) <= Each(o, c, n, rank)
    decreases n
  {
    hide Object;
    if from == n {
    } else {
      EachPrefix(o, c, from, n - 1, rank);
    }
  }

  // ---------- the whole header ----------

  /** At most sixteen tracks, whose extra data has a size of 32 bits. */
  predicate Bounded(c: Config) {
    |c.tracks| <= 16 && forall t :: t in c.tracks ==> |t.extradata| + 51 < WORD
  }

  const TRACK_LIMIT := 0x2_0000_0000

  lemma LeafSize(o: ObjectType, c: Config, track: nat)
    requires Bounded(c) && (o == StreamProps || o == ExtStreamProps) && track < |c.tracks|
    ensures |Object(o, c, track)| == |Body(o, c, track)| + OBJECT_HEADER_SIZE < TRACK_LIMIT
  {
    hide LittleEndian, StreamPropsFields, ExtStreamPropsBody, Pow2;
    Pow2Values();
    assert c.tracks[track] in c.tracks;
    TypeSpecificLength(c.tracks[track], track);
  }

  lemma {:induction false} EachSize(o: ObjectType, c: Config, n: nat, rank: nat)
    requires Bounded(c) && (o == StreamProps || o == ExtStreamProps) && Rank(o) < rank && n <= |c.tracks|
    ensures |Each(o, c, n, rank)| <= n * TRACK_LIMIT
    ensures o == ExtStreamProps ==> |Each(o, c, n, rank)| == n * 88
    decreases n
  {
    hide Object, Body;
    if n == 0 {
    } else {
      EachSize(o, c, n - 1, rank);
      LeafSize(o, c, n - 1);
      if o == ExtStreamProps { ExtSize(c, n - 1); }
    }
  }

  lemma ExtSize(c: Config, track: nat)
    ensures |Object(ExtStreamProps, c, track)| == 88
  {
    hide LittleEndian, ExtStreamPropsBody;
  }

  lemma EachCutWhole(o: ObjectType, c: Config, rank: nat)
    requires Bounded(c) && (o == StreamProps || o == ExtStreamProps) && Rank(o) < rank
    ensures Cut(Each(o, c, |c.tracks|, rank)) == EachCut(o, c, 0, |c.tracks|)
  {
    hide Object, Body, Cut, Pow2;
    Pow2Values();
    forall t | 0 <= t < |c.tracks| ensures |Body(o, c, t)| + OBJECT_HEADER_SIZE < Pow2(64) { LeafSize(o, c, t); }
    var all := Each(o, c, |c.tracks|, rank);
    EachNothing(o, c, rank);
    assert all[0..] == all;
    EachFromFront(o, c, 0, |c.tracks|, rank, all);
  }

  lemma EachNothing(o: ObjectType, c: Config, rank: nat)
    requires Rank(o) < rank
    ensures Each(o, c, 0, rank) == []
  {
  }

  lemma ExtBody(c: Config, track: nat)
    requires Bounded(c)
    ensures var b := Body(HeaderExt, c, track); var inside := Each(ExtStreamProps, c, |c.tracks|, 1);
            b == NULL_GUID + LittleEndian(0, 2) + (LittleEndian(|inside|, 4) + inside) && |b| == 22 + 88 * |c.tracks|
  {
    hide LittleEndian, Guid;
    EachSize(ExtStreamProps, c, |c.tracks|, 1);
  }

  /** The header extension's data size is the length of the rest of its body, and cutting that
      rest at the size fields gives one extended stream properties object for each track. */
  lemma HeaderExtCut(c: Config, track: nat)
    requires Bounded(c)
    ensures var b := Body(HeaderExt, c, track);
            && |b| >= 22 && FromLittleEndian(b[18..22]) == |b| - 22
            && Cut(b[22..]) == EachCut(ExtStreamProps, c, 0, |c.tracks|)
  {
    hide LittleEndian, FromLittleEndian, Cut, Body, Each, EachCut, Pow2, Guid;
    ExtBody(c, track);
    Pow2Values();
    var b, inside := Body(HeaderExt, c, track), Each(ExtStreamProps, c, |c.tracks|, 1);
    LittleEndianRoundTrip(|inside|, 4);
    assert b[18..22] == LittleEndian(|inside|, 4) && b[22..] == inside;
    EachCutWhole(ExtStreamProps, c, 1);
  }

  lemma HeaderBody(c: Config, track: nat)
    ensures Body(Header, c, track) == LittleEndian(0, 4) + [0] + [0] + Object(FileProps, c, track) + Object(HeaderExt, c, track)
                                      + Each(StreamProps, c, |c.tracks|, 3)
  {
  }

  lemma PlainObject(o: ObjectType, c: Config, track: nat)
    requires o != HeaderExtInternal
    ensures Object(o, c, track) == ObjectGuid(o) + LittleEndian(|Body(o, c, track)| + OBJECT_HEADER_SIZE, 8) + Body(o, c, track)
  {
  }

  lemma SmallBodies(c: Config, track: nat)
    ensures |Body(FileProps, c, track)| == 80 && Body(DataObject, c, track) == []
  {
    hide FilePropsBody;
  }

  /** Cutting the header's body at the size fields gives the file properties, the header
      extension and the stream properties of each track in order, nothing more. */
  lemma HeaderCut(c: Config, track: nat)
    requires Bounded(c)
    ensures var b := Body(Header, c, track);
            && |b| >= 6
            && Cut(b[6..]) == [(ObjectGuid(FileProps), Body(FileProps, c, track))]
                              + ([(ObjectGuid(HeaderExt), Body(HeaderExt, c, track))]
                                 + EachCut(StreamProps, c, 0, |c.tracks|))
  {
    hide LittleEndian, FromLittleEndian, Cut, Body, Object, Each, EachCut, Pow2, ObjectGuid;
    HeaderBody(c, track);
    Pow2Values();
    ExtBody(c, track);
    SmallBodies(c, track);
    PlainObject(FileProps, c, track);
    PlainObject(HeaderExt, c, track);
    var b, each := Body(Header, c, track), Each(StreamProps, c, |c.tracks|, 3);
    var rest := Object(HeaderExt, c, track) + each;
    assert b[6..] == Object(FileProps, c, track) + rest;
    CutFirst(ObjectGuid(FileProps), Body(FileProps, c, track), rest);
    CutFirst(ObjectGuid(HeaderExt), Body(HeaderExt, c, track), each);
    EachCutWhole(StreamProps, c, 3);
  }

  /** Cutting the file gives the header object and the data object. */
  lemma FileCut(c: Config, track: nat)
    requires Bounded(c)
    ensures Cut(Object(Header, c, track) + Object(DataObject, c, track))
         == [(ObjectGuid(Header), Body(Header, c, track)), (ObjectGuid(DataObject), [])]
  {
    hide LittleEndian, FromLittleEndian, Cut, Body, Object, Each, Pow2, ObjectGuid;
    HeaderBody(c, track);
    Pow2Values();
    ExtBody(c, track);
    SmallBodies(c, track);
    PlainObject(FileProps, c, track);
    PlainObject(HeaderExt, c, track);
    PlainObject(Header, c, track);
    PlainObject(DataObject, c, track);
    EachSize(StreamProps, c, |c.tracks|, 3);
    CutFirst(ObjectGuid(Header), Body(Header, c, track), Object(DataObject, c, track));
    var d := Object(DataObject, c, track);
    assert d + [] == d;
    CutFirst(ObjectGuid(DataObject), [], []);
    CutNothing();
  }
}
