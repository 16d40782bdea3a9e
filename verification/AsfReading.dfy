/** What a reader of ASF finds in the header's objects by byte position: the writer's configuration. */
module AsfReading {
  import opened Basics
  import opened AsfLayout

  // ---------- identifiers as they stand in a file ----------

  const HEADER_BYTES: Bytes := [0x30, 0x26, 0xB2, 0x75, 0x8E, 0x66, 0xCF, 0x11, 0xA6, 0xD9, 0x00, 0xAA, 0x00, 0x62, 0xCE, 0x6C]
  const DATA_BYTES: Bytes := [0x36, 0x26, 0xB2, 0x75, 0x8E, 0x66, 0xCF, 0x11, 0xA6, 0xD9, 0x00, 0xAA, 0x00, 0x62, 0xCE, 0x6C]
  const FILE_PROPS_BYTES: Bytes := [0xA1, 0xDC, 0xAB, 0x8C, 0x47, 0xA9, 0xCF, 0x11, 0x8E, 0xE4, 0x00, 0xC0, 0x0C, 0x20, 0x53, 0x65]
  const STREAM_PROPS_BYTES: Bytes := [0x91, 0x07, 0xDC, 0xB7, 0xB7, 0xA9, 0xCF, 0x11, 0x8E, 0xE6, 0x00, 0xC0, 0x0C, 0x20, 0x53, 0x65]
  const EXT_STREAM_PROPS_BYTES: Bytes := [0xCB, 0xA5, 0xE6, 0x14, 0x72, 0xC6, 0x32, 0x43, 0x83, 0x99, 0xA9, 0x69, 0x52, 0x06, 0x5B, 0x5A]
  const HEADER_EXT_BYTES: Bytes := [0xB5, 0x03, 0xBF, 0x5F, 0x2E, 0xA9, 0xCF, 0x11, 0x8E, 0xE3, 0x00, 0xC0, 0x0C, 0x20, 0x53, 0x65]
  const VIDEO_BYTES: Bytes := [0xC0, 0xEF, 0x19, 0xBC, 0x4D, 0x5B, 0xCF, 0x11, 0xA8, 0xFD, 0x00, 0x80, 0x5F, 0x5C, 0x44, 0x2B]
  const AUDIO_BYTES: Bytes := [0x40, 0x9E, 0x69, 0xF8, 0x4D, 0x5B, 0xCF, 0x11, 0xA8, 0xFD, 0x00, 0x80, 0x5F, 0x5C, 0x44, 0x2B]
  const NO_CORRECTION_BYTES: Bytes := [0x00, 0x57, 0xFB, 0x20, 0x55, 0x5B, 0xCF, 0x11, 0xA8, 0xFD, 0x00, 0x80, 0x5F, 0x5C, 0x44, 0x2B]
  const NO_BYTES: Bytes := [0, 0, 0, 0, 0, 0, 0, 0, 0, 0, 0, 0, 0, 0, 0, 0]

  lemma GuidBytes(a: nat, b: nat, c: nat, d: Bytes)
    requires |d| == 8
    ensures Guid(a, b, c, d)
         == [a % 256, a / 256 % 256, a / 0x1_0000 % 256, a / 0x100_0000 % 256, b % 256, b / 256 % 256, c % 256, c / 256 % 256] + d
  {
    WordBytes(a);
    HalfBytes(b);
    HalfBytes(c);
    hide LittleEndian;
  }

  lemma HalfBytes(v: nat)
    ensures LittleEndian(v, 2) == [v % 256, v / 256 % 256]
  {
    assert LittleEndian(v / 256, 1) == [v / 256 % 256];
  }

  lemma WordBytes(v: nat)
    ensures LittleEndian(v, 4) == [v % 256, v / 256 % 256, v / 0x1_0000 % 256, v / 0x100_0000 % 256]
  {
    HalfBytes(v / 256 / 256);
    assert LittleEndian(v / 256, 3) == [v / 256 % 256] + LittleEndian(v / 256 / 256, 2);
  }

  lemma HeaderId()
    ensures ObjectGuid(Header) == HEADER_BYTES
  {
    hide Guid;
    GuidBytes(0x75B22630, 0x668E, 0x11CF, [0xA6, 0xD9, 0x00, 0xAA, 0x00, 0x62, 0xCE, 0x6C]);
  }

  lemma DataObjectId()
    ensures ObjectGuid(DataObject) == DATA_BYTES
  {
    hide Guid;
    GuidBytes(0x75B22636, 0x668E, 0x11CF, [0xA6, 0xD9, 0x00, 0xAA, 0x00, 0x62, 0xCE, 0x6C]);
  }

  lemma FilePropsId()
    ensures ObjectGuid(FileProps) == FILE_PROPS_BYTES
  {
    hide Guid;
    GuidBytes(0x8CABDCA1, 0xA947, 0x11CF, [0x8E, 0xE4, 0x00, 0xC0, 0x0C, 0x20, 0x53, 0x65]);
  }

  lemma StreamPropsId()
    ensures ObjectGuid(StreamProps) == STREAM_PROPS_BYTES
  {
    hide Guid;
    GuidBytes(0xB7DC0791, 0xA9B7, 0x11CF, [0x8E, 0xE6, 0x00, 0xC0, 0x0C, 0x20, 0x53, 0x65]);
  }

  lemma ExtStreamPropsId()
    ensures ObjectGuid(ExtStreamProps) == EXT_STREAM_PROPS_BYTES
  {
    hide Guid;
    GuidBytes(0x14E6A5CB, 0xC672, 0x4332, [0x83, 0x99, 0xA9, 0x69, 0x52, 0x06, 0x5B, 0x5A]);
  }

  lemma HeaderExtId()
    ensures ObjectGuid(HeaderExt) == HEADER_EXT_BYTES
  {
    hide Guid;
    GuidBytes(0x5FBF03B5, 0xA92E, 0x11CF, [0x8E, 0xE3, 0x00, 0xC0, 0x0C, 0x20, 0x53, 0x65]);
  }

  /** The objects are known by the identifiers of the standard. */
  lemma ObjectIds()
    ensures ObjectGuid(Header) == HEADER_BYTES && ObjectGuid(DataObject) == DATA_BYTES && ObjectGuid(FileProps) == FILE_PROPS_BYTES
    ensures ObjectGuid(StreamProps) == STREAM_PROPS_BYTES && ObjectGuid(ExtStreamProps) == EXT_STREAM_PROPS_BYTES
    ensures ObjectGuid(HeaderExt) == HEADER_EXT_BYTES
  {
    hide ObjectGuid;
    HeaderId();
    DataObjectId();
    FilePropsId();
    StreamPropsId();
    ExtStreamPropsId();
    HeaderExtId();
  }

  lemma StreamTypes()
    ensures VIDEO_GUID == VIDEO_BYTES && AUDIO_GUID == AUDIO_BYTES && NULL_GUID == NO_BYTES
    ensures ERROR_CORRECTION_GUID == NO_CORRECTION_BYTES
  {
    hide Guid;
    GuidBytes(0x20FB5700, 0x5B55, 0x11CF, [0xA8, 0xFD, 0x00, 0x80, 0x5F, 0x5C, 0x44, 0x2B]);
    GuidBytes(0, 0, 0, [0, 0, 0, 0, 0, 0, 0, 0]);
    GuidBytes(0xBC19EFC0, 0x5B4D, 0x11CF, [0xA8, 0xFD, 0x00, 0x80, 0x5F, 0x5C, 0x44, 0x2B]);
    GuidBytes(0xF8699E40, 0x5B4D, 0x11CF, [0xA8, 0xFD, 0x00, 0x80, 0x5F, 0x5C, 0x44, 0x2B]);
  }

  // ---------- fields ----------

  /** Nothing is said there. */
  predicate Blank(b: Bytes, lo: nat, hi: nat)
    requires lo <= hi <= |b|
  {
    forall i :: lo <= i < hi ==> b[i] == 0
  }

  lemma {:induction false} ZeroField(n: nat)
    ensures Blank(LittleEndian(0, n), 0, n)
  {
    if n == 0 {
    } else {
      ZeroField(n - 1);
      assert LittleEndian(0, n) == [0] + LittleEndian(0, n - 1);
    }
  }

  lemma ZeroFields()
    ensures Blank(LittleEndian(0, 2), 0, 2) && Blank(LittleEndian(0, 4), 0, 4) && Blank(LittleEndian(0, 8), 0, 8)
  {
    ZeroField(2);
    ZeroField(4);
    ZeroField(8);
  }

  /** The number in n bytes at a place. */
  function Field(b: Bytes, at: nat, n: nat): nat
    requires at + n <= |b|
  {
    FromLittleEndian(b[at..at + n])
  }

  lemma FieldIs(b: Bytes, at: nat, n: nat, v: nat)
    requires at + n <= |b| && b[at..at + n] == LittleEndian(v, n) && v < Pow2(8 * n)
    ensures Field(b, at, n) == v
  {
    LittleEndianRoundTrip(v, n);
  }

  /** All that fits its field in the file. */
  predicate FieldsFit(t: Track) {
    && |t.extradata| + 51 < WORD
    && match t.format
       case Video(width, height, fourcc) => width < WORD && height < WORD && fourcc < WORD
       case Audio(codec, channels, sampleRate, bitrate, blockAlign, bitsPerSample) =>
         && codec < 0x1_0000 && channels < 0x1_0000 && sampleRate < WORD && bitrate < WORD
         && blockAlign < 0x1_0000 && bitsPerSample < 0x1_0000
       case Other => t.extradata == []
  }

  /** The stream's format out of the type-specific data. */
  function ReadFormat(kind: Bytes, b: Bytes): Option<Track> {
    if kind == VIDEO_BYTES && |b| >= 51 && b[8] == 0 && Blank(b, 23, 27) && Blank(b, 31, 51) then
      Some(Track(Video(Field(b, 15, 4), Field(b, 19, 4), Field(b, 27, 4)), b[51..]))
    else if kind == AUDIO_BYTES && |b| >= 18 then
      Some(Track(Audio(Field(b, 0, 2), Field(b, 2, 2), Field(b, 4, 4), Field(b, 8, 4), Field(b, 12, 2), Field(b, 14, 2)), b[18..]))
    else if kind == NO_BYTES && b == [] then Some(Track(Other, []))
    else None
  }

  /** A track and its stream number out of the body of a stream properties object, when the length of
      the type-specific data is right, there is no time offset and the stream is not encrypted. */
  function ReadStreamProps(b: Bytes): Option<(Track, nat)> {
    if |b| < 54 || 54 + Field(b, 40, 4) != |b| || b[16..32] != NO_CORRECTION_BYTES then None
    else if !Blank(b, 32, 40) || !Blank(b, 44, 48) || !Blank(b, 50, 54) then None
    else
      var t := ReadFormat(b[..16], b[54..]);
      if t.None? then None else Some((t.value, Field(b, 48, 2)))
  }

  lemma VideoBlanks(t: Track)
    requires t.format.Video?
    ensures var b := TypeSpecific(t); |b| >= 51 && b[8] == 0 && Blank(b, 23, 27) && Blank(b, 31, 51)
  {
    hide LittleEndian;
    ZeroFields();
  }

  lemma VideoRead(t: Track)
    requires t.format.Video? && FieldsFit(t)
    ensures ReadFormat(VIDEO_BYTES, TypeSpecific(t)) == Some(t)
    ensures var b := TypeSpecific(t);
            && |b| == 51 + |t.extradata| && Field(b, 0, 4) == t.format.width && Field(b, 4, 4) == t.format.height
            && Field(b, 11, 4) == |b| - 11 && (|b| - 11 < 0x1_0000 ==> Field(b, 9, 2) == |b| - 11)
  {
    hide LittleEndian, FromLittleEndian, Pow2, Field;
    Pow2Values();
    var b, w, h, f, n := TypeSpecific(t), t.format.width, t.format.height, t.format.fourcc, 40 + |t.extradata|;
    assert b[0..4] == LittleEndian(w, 4) && b[4..8] == LittleEndian(h, 4) && b[9..11] == LittleEndian(n, 2);
    assert b[11..15] == LittleEndian(n, 4) && b[15..19] == LittleEndian(w, 4) && b[19..23] == LittleEndian(h, 4);
    assert b[27..31] == LittleEndian(f, 4) && b[51..] == t.extradata;
    VideoBlanks(t);
    FieldIs(b, 0, 4, w);
    FieldIs(b, 4, 4, h);
    if n < 0x1_0000 { FieldIs(b, 9, 2, n); }
    FieldIs(b, 11, 4, n);
    FieldIs(b, 15, 4, w);
    FieldIs(b, 19, 4, h);
    FieldIs(b, 27, 4, f);
  }

  lemma AudioRead(t: Track)
    requires t.format.Audio? && FieldsFit(t)
    ensures ReadFormat(AUDIO_BYTES, TypeSpecific(t)) == Some(t)
    ensures var b := TypeSpecific(t); |b| == 18 + |t.extradata| && (|b| - 18 < 0x1_0000 ==> Field(b, 16, 2) == |b| - 18)
  {
    hide LittleEndian, FromLittleEndian, Pow2, Field;
    Pow2Values();
    var b, a := TypeSpecific(t), t.format;
    assert b[0..2] == LittleEndian(a.codec, 2) && b[2..4] == LittleEndian(a.channels, 2) && b[4..8] == LittleEndian(a.sampleRate, 4);
    assert b[8..12] == LittleEndian(a.bitrate, 4) && b[12..14] == LittleEndian(a.blockAlign, 2);
    assert b[14..16] == LittleEndian(a.bitsPerSample, 2) && b[16..18] == LittleEndian(|t.extradata|, 2) && b[18..] == t.extradata;
    FieldIs(b, 0, 2, a.codec);
    FieldIs(b, 2, 2, a.channels);
    FieldIs(b, 4, 4, a.sampleRate);
    FieldIs(b, 8, 4, a.bitrate);
    FieldIs(b, 12, 2, a.blockAlign);
    FieldIs(b, 14, 2, a.bitsPerSample);
    if |t.extradata| < 0x1_0000 { FieldIs(b, 16, 2, |t.extradata|); }
  }

  lemma FormatRead(t: Track)
    requires FieldsFit(t)
    ensures ReadFormat(if t.format.Video? then VIDEO_BYTES else if t.format.Audio? then AUDIO_BYTES else NO_BYTES, TypeSpecific(t)) == Some(t)
  {
    hide Field;
    if t.format.Video? { VideoRead(t); }
    if t.format.Audio? { AudioRead(t); }
  }

  lemma StreamBlanks(t: Track, track: nat)
    ensures var b := StreamPropsBody(t, track);
            b[16..32] == ERROR_CORRECTION_GUID && Blank(b, 32, 40) && Blank(b, 44, 48) && Blank(b, 50, 54)
  {
    hide LittleEndian, Guid, TypeSpecific;
    ZeroFields();
  }

  /** A stream properties object gives its track and number back. */
  lemma StreamPropsRead(t: Track, track: nat)
    requires FieldsFit(t) && track + 1 < 0x1_0000
    ensures ReadStreamProps(StreamPropsBody(t, track)) == Some((t, track + 1))
  {
    hide LittleEndian, FromLittleEndian, Guid, Pow2, Field, ReadFormat, TypeSpecific, FieldsFit;
    Pow2Values();
    StreamTypes();
    FormatRead(t);
    TypeSpecificFits(t);
    TypeSpecificLength(t, track);
    var b := StreamPropsBody(t, track);
    assert b[..16] == (if t.format.Video? then VIDEO_GUID else if t.format.Audio? then AUDIO_GUID else NULL_GUID);
    StreamBlanks(t, track);
    assert b[40..44] == LittleEndian(TypeSpecificSize(t), 4) && b[48..50] == LittleEndian(track + 1, 2) && b[54..] == TypeSpecific(t);
    FieldIs(b, 40, 4, TypeSpecificSize(t));
    FieldIs(b, 48, 2, track + 1);
  }

  lemma TypeSpecificFits(t: Track)
    requires FieldsFit(t)
    ensures |t.extradata| + 51 < WORD
  {
  }

  // ---------- the whole header ----------

  /** The tracks of the stream properties objects among the objects of a header, which must be
      numbered from next on. */
  function ReadStreams(objects: seq<(Bytes, Bytes)>, next: nat): Option<seq<Track>> {
    if objects == [] then Some([])
    else if objects[0].0 != STREAM_PROPS_BYTES then ReadStreams(objects[1..], next)
    else
      var s, rest := ReadStreamProps(objects[0].1), ReadStreams(objects[1..], next + 1);
      if s.None? || s.value.1 != next || rest.None? then None else Some([s.value.0] + rest.value)
  }

  /** The stream numbers in the header extension. */
  function ReadNumbers(objects: seq<(Bytes, Bytes)>): seq<nat> {
    if objects == [] then []
    else (if objects[0].0 == EXT_STREAM_PROPS_BYTES && |objects[0].1| == 64 && Blank(objects[0].1, 0, 48) && Blank(objects[0].1, 50, 64)
          then [Field(objects[0].1, 48, 2)] else [])
         + ReadNumbers(objects[1..])
  }

  /** What the header object's body tells: packet size and tracks. */
  function ReadBody(b: Bytes): Option<Config> {
    if |b| < 6 || !Blank(b, 0, 6) then None
    else
      var objects := Cut(b[6..]);
      if |objects| < 2 || objects[0].0 != FILE_PROPS_BYTES || objects[1].0 != HEADER_EXT_BYTES then None
      else if |objects[0].1| != 80 || |objects[1].1| < 22 || Field(objects[0].1, 68, 4) != Field(objects[0].1, 72, 4) then None
      else if !Blank(objects[0].1, 0, 68) || !Blank(objects[0].1, 76, 80) || !Blank(objects[1].1, 0, 18) then None
      else
        var tracks := ReadStreams(objects[2..], 1);
        if tracks.None? || ReadNumbers(Cut(objects[1].1[22..])) != Numbers(1, |tracks.value|) then None
        else Some(Config(tracks.value, Field(objects[0].1, 72, 4)))
  }

  function Numbers(from: nat, n: nat): (s: seq<nat>)
    ensures |s| == n && forall i :: 0 <= i < n ==> s[i] == from + i
  {
    seq(n, i requires 0 <= i => from + i)
  }

  /** What a file of a header and a data object tells. */
  function ReadFile(file: Bytes): Option<Config> {
    var top := Cut(file);
    if |top| != 2 || top[0].0 != HEADER_BYTES || top[1].0 != DATA_BYTES then None else ReadBody(top[0].1)
  }

  /** Everything in the configuration fits its field. */
  predicate ConfigFits(c: Config) {
    Bounded(c) && c.packetSize < WORD && forall t :: t in c.tracks ==> FieldsFit(t)
  }

  lemma {:induction false} StreamsRead(c: Config, from: nat)
    requires ConfigFits(c) && from <= |c.tracks|
    ensures ReadStreams(EachCut(StreamProps, c, from, |c.tracks|), from + 1) == Some(c.tracks[from..])
    decreases |c.tracks| - from
  {
    hide ObjectGuid, ReadStreamProps, FieldsFit, StreamPropsBody;
    ObjectIds();
    if from == |c.tracks| {
    } else {
      assert c.tracks[from] in c.tracks;
      StreamPropsRead(c.tracks[from], from);
      StreamsRead(c, from + 1);
      assert c.tracks[from..] == [c.tracks[from]] + c.tracks[from + 1..];
      assert EachCut(StreamProps, c, from, |c.tracks|)[1..] == EachCut(StreamProps, c, from + 1, |c.tracks|);
    }
  }

  lemma NumberRead(track: nat)
    requires track + 1 < 0x1_0000
    ensures var b := ExtStreamPropsBody(track); Field(b, 48, 2) == track + 1 && Blank(b, 0, 48) && Blank(b, 50, 64)
  {
    hide LittleEndian, FromLittleEndian, Pow2;
    Pow2Values();
    ZeroFields();
    var b := ExtStreamPropsBody(track);
    assert b[48..50] == LittleEndian(track + 1, 2);
    FieldIs(b, 48, 2, track + 1);
  }

  lemma {:induction false} NumbersRead(c: Config, from: nat)
    requires |c.tracks| <= 16 && from <= |c.tracks|
    ensures ReadNumbers(EachCut(ExtStreamProps, c, from, |c.tracks|)) == Numbers(from + 1, |c.tracks| - from)
    decreases |c.tracks| - from
  {
    hide ObjectGuid, ExtStreamPropsBody, Field;
    ObjectIds();
    if from == |c.tracks| {
    } else {
      NumberRead(from);
      NumbersRead(c, from + 1);
      assert EachCut(ExtStreamProps, c, from, |c.tracks|)[1..] == EachCut(ExtStreamProps, c, from + 1, |c.tracks|);
    }
  }

  lemma PacketSizeRead(c: Config)
    requires c.packetSize < WORD
    ensures Field(FilePropsBody(c), 68, 4) == Field(FilePropsBody(c), 72, 4) == c.packetSize
    ensures Blank(FilePropsBody(c), 0, 68) && Blank(FilePropsBody(c), 76, 80)
  {
    hide LittleEndian, FromLittleEndian, Pow2, Guid;
    Pow2Values();
    StreamTypes();
    ZeroFields();
    var b := FilePropsBody(c);
    assert b[68..72] == LittleEndian(c.packetSize, 4) && b[72..76] == LittleEndian(c.packetSize, 4);
    FieldIs(b, 68, 4, c.packetSize);
    FieldIs(b, 72, 4, c.packetSize);
  }

  lemma BodyRead(c: Config, track: nat)
    requires ConfigFits(c)
    ensures ReadBody(Body(Header, c, track)) == Some(c)
  {
    hide Body, ObjectGuid, Cut, EachCut, ReadStreams, ReadNumbers, Field, FilePropsBody, Pow2, FieldsFit;
    ObjectIds();
    HeaderCut(c, track);
    HeaderExtCut(c, track);
    PacketSizeRead(c);
    FilePropsPlain(c, track);
    HeadBlanks(c, track);
    StreamsRead(c, 0);
    NumbersRead(c, 0);
    assert c.tracks[0..] == c.tracks;
    var first, second, rest := (ObjectGuid(FileProps), Body(FileProps, c, track)), (ObjectGuid(HeaderExt), Body(HeaderExt, c, track)), EachCut(StreamProps, c, 0, |c.tracks|);
    assert ([first] + ([second] + rest))[2..] == rest;
  }

  lemma HeadBlanks(c: Config, track: nat)
    requires Bounded(c)
    ensures var b, e := Body(Header, c, track), Body(HeaderExt, c, track);
            |b| >= 6 && Blank(b, 0, 6) && |e| >= 22 && Blank(e, 0, 18)
  {
    hide LittleEndian, Guid, Object, Each, Body;
    ZeroFields();
    StreamTypes();
    HeaderBody(c, track);
    ExtBody(c, track);
  }

  lemma FilePropsPlain(c: Config, track: nat)
    ensures Body(FileProps, c, track) == FilePropsBody(c)
  {
  }

  /** Reading the header and data objects gives the configuration back, every track with its format
      and extra data, when all of it fits its fields. */
  lemma FileRead(c: Config, track: nat)
    requires ConfigFits(c)
    ensures ReadFile(Object(Header, c, track) + Object(DataObject, c, track)) == Some(c)
  {
    hide Object, Body, ObjectGuid, Cut, ReadBody, FieldsFit;
    ObjectIds();
    FileCut(c, track);
    BodyRead(c, track);
  }
}
