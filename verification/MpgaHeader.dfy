/** MPEG audio headers: what mpga_common.h reads out of them, and what their fields stand for. */
module MpgaHeader {
  import opened Basics

  const HEADER_SIZE := 6
  const MAX_FRAME_SIZE := 2881

  datatype Header = Header(frameSize: nat, bitrate: nat, version: nat, layer: nat, sampleRate: nat,
                           channels: nat, samples: nat)

  /** Kilobits per second by bit rate number, for MPEG1 and for MPEG2 and 2.5, layers 1 to 3. */
  function BitrateRow(mpeg1: bool, layer: nat): (row: seq<nat>)
    requires 1 <= layer <= 3
    ensures |row| == 15
  {
    if mpeg1 then
      if layer == 1 then [0, 32, 64, 96, 128, 160, 192, 224, 256, 288, 320, 352, 384, 416, 448]
      else if layer == 2 then [0, 32, 48, 56, 64, 80, 96, 112, 128, 160, 192, 224, 256, 320, 384]
      else [0, 32, 40, 48, 56, 64, 80, 96, 112, 128, 160, 192, 224, 256, 320]
    else if layer == 1 then [0, 32, 48, 56, 64, 80, 96, 112, 128, 144, 160, 176, 192, 224, 256]
    else [0, 8, 16, 24, 32, 40, 48, 56, 64, 80, 96, 112, 128, 144, 160]
  }

  function SampleRate(id: nat, version: nat): nat
    requires id < 3 && 1 <= version <= 3
  {
    var full := if id == 0 then 44100 else if id == 1 then 48000 else 32000;
    if version == 1 then full else if version == 2 then full / 2 else full / 4
  }

  function FrameSize(bitrate: nat, sampleRate: nat, version: nat, layer: nat, padding: nat): nat
    requires sampleRate > 0
  {
    if bitrate == 0 then 0
    else if layer == 1 then (padding + bitrate * 12 / sampleRate) * 4
    else if layer == 2 then padding + bitrate * 144 / sampleRate
    else padding + bitrate * (if version == 1 then 144 else 72) / sampleRate
  }

  /** mpga_read_header */
  function ReadHeader(h: Bytes): Option<Header>
    requires |h| == HEADER_SIZE
  {
    if h[0] != 0xff || h[1] / 0x20 != 7 then None
    else
      var versionField := 4 - (h[1] / 8) % 4;
      var layer := 4 - (h[1] / 2) % 4;
      var rateId := h[2] / 16;
      var sampleId := (h[2] / 4) % 4;
      if versionField == 3 || layer == 4 || rateId == 15 || sampleId == 3 || h[3] % 4 == 2 then None
      else
        var version := if versionField == 4 then 3 else versionField;
        var bitrate := BitrateRow(version == 1, layer)[rateId] * 1000;
        var sampleRate := SampleRate(sampleId, version);
        Some(Header(FrameSize(bitrate, sampleRate, version, layer, (h[2] / 2) % 2), bitrate, version, layer,
                    sampleRate, if h[3] / 64 == 3 then 1 else 2,
                    if layer == 1 then 384 else if layer == 2 || version == 1 then 1152 else 576))
  }

  lemma BitrateBounds(mpeg1: bool, layer: nat, id: nat)
    requires 1 <= layer <= 3 && 0 < id < 15
    ensures var b := BitrateRow(mpeg1, layer)[id];
            if mpeg1 then 32 <= b <= (if layer == 1 then 448 else if layer == 2 then 384 else 320)
            else (if layer == 1 then 32 <= b <= 256 else 8 <= b <= 160)
  {
  }

  lemma DivBounds(a: nat, d: nat, lo: nat, hi: nat)
    requires d > 0 && lo * d <= a < (hi + 1) * d
    ensures lo <= a / d <= hi
  {
    assert a == (a / d) * d + a % d;
    if a / d < lo { MulLe(a / d + 1, lo, d); }
    if a / d > hi { MulLe(hi + 1, a / d, d); }
  }

  lemma SizeRange(b: nat, d: nat, version: nat, layer: nat, padding: nat)
    requires 1 <= version <= 3 && 1 <= layer <= 3 && padding < 2
    requires if version == 1 then 32 <= b <= (if layer == 1 then 448 else if layer == 2 then 384 else 320)
             else (if layer == 1 then 32 <= b <= 256 else 8 <= b <= 160)
    requires if version == 1 then 32000 <= d <= 48000 else if version == 2 then 16000 <= d <= 24000 else 8000 <= d <= 12000
    ensures 24 <= FrameSize(b * 1000, d, version, layer, padding) <= MAX_FRAME_SIZE
  {
    var k := if layer == 1 then 12 else if layer == 2 || version == 1 then 144 else 72;
    if layer == 1 {
      DivBounds(b * 1000 * k, d, 8, 384);
    } else {
      DivBounds(b * 1000 * k, d, 24, 2880);
    }
  }

  /** A frame with a known size holds its own header and fits the packetizer's maximum. */
  lemma FrameSizeBounds(h: Bytes)
    requires |h| == HEADER_SIZE && ReadHeader(h).Some? && ReadHeader(h).value.frameSize > 0
    ensures 24 <= ReadHeader(h).value.frameSize <= MAX_FRAME_SIZE
    ensures 1 <= ReadHeader(h).value.version <= 3 && 1 <= ReadHeader(h).value.layer <= 3
  {
    hide FrameSize, BitrateRow;
    var r := ReadHeader(h).value;
    NoSizeWithoutRate(r.sampleRate, r.version, r.layer, (h[2] / 2) % 2);
    if h[2] / 16 > 0 {
      BitrateBounds(r.version == 1, r.layer, h[2] / 16);
      SizeRange(BitrateRow(r.version == 1, r.layer)[h[2] / 16], r.sampleRate, r.version, r.layer, (h[2] / 2) % 2);
    } else {
      FreeFormat(r.version == 1, r.layer);
    }
  }

  lemma NoSizeWithoutRate(d: nat, version: nat, layer: nat, padding: nat)
    requires d > 0
    ensures FrameSize(0, d, version, layer, padding) == 0
  {
  }

  lemma FreeFormat(mpeg1: bool, layer: nat)
    requires 1 <= layer <= 3
    ensures BitrateRow(mpeg1, layer)[0] == 0
  {
  }

  // ---------- the fields ----------

  /** The fields of a header after its sync word. Version 3 is the unofficial 2.5; extra is what
      nobody looks at: protection, private bit and the four bits behind the mode. */
  datatype Fields = Fields(version: nat, layer: nat, rate: nat, sample: nat, padding: nat, mode: nat, emphasis: nat,
                           protection: nat, private: nat, extra: nat)

  /** None of them is reserved. */
  predicate Known(f: Fields) {
    && 1 <= f.version <= 3 && 1 <= f.layer <= 3 && f.rate < 15 && f.sample < 3 && f.padding < 2
    && f.mode < 4 && f.emphasis < 4 && f.emphasis != 2 && f.protection < 2 && f.private < 2 && f.extra < 16
  }

  /** Two bits of version, two of layer and one of protection, below the last three of the sync word. */
  function Second(version: nat, layer: nat, protection: nat): (x: byte)
    requires 1 <= version <= 3 && 1 <= layer <= 3 && protection < 2
  {
    224 + (if version == 1 then 24 else if version == 2 then 16 else 0) + (4 - layer) * 2 + protection
  }

  /** Four bits of bit rate, two of sample rate, padding and private bit. */
  function Third(rate: nat, sample: nat, padding: nat, private: nat): (x: byte)
    requires rate < 15 && sample < 3 && padding < 2 && private < 2
  {
    rate * 16 + sample * 4 + padding * 2 + private
  }

  /** Two bits of mode, four more and two of emphasis. */
  function Fourth(mode: nat, extra: nat, emphasis: nat): (x: byte)
    requires mode < 4 && extra < 16 && emphasis < 4
  {
    mode * 64 + extra * 4 + emphasis
  }

  /** The four bytes, which start with eleven bits of sync. */
  function Encoded(f: Fields): (h: Bytes)
    requires Known(f)
    ensures |h| == 4
  {
    [255, Second(f.version, f.layer, f.protection), Third(f.rate, f.sample, f.padding, f.private), Fourth(f.mode, f.extra, f.emphasis)]
  }

  /** Rates that rise in four even steps to the octave, from 32 kbit/s on. */
  function Octaves(j: nat): nat {
    8 * (4 + j % 4) * Pow2(j / 4)
  }

  /** What bit rate number i > 0 stands for, in kilobits per second. */
  function Kilobits(mpeg1: bool, layer: nat, i: nat): nat {
    if mpeg1 then
      if layer == 1 then 32 * i else if layer == 3 then Octaves(if i == 0 then 0 else i - 1)
      else if i == 1 then 32 else Octaves(i)
    else if layer == 1 then
      if i == 1 then 32 else if i <= 4 then 8 * i + 32 else if i <= 12 then 16 * i else 32 * i - 192
    else if i <= 8 then 8 * i else 16 * i - 64
  }

  lemma OctaveRates(j: nat)
    requires j < 15
    ensures Octaves(j) == [32, 40, 48, 56, 64, 80, 96, 112, 128, 160, 192, 224, 256, 320, 384][j]
  {
    assert Pow2(0) == 1 && Pow2(1) == 2 && Pow2(2) == 4 && Pow2(3) == 8;
  }

  lemma EvenRates(i: nat)
    requires 0 < i < 15
    ensures BitrateRow(true, 1)[i] == 32 * i
    ensures BitrateRow(false, 1)[i] == if i == 1 then 32 else if i <= 4 then 8 * i + 32 else if i <= 12 then 16 * i else 32 * i - 192
    ensures forall layer :: 2 <= layer <= 3 ==> BitrateRow(false, layer)[i] == if i <= 8 then 8 * i else 16 * i - 64
  {
  }

  lemma RateIsKilobits(mpeg1: bool, layer: nat, i: nat)
    requires 1 <= layer <= 3 && 0 < i < 15
    ensures BitrateRow(mpeg1, layer)[i] == Kilobits(mpeg1, layer, i)
  {
    if mpeg1 && layer > 1 {
      OctaveRates(if layer == 2 then i else i - 1);
      hide Octaves;
    } else {
      EvenRates(i);
      hide BitrateRow;
    }
  }

  /** Every row rises. */
  lemma RatesRise(mpeg1: bool, layer: nat, i: nat, j: nat)
    requires 1 <= layer <= 3 && 0 < i < j < 15
    ensures BitrateRow(mpeg1, layer)[i] < BitrateRow(mpeg1, layer)[j]
  {
  }

  /** The bytes a frame can be made of at a time. */
  function Slot(layer: nat): nat {
    if layer == 1 then 4 else 1
  }

  /** Without its padding a frame is as many slots as its samples last for at its bit rate, rounded
      down. */
  predicate Lasts(r: Header, padding: nat) {
    var slot, n := Slot(r.layer), r.frameSize / Slot(r.layer) - padding;
    && r.frameSize == (n + padding) * slot
    && n * (8 * slot * r.sampleRate) <= r.samples * r.bitrate < (n + 1) * (8 * slot * r.sampleRate)
  }

  lemma Quotient(b: nat, k: nat, m: nat, d: nat)
    requires d > 0
    ensures b * k / d * (m * d) <= m * k * b < (b * k / d + 1) * (m * d) || m == 0
  {
    var n := b * k / d;
    assert b * k == n * d + (b * k) % d;
    Scaled(n, m, d);
    Scaled(n + 1, m, d);
    assert m * k * b == m * (b * k);
    MulLe(n * d, b * k, m);
    MulLe(b * k + 1, (n + 1) * d, m);
  }

  lemma Scaled(n: nat, m: nat, d: nat)
    ensures n * (m * d) == (n * d) * m
  {
  }

  lemma SlotsLast(b: nat, k: nat, padding: nat, r: Header)
    requires r.bitrate == b && r.sampleRate > 0 && r.samples == 8 * Slot(r.layer) * k
    requires r.frameSize == (padding + b * k / r.sampleRate) * Slot(r.layer)
    ensures Lasts(r, padding)
  {
    Quotient(b, k, 8 * Slot(r.layer), r.sampleRate);
  }

  lemma SizeLasts(b: nat, d: nat, version: nat, layer: nat, padding: nat, r: Header)
    requires 1 <= version <= 3 && 1 <= layer <= 3 && padding < 2 && b > 0 && d > 0
    requires r.frameSize == FrameSize(b, d, version, layer, padding) && r.layer == layer && r.bitrate == b && r.sampleRate == d
    requires r.samples == 32 * (if layer == 1 then 12 else if layer == 2 || version == 1 then 36 else 18)
    ensures Lasts(r, padding)
  {
    hide Lasts;
    SlotsLast(b, if layer == 1 then 12 else if layer == 2 || version == 1 then 144 else 72, padding, r);
  }

  /** What the fields stand for. */
  predicate Means(r: Header, f: Fields) {
    && r.version == f.version && r.layer == f.layer && r.channels == (if f.mode == 3 then 1 else 2)
    && r.samples == 32 * (if f.layer == 1 then 12 else if f.layer == 2 || f.version == 1 then 36 else 18)
    && r.sampleRate * (if f.version == 1 then 1 else if f.version == 2 then 2 else 4)
       == (if f.sample == 0 then 44100 else if f.sample == 1 then 48000 else 32000)
    && (if f.rate == 0 then r.bitrate == r.frameSize == 0
        else r.bitrate == 1000 * Kilobits(f.version == 1, f.layer, f.rate) > 0 && Lasts(r, f.padding))
  }

  lemma MeansKind(r: Header, f: Fields)
    requires Means(r, f)
    ensures r.version == f.version && r.layer == f.layer
  {
  }

  lemma SecondCode(version: nat, layer: nat, protection: nat)
    requires 1 <= version <= 3 && 1 <= layer <= 3 && protection < 2
    ensures var x := Second(version, layer, protection);
            x / 32 == 7 && x / 8 % 4 == 4 - (if version == 3 then 4 else version) && x / 2 % 4 == 4 - layer
  {
  }

  lemma ThirdCode(rate: nat, sample: nat, padding: nat, private: nat)
    requires rate < 15 && sample < 3 && padding < 2 && private < 2
    ensures var x := Third(rate, sample, padding, private); x / 16 == rate && x / 4 % 4 == sample && x / 2 % 2 == padding
  {
  }

  lemma FourthCode(mode: nat, extra: nat, emphasis: nat)
    requires mode < 4 && extra < 16 && emphasis < 4
    ensures var x := Fourth(mode, extra, emphasis); x / 64 == mode && x % 4 == emphasis
  {
  }

  lemma ReadFields(h: Bytes, v: nat, l: nat, rate: nat, sample: nat, padding: nat, mode: nat)
    requires |h| == HEADER_SIZE && h[0] == 255 && h[1] / 32 == 7 && h[1] / 8 % 4 == 4 - v && h[1] / 2 % 4 == 4 - l
    requires h[2] / 16 == rate && h[2] / 4 % 4 == sample && h[2] / 2 % 2 == padding && h[3] / 64 == mode && h[3] % 4 != 2
    requires (v == 1 || v == 2 || v == 4) && 1 <= l <= 3 && rate < 15 && sample < 3
    ensures var version := if v == 4 then 3 else v;
            var bitrate, sampleRate := BitrateRow(version == 1, l)[rate] * 1000, SampleRate(sample, version);
            ReadHeader(h)
            == Some(Header(FrameSize(bitrate, sampleRate, version, l, padding), bitrate, version, l, sampleRate,
                           if mode == 3 then 1 else 2, if l == 1 then 384 else if l == 2 || version == 1 then 1152 else 576))
  {
    hide BitrateRow, FrameSize, SampleRate;
  }

  lemma CodeFields(f: Fields)
    requires Known(f)
    ensures var e, v := Encoded(f), if f.version == 3 then 4 else f.version;
            && e[0] == 255 && e[1] / 32 == 7 && e[1] / 8 % 4 == 4 - v && e[1] / 2 % 4 == 4 - f.layer
            && e[2] / 16 == f.rate && e[2] / 4 % 4 == f.sample && e[2] / 2 % 2 == f.padding
            && e[3] / 64 == f.mode && e[3] % 4 == f.emphasis
  {
    hide Second, Third, Fourth;
    SecondCode(f.version, f.layer, f.protection);
    ThirdCode(f.rate, f.sample, f.padding, f.private);
    FourthCode(f.mode, f.extra, f.emphasis);
  }

  lemma Read(f: Fields, a: byte, b: byte)
    requires Known(f)
    ensures var rate, sampleRate := BitrateRow(f.version == 1, f.layer)[f.rate] * 1000, SampleRate(f.sample, f.version);
            ReadHeader(Encoded(f) + [a, b])
            == Some(Header(FrameSize(rate, sampleRate, f.version, f.layer, f.padding), rate, f.version, f.layer, sampleRate,
                           if f.mode == 3 then 1 else 2, if f.layer == 1 then 384 else if f.layer == 2 || f.version == 1 then 1152 else 576))
  {
    hide BitrateRow, FrameSize, SampleRate, ReadHeader, Encoded;
    CodeFields(f);
    ReadFields(Encoded(f) + [a, b], if f.version == 3 then 4 else f.version, f.layer, f.rate, f.sample, f.padding, f.mode);
  }

  /** Reading a header without reserved fields gives what they stand for. */
  lemma HeaderMeans(f: Fields, a: byte, b: byte)
    requires Known(f)
    ensures ReadHeader(Encoded(f) + [a, b]).Some? && Means(ReadHeader(Encoded(f) + [a, b]).value, f)
  {
    hide BitrateRow, Kilobits, FrameSize, Lasts, ReadHeader, Encoded;
    Read(f, a, b);
    if f.rate > 0 { RateIsKilobits(f.version == 1, f.layer, f.rate); } else { FreeFormat(f.version == 1, f.layer); }
    var r := ReadHeader(Encoded(f) + [a, b]).value;
    NoSizeWithoutRate(r.sampleRate, f.version, f.layer, f.padding);
    if f.rate > 0 {
      BitrateBounds(f.version == 1, f.layer, f.rate);
      SizeLasts(r.bitrate, r.sampleRate, f.version, f.layer, f.padding, r);
    }
  }

  function FieldsOf(h: Bytes): Fields
    requires |h| >= 4
  {
    var v := h[1] / 8 % 4;
    Fields(if v == 3 then 1 else if v == 2 then 2 else 3, 4 - h[1] / 2 % 4, h[2] / 16, h[2] / 4 % 4, h[2] / 2 % 2, h[3] / 64, h[3] % 4,
           h[1] % 2, h[2] % 2, h[3] / 4 % 16)
  }

  lemma TwoDivisions(x: nat)
    ensures x / 16 == x / 4 / 4 && x / 4 == x / 2 / 2 && x / 8 == x / 4 / 2 && x / 32 == x / 8 / 4 && x / 64 == x / 4 / 16
  {
  }

  lemma SecondByte(x: byte)
    requires x / 32 == 7
    ensures x == 224 + x / 8 % 4 * 8 + x / 2 % 4 * 2 + x % 2
  {
    TwoDivisions(x);
    assert x / 2 / 4 == x / 8;
  }

  lemma ThirdByte(x: byte)
    ensures x / 16 < 16 && x == x / 16 * 16 + x / 4 % 4 * 4 + x / 2 % 2 * 2 + x % 2
  {
    TwoDivisions(x);
  }

  lemma FourthByte(x: byte)
    ensures x / 64 < 4 && x == x / 64 * 64 + x / 4 % 16 * 4 + x % 4
  {
    TwoDivisions(x);
  }

  lemma EncodedFields(h: Bytes)
    requires |h| == HEADER_SIZE && h[0] == 255 && h[1] / 32 == 7 && Known(FieldsOf(h)) && h[1] / 8 % 4 != 1
    ensures h == Encoded(FieldsOf(h)) + [h[4], h[5]]
  {
    hide Known;
    SecondByte(h[1]);
    ThirdByte(h[2]);
    FourthByte(h[3]);
    var e, v, l := Encoded(FieldsOf(h)), h[1] / 8 % 4, h[1] / 2 % 4;
    assert v == 0 || v == 2 || v == 3;
    assert e[1] == h[1];
    assert e[2] == h[2];
    assert e[3] == h[3];
  }

  /** And no other header is read. */
  lemma OnlyEncoded(h: Bytes)
    requires |h| == HEADER_SIZE && ReadHeader(h).Some?
    ensures Known(FieldsOf(h)) && h == Encoded(FieldsOf(h)) + [h[4], h[5]]
  {
    hide BitrateRow, FrameSize, SampleRate, Encoded;
    EncodedFields(h);
  }

  /** The usual frame, MPEG1 layer 3 at 128 kbit/s and 44.1 kHz, has 417 bytes, or 418 with padding. */
  lemma UsualFrame(padding: nat, a: byte, b: byte)
    requires padding < 2
    ensures var r := ReadHeader([255, 251, 144 + 2 * padding, 0, a, b]);
            r.Some? && r.value.frameSize == 417 + padding && r.value.bitrate == 128000 && r.value.sampleRate == 44100
  {
    DivModUnique(128000 * 144, 44100, 417, 42300);
  }
}
