/** What the walk of avi_reader.c makes of files by other writers, which group their chunks in lists,
    go on in further 'RIFF' chunks and put other chunks in between. */
module AviWalk {
  import opened Basics
  import opened AviLayout

  /** Data; the head of a list or file that the walk goes into; anything else, with all it holds. */
  datatype Item =
    | DataChunk(track: nat, kind: string, data: Bytes)
    | Inside(outer: string, inner: string, size: nat)
    | OtherChunk(id: Bytes, body: Bytes)

  /** What kinds of data, lists and files the walk looks at. Of other lists and files, and of other
      chunks, anything goes except eight zero bytes, which end it. */
  predicate Fits(item: Item) {
    match item
    case DataChunk(track, kind, data) => track < 100 && (kind == "dc" || kind == "db" || kind == "dd" || kind == "wb") && |data| < WORD
    case Inside(outer, inner, _) =>
      (outer == "LIST" && inner == "rec ") || (outer == "LIST" && inner == "movi") || (outer == "RIFF" && inner == "AVIX")
    case OtherChunk(id, body) => |id| == 4 && |body| < WORD && Ignored(id, body)
  }

  predicate Ignored(id: Bytes, body: Bytes)
    requires |id| == 4
  {
    && id[2..] != Ascii("dc") && id[2..] != Ascii("db") && id[2..] != Ascii("dd") && id[2..] != Ascii("wb")
    && (id == Ascii("LIST") ==> |body| >= 4 && body[..4] != Ascii("rec ") && body[..4] != Ascii("movi"))
    && (id == Ascii("RIFF") ==> |body| >= 4 && body[..4] != Ascii("AVIX"))
    && (id == [0, 0, 0, 0] ==> body != [])
  }

  /** The two digits of a track's number. */
  function Digits(n: nat): (d: Bytes)
    requires n < 100
    ensures |d| == 2
  {
    Ascii(["0123456789"[n / 10], "0123456789"[n % 10]])
  }

  function Framed(id: Bytes, body: Bytes): (b: Bytes)
    requires |id| == 4
    ensures |b| == 8 + |body| + |Padding(|body|)|
  {
    id + U32(|body|) + body + Padding(|body|)
  }

  function ItemBytes(item: Item): (b: Bytes)
    requires Fits(item)
    ensures |b| % 2 == 0
  {
    match item
    case DataChunk(track, kind, data) => Framed(Digits(track) + Ascii(kind), data)
    case Inside(outer, inner, size) => Ascii(outer) + U32(size) + Ascii(inner)
    case OtherChunk(id, body) => Framed(id, body)
  }

  function ItemsBytes(items: seq<Item>): Bytes
    requires forall i :: 0 <= i < |items| ==> Fits(items[i])
  {
    if items == [] then [] else ItemBytes(items[0]) + ItemsBytes(items[1..])
  }

  /** The data chunks alone. */
  function DataOf(items: seq<Item>): seq<(int, Bytes)> {
    if items == [] then []
    else (if items[0].DataChunk? then [(items[0].track as int, items[0].data)] else []) + DataOf(items[1..])
  }

  // ---------- one item ----------

  lemma FramedParts(file: Bytes, pos: nat, id: Bytes, body: Bytes, rest: Bytes)
    requires |id| == 4 && |body| < WORD && pos <= |file| && file[pos..] == Framed(id, body) + rest
    ensures pos + |Framed(id, body)| <= |file| && file[pos + |Framed(id, body)|..] == rest
    ensures file[pos..pos + 4] == id && FromU32(file[pos + 4..pos + 8]) == |body| && file[pos + 8..pos + 8 + |body|] == body
  {
    hide U32, FromU32, Padding;
    var f := Framed(id, body);
    U32RoundTrip(|body|);
    assert (f + rest)[0..4] == id && (f + rest)[4..8] == U32(|body|) && (f + rest)[8..8 + |body|] == body;
    assert file[pos..][0..4] == file[pos..pos + 4] && file[pos..][4..8] == file[pos + 4..pos + 8];
    assert file[pos..][8..8 + |body|] == file[pos + 8..pos + 8 + |body|];
    assert file[pos..][|f|..] == file[pos + |f|..];
  }

  lemma DataId(track: nat, kind: string)
    requires track < 100 && (kind == "dc" || kind == "db" || kind == "dd" || kind == "wb")
    ensures var id := Digits(track) + Ascii(kind);
            IsData(id) && TrackOf(id) == track && id != LIST_ID && id != RIFF_ID
  {
    var id := Digits(track) + Ascii(kind);
    assert id[2..] == Ascii(kind);
    assert id[2] == kind[0] as int && id[3] == kind[1] as int;
    DigitValue(track / 10);
    DigitValue(track % 10);
  }

  lemma DigitValue(d: nat)
    requires d < 10
    ensures "0123456789"[d] as int == 48 + d
  {
  }

  lemma DataMet(file: Bytes, pos: nat, item: Item, rest: Bytes)
    requires item.DataChunk? && Fits(item) && pos % 2 == 0 && pos <= |file| && file[pos..] == ItemBytes(item) + rest
    ensures pos + |ItemBytes(item)| <= |file| && file[pos + |ItemBytes(item)|..] == rest
    ensures Walk(file, pos) == [(item.track as int, item.data)] + Walk(file, pos + |ItemBytes(item)|)
  {
    hide Digits, TrackOf, IsData, Framed, FromU32;
    var id, n := Digits(item.track) + Ascii(item.kind), |item.data|;
    FramedParts(file, pos, id, item.data, rest);
    DataId(item.track, item.kind);
    assert NextData(file, pos) == Data(id, n, pos + 8);
    assert SkipChunk(file, pos + 8, n) == pos + |ItemBytes(item)|;
    hide NextData, SkipChunk;
  }

  lemma InsideMet(file: Bytes, pos: nat, item: Item, rest: Bytes)
    requires item.Inside? && Fits(item) && pos <= |file| && file[pos..] == ItemBytes(item) + rest
    ensures |ItemBytes(item)| == 12 && pos + 12 <= |file| && file[pos + 12..] == rest
    ensures Walk(file, pos) == Walk(file, pos + 12)
  {
    hide U32, FromU32, Walk;
    Tags();
    var a, b, c := Ascii(item.outer), U32(item.size), Ascii(item.inner);
    var f := a + b + c + rest;
    assert file[pos..] == f && f[0..4] == a && f[8..12] == c && f[12..] == rest;
    assert file[pos..][0..4] == file[pos..pos + 4] && file[pos..][8..12] == file[pos + 8..pos + 12];
    assert file[pos..][12..] == file[pos + 12..];
    assert NextData(file, pos) == NextData(file, pos + 12);
    SameNext(file, pos, pos + 12);
  }

  /** What is neither data nor goes inside is skipped. */
  lemma Skipped(file: Bytes, pos: nat, id: Bytes, size: nat)
    requires pos + 8 + size <= |file| && file[pos..pos + 4] == id && FromU32(file[pos + 4..pos + 8]) == size && |id| == 4
    requires !IsData(id) && (id == [0, 0, 0, 0] ==> size > 0)
    requires id == LIST_ID ==> size >= 4 && file[pos + 8..pos + 12] != REC_ID && file[pos + 8..pos + 12] != MOVI_ID
    requires id == RIFF_ID ==> size >= 4 && file[pos + 8..pos + 12] != AVIX_ID
    ensures NextData(file, pos) == NextData(file, SkipChunk(file, pos + 8, size))
  {
    hide FromU32, IsData, SkipChunk;
    assert LIST_ID[0] == 76 && RIFF_ID[0] == 82;
  }

  lemma IgnoredIsSkipped(id: Bytes, body: Bytes)
    requires |id| == 4 && Ignored(id, body)
    ensures !IsData(id) && (id == [0, 0, 0, 0] ==> |body| > 0)
    ensures id == LIST_ID ==> |body| >= 4 && body[..4] != REC_ID && body[..4] != MOVI_ID
    ensures id == RIFF_ID ==> |body| >= 4 && body[..4] != AVIX_ID
  {
    Tags();
    assert Ascii("dc") == [100, 99] && Ascii("db") == [100, 98] && Ascii("dd") == [100, 100] && Ascii("wb") == [119, 98];
  }

  lemma OtherMet(file: Bytes, pos: nat, item: Item, rest: Bytes)
    requires item.OtherChunk? && Fits(item) && pos % 2 == 0 && pos <= |file| && file[pos..] == ItemBytes(item) + rest
    ensures pos + |ItemBytes(item)| <= |file| && file[pos + |ItemBytes(item)|..] == rest
    ensures Walk(file, pos) == Walk(file, pos + |ItemBytes(item)|)
  {
    hide FromU32, Walk, Framed, NextData, IsData, Ignored;
    var id, body, q := item.id, item.body, pos + |ItemBytes(item)|;
    FramedParts(file, pos, id, body, rest);
    IgnoredIsSkipped(id, body);
    if |body| >= 4 { assert file[pos + 8..pos + 12] == file[pos + 8..pos + 8 + |body|][..4] == body[..4]; }
    assert SkipChunk(file, pos + 8, |body|) == q;
    Skipped(file, pos, id, |body|);
    SameNext(file, pos, q);
  }

  // ---------- all of them ----------

  /** The walk finds exactly the data chunks, however they are grouped and whatever stands between
      them. */
  lemma {:induction false} WalkItems(file: Bytes, pos: nat, items: seq<Item>)
    requires forall i :: 0 <= i < |items| ==> Fits(items[i])
    requires pos % 2 == 0 && pos <= |file| && file[pos..] == ItemsBytes(items)
    ensures Walk(file, pos) == DataOf(items)
    decreases |items|
  {
    hide Fits, ItemBytes, Walk;
    if items == [] {
      AtTheEnd(file);
    } else {
      var item, rest := items[0], ItemsBytes(items[1..]);
      assert Fits(item);
      if item.DataChunk? { DataMet(file, pos, item, rest); }
      if item.Inside? { InsideMet(file, pos, item, rest); }
      if item.OtherChunk? { OtherMet(file, pos, item, rest); }
      WalkItems(file, pos + |ItemBytes(item)|, items[1..]);
    }
  }

  lemma AtTheEnd(file: Bytes)
    ensures Walk(file, |file|) == []
  {
  }

  /** The chunks out of their groups. */
  function Ungrouped(items: seq<Item>): (u: seq<Item>)
    ensures (forall i :: 0 <= i < |items| ==> Fits(items[i])) ==> forall i :: 0 <= i < |u| ==> Fits(u[i])
    ensures DataOf(u) == DataOf(items)
  {
    if items == [] then []
    else if items[0].DataChunk? then [items[0]] + Ungrouped(items[1..])
    else Ungrouped(items[1..])
  }

  /** So grouping the chunks changes nothing. */
  lemma GroupingIsInvisible(front: Bytes, items: seq<Item>)
    requires |front| % 2 == 0 && forall i :: 0 <= i < |items| ==> Fits(items[i])
    ensures Walk(front + ItemsBytes(items), |front|) == Walk(front + ItemsBytes(Ungrouped(items)), |front|)
  {
    hide Walk, Fits;
    WalkItems(front + ItemsBytes(items), |front|, items);
    WalkItems(front + ItemsBytes(Ungrouped(items)), |front|, Ungrouped(items));
  }
}
