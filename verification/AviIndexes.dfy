/** What the indexes of an AVI file say when their bytes are read as avi_reader.c reads them. */
module AviIndexes {
  import opened Basics
  import opened AviLayout

  // ---------- the common index ----------

  datatype Entry = Entry(id: Bytes, flags: nat, offset: nat, size: nat)

  /** Sixteen bytes of the common index. */
  function ReadEntry(file: Bytes, at: nat): Entry
    requires at + 16 <= |file|
  {
    Entry(file[at..at + 4], FromU32(file[at + 4..at + 8]), FromU32(file[at + 8..at + 12]), FromU32(file[at + 12..at + 16]))
  }

  /** Where the size of the data list at that place leads: the index behind it. */
  function IndexPlace(file: Bytes, list: nat): nat
    requires list + 8 <= |file|
  {
    list + 8 + FromU32(file[list + 4..list + 8])
  }

  /** A chunk as the index gives it: its id, whether it is a key frame, and its data. */
  datatype Indexed = Indexed(id: Bytes, key: bool, data: Bytes)

  /** The chunk that an entry leads to, when the file has it there, from the tag of the list on. */
  function Lookup(file: Bytes, tag: nat, e: Entry): Option<Indexed> {
    var at := tag + e.offset;
    if at + 8 + e.size <= |file| && file[at..at + 4] == e.id && FromU32(file[at + 4..at + 8]) == e.size
    then Some(Indexed(e.id, e.flags / 16 % 2 == 1, file[at + 8..at + 8 + e.size]))
    else None
  }

  /** Chunk k of a file, found through the common index. */
  function ByIndex(file: Bytes, list: nat, k: nat): Option<Indexed> {
    if list + 8 > |file| then None
    else
      var at := IndexPlace(file, list);
      if at + 8 > |file| || file[at..at + 4] != Ascii("idx1") || 16 * k + 16 > FromU32(file[at + 4..at + 8]) then None
      else if at + 8 + 16 * k + 16 > |file| then None
      else Lookup(file, list + 8, ReadEntry(file, at + 8 + 16 * k))
  }

  lemma EntryParts(id: Bytes, a: Bytes, b: Bytes, c: Bytes, file: Bytes, at: nat)
    requires |id| == |a| == |b| == |c| == 4 && at + 16 <= |file| && file[at..at + 16] == id + a + b + c
    ensures file[at..at + 4] == id && file[at + 4..at + 8] == a && file[at + 8..at + 12] == b && file[at + 12..at + 16] == c
  {
    var e := id + a + b + c;
    assert e[0..4] == id && e[4..8] == a && e[8..12] == b && e[12..16] == c;
    SliceOfSlice(file, at, at + 16, 0, 4);
    SliceOfSlice(file, at, at + 16, 4, 4);
    SliceOfSlice(file, at, at + 16, 8, 4);
    SliceOfSlice(file, at, at + 16, 12, 4);
  }

  /** What the bytes of entry k say. */
  lemma EntrySays(file: Bytes, at: nat, chunks: seq<Chunk>, tracks: seq<Track>, k: nat)
    requires k < |chunks| && at + 16 <= |file| && file[at..at + 16] == IndexEntry(chunks, k, tracks)
    ensures ReadEntry(file, at)
         == Entry(ChunkId(chunks[k].track, tracks), if chunks[k].key && |chunks[k].data| < DELTA_FRAME then 16 else 0,
                  IndexedOffset(chunks, k), IndexedSize(chunks[k]))
  {
    hide ChunkId, IndexedOffset, U32, FromU32;
    OffsetSmall(chunks, k);
    U32RoundTrip(IndexFlags(chunks[k]));
    U32RoundTrip(IndexedOffset(chunks, k));
    U32RoundTrip(IndexedSize(chunks[k]));
    EntryParts(ChunkId(chunks[k].track, tracks), U32(IndexFlags(chunks[k])), U32(IndexedOffset(chunks, k)), U32(IndexedSize(chunks[k])), file, at);
  }

  lemma OffsetSmall(chunks: seq<Chunk>, k: nat)
    requires k <= |chunks|
    ensures IndexedOffset(chunks, k) < WORD
  {
  }

  /** The size that a closed file states for its data list. */
  function ListSize(chunks: seq<Chunk>, tracks: seq<Track>): nat {
    4 + Start(chunks, |chunks|) + 32 * |tracks| + 8 * |chunks|
  }

  /** The size of the data list leads to the common index, whose own size is that of its entries. */
  lemma IndexFound(headers: Bytes, chunks: seq<Chunk>, tracks: seq<Track>)
    requires ListSize(chunks, tracks) < WORD && 16 * |chunks| < WORD && forall c :: c in chunks ==> c.track < |tracks|
    ensures var file := WholeFile(headers, ListSize(chunks, tracks), chunks, tracks);
            && |headers| + 8 <= |file| && IndexPlace(file, |headers|) == |headers| + 8 + ListSize(chunks, tracks)
            && var at := IndexPlace(file, |headers|);
            && |file| == at + 8 + 16 * |chunks| && file[at..at + 4] == Ascii("idx1") && FromU32(file[at + 4..at + 8]) == 16 * |chunks|
  {
    hide Movi, IndexBytes, Start, U32, FromU32, IxAll, CountBelow;
    var size := ListSize(chunks, tracks);
    var file, pre := WholeFile(headers, size, chunks, tracks), Prefix(headers, size);
    var movi, ix := Movi(chunks, |chunks|, tracks), IxAll(chunks, |tracks|, |headers| + 12, tracks);
    Tags();
    CountsAddUp(chunks, |tracks|);
    FileParts(pre, movi, ix, IDX1_ID, U32(16 * |chunks|), IndexBytes(chunks, |chunks|, tracks));
    U32RoundTrip(16 * |chunks|);
    U32RoundTrip(size);
    PrefixSize(headers, size);
    assert file[0..|pre|] == pre;
    SliceOfSlice(file, 0, |pre|, |headers| + 4, 4);
  }

  lemma PrefixSize(headers: Bytes, listSize: nat)
    ensures Prefix(headers, listSize)[|headers| + 4..|headers| + 8] == U32(listSize)
  {
  }

  /** Reading a closed file through the common index gives every chunk's id, key flag and data in
      order and nothing more, when all chunks are below 2 GiB. */
  lemma IndexReads(headers: Bytes, chunks: seq<Chunk>, tracks: seq<Track>, k: nat)
    requires ListSize(chunks, tracks) < WORD && 16 * |chunks| < WORD
    requires forall c :: c in chunks ==> c.track < |tracks| && |c.data| < DELTA_FRAME
    ensures var file := WholeFile(headers, ListSize(chunks, tracks), chunks, tracks);
            ByIndex(file, |headers|, k)
            == if k < |chunks| then Some(Indexed(ChunkId(chunks[k].track, tracks), chunks[k].key, chunks[k].data)) else None
  {
    hide WholeFile, ChunkId, IndexEntry, Start, FromU32, IndexedOffset, IndexPlace;
    var file := WholeFile(headers, ListSize(chunks, tracks), chunks, tracks);
    IndexFound(headers, chunks, tracks);
    if k < |chunks| {
      IndexEntryInFile(headers, ListSize(chunks, tracks), chunks, tracks, k);
      EntrySays(file, IndexPlace(file, |headers|) + 8 + 16 * k, chunks, tracks, k);
      StartMono(chunks, k, |chunks|);
      assert forall i :: 0 <= i < |chunks| ==> chunks[i] in chunks;
      OffsetExact(chunks, k);
      IndexFindsChunk(headers, ListSize(chunks, tracks), chunks, tracks, k);
    }
  }

  /** All chunks and nothing more are found through the index. */
  ghost predicate IndexLeads(file: Bytes, list: nat, chunks: seq<Chunk>, tracks: seq<Track>) {
    forall k: nat ::
      ByIndex(file, list, k)
      == if k < |chunks| then Some(Indexed(ChunkId(chunks[k].track, tracks), chunks[k].key, chunks[k].data)) else None
  }

  /** A chunk of 2 GiB or more is not found. */
  lemma IndexMisreads(headers: Bytes, chunks: seq<Chunk>, tracks: seq<Track>, k: nat)
    requires ListSize(chunks, tracks) < WORD && 16 * |chunks| < WORD && forall c :: c in chunks ==> c.track < |tracks|
    requires k < |chunks| && |chunks[k].data| >= DELTA_FRAME
    ensures var r := ByIndex(WholeFile(headers, ListSize(chunks, tracks), chunks, tracks), |headers|, k);
            r.Some? ==> |r.value.data| != |chunks[k].data|
  {
    hide WholeFile, ChunkId, IndexEntry, Start, FromU32, IndexedOffset, IndexPlace;
    var file := WholeFile(headers, ListSize(chunks, tracks), chunks, tracks);
    IndexFound(headers, chunks, tracks);
    IndexEntryInFile(headers, ListSize(chunks, tracks), chunks, tracks, k);
    EntrySays(file, IndexPlace(file, |headers|) + 8 + 16 * k, chunks, tracks, k);
  }

  /** They are exactly when every chunk is below 2 GiB. */
  lemma IndexLeadsIff(headers: Bytes, chunks: seq<Chunk>, tracks: seq<Track>)
    requires ListSize(chunks, tracks) < WORD && 16 * |chunks| < WORD && forall c :: c in chunks ==> c.track < |tracks|
    ensures IndexLeads(WholeFile(headers, ListSize(chunks, tracks), chunks, tracks), |headers|, chunks, tracks)
            <==> forall c :: c in chunks ==> |c.data| < DELTA_FRAME
  {
    hide WholeFile, ByIndex, ListSize, ChunkId;
    var file := WholeFile(headers, ListSize(chunks, tracks), chunks, tracks);
    if k: nat :| k < |chunks| && |chunks[k].data| >= DELTA_FRAME {
      IndexMisreads(headers, chunks, tracks, k);
      assert ByIndex(file, |headers|, k) != Some(Indexed(ChunkId(chunks[k].track, tracks), chunks[k].key, chunks[k].data));
      assert chunks[k] in chunks;
    } else {
      forall k: nat
        ensures ByIndex(file, |headers|, k)
             == if k < |chunks| then Some(Indexed(ChunkId(chunks[k].track, tracks), chunks[k].key, chunks[k].data)) else None
      {
        IndexReads(headers, chunks, tracks, k);
      }
    }
  }

  // ---------- the tracks' own indexes ----------

  /** What the head of a track's own index says. */
  datatype IxHeader = IxHeader(id: Bytes, size: nat, longs: nat, sub: byte, kind: byte, entries: nat, chunkId: Bytes, base: nat)

  function ReadIxHeader(file: Bytes, at: nat): IxHeader
    requires at + 32 <= |file|
  {
    IxHeader(file[at..at + 4], FromU32(file[at + 4..at + 8]), FromLittleEndian(file[at + 8..at + 10]), file[at + 10], file[at + 11],
             FromU32(file[at + 12..at + 16]), file[at + 16..at + 20], FromLittleEndian(file[at + 20..at + 28]))
  }

  lemma IxHeaderBytes(t: nat, n: nat, base: nat, tracks: seq<Track>, file: Bytes, at: nat)
    requires 24 + 8 * n < WORD && base < WORD && at + 32 <= |file|
    requires file[at..at + 32] == IxId(t) + U32(24 + 8 * n) + IxHead(t, n, base, tracks)
    ensures ReadIxHeader(file, at) == IxHeader(IxId(t), 24 + 8 * n, 2, 0, 1, n, ChunkId(t, tracks), base)
  {
    hide LittleEndian, FromLittleEndian, ChunkId, IxId, Pow2;
    Pow2Values();
    LittleEndianRoundTrip(24 + 8 * n, 4);
    LittleEndianRoundTrip(2, 2);
    LittleEndianRoundTrip(n, 4);
    LittleEndianRoundTrip(base, 8);
    var h := IxId(t) + U32(24 + 8 * n) + IxHead(t, n, base, tracks);
    assert h[0..4] == IxId(t) && h[4..8] == LittleEndian(24 + 8 * n, 4) && h[8..10] == LittleEndian(2, 2) && h[10] == 0 && h[11] == 1;
    assert h[12..16] == LittleEndian(n, 4) && h[16..20] == ChunkId(t, tracks) && h[20..28] == LittleEndian(base, 8);
    SliceOfSlice(file, at, at + 32, 0, 4);
    SliceOfSlice(file, at, at + 32, 4, 4);
    SliceOfSlice(file, at, at + 32, 8, 2);
    SliceOfSlice(file, at, at + 32, 12, 4);
    SliceOfSlice(file, at, at + 32, 16, 4);
    SliceOfSlice(file, at, at + 32, 20, 8);
    assert file[at..at + 32][10] == file[at + 10] && file[at..at + 32][11] == file[at + 11];
  }

  /** What the first k chunks take that are of track t. */
  function Own(chunks: seq<Chunk>, k: nat, t: nat): nat
    requires k <= |chunks|
  {
    if k == 0 then 0 else Own(chunks, k - 1, t) + if chunks[k - 1].track == t then ChunkSize(chunks[k - 1]) else 0
  }

  lemma {:induction false} OwnAtMost(chunks: seq<Chunk>, k: nat, t: nat)
    requires k <= |chunks|
    ensures Own(chunks, k, t) <= Start(chunks, k)
    ensures (forall c :: c in chunks ==> c.track == t) ==> Own(chunks, k, t) == Start(chunks, k)
    decreases k
  {
    hide ChunkSize;
    if k == 0 {
    } else {
      OwnAtMost(chunks, k - 1, t);
      assert chunks[k - 1] in chunks;
    }
  }

  lemma IxNextIs(offset: nat, c: Chunk)
    requires |c.data| + 1 < DELTA_FRAME && offset + ChunkSize(c) + 4 < WORD
    ensures IxNext(offset, NotedSize(|c.data|, c.key)) == offset + ChunkSize(c) + 4
  {
    var n := |c.data|;
    DivModUnique(NotedSize(n, c.key) + 1, DELTA_FRAME, if c.key then 0 else 1, n + 1);
    hide NotedSize;
    Evened(n);
    hide Padding;
    DivModUnique(offset + (n + 1) / 2 * 2 + 12, WORD, 0, offset + (n + 1) / 2 * 2 + 12);
  }

  lemma Evened(n: nat)
    ensures (n + 1) / 2 * 2 == n + |Padding(n)|
  {
  }

  /** The offsets of a track's own index run over the chunks of that track alone, and count four bytes
      too many for each. */
  lemma {:induction false} IxOffsetIs(chunks: seq<Chunk>, k: nat, t: nat)
    requires k <= |chunks| && 4 + Start(chunks, k) + 4 * k < WORD && forall c :: c in chunks ==> |c.data| + 1 < DELTA_FRAME
    ensures IxOffset(chunks, k, t) == 4 + Own(chunks, k, t) + 4 * Count(chunks, k, t)
    decreases k
  {
    hide IxNext, NotedSize, ChunkSize;
    if k == 0 {
    } else {
      IxOffsetIs(chunks, k - 1, t);
      OwnAtMost(chunks, k - 1, t);
      if chunks[k - 1].track == t {
        assert chunks[k - 1] in chunks;
        IxNextIs(IxOffset(chunks, k - 1, t), chunks[k - 1]);
      }
    }
  }

  lemma {:induction false} CountMono(chunks: seq<Chunk>, j: nat, k: nat, t: nat)
    requires j <= k <= |chunks|
    ensures Count(chunks, j, t) <= Count(chunks, k, t)
    decreases k
  {
    if j == k {
    } else {
      CountMono(chunks, j, k - 1, t);
    }
  }

  lemma {:induction false} IxEntryAt(chunks: seq<Chunk>, j: nat, k: nat, t: nat)
    requires j < k <= |chunks| && chunks[j].track == t
    ensures var at := 8 * Count(chunks, j, t);
            && at + 8 <= |IxEntries(chunks, k, t)|
            && IxEntries(chunks, k, t)[at..at + 8] == U32(IxOffset(chunks, j, t)) + U32(NotedSize(|chunks[j].data|, chunks[j].key))
    decreases k
  {
    hide U32, IxOffset, NotedSize;
    CountMono(chunks, j + 1, k, t);
    if j + 1 == k {
    } else {
      IxEntryAt(chunks, j, k - 1, t);
    }
  }

  /** Where a track's own index stands in a closed file, and in it the entry of chunk k. */
  function IxPlace(headers: Bytes, chunks: seq<Chunk>, t: nat): nat {
    |headers| + 12 + Start(chunks, |chunks|) + 32 * t + 8 * CountBelow(chunks, t)
  }

  function IxEntryPlace(headers: Bytes, chunks: seq<Chunk>, k: nat): nat
    requires k < |chunks|
  {
    IxPlace(headers, chunks, chunks[k].track) + 32 + 8 * Count(chunks, k, chunks[k].track)
  }

  /** The eight bytes of the entry of chunk k, and the head of its index, in the file. */
  lemma IxBytesInFile(headers: Bytes, listSize: nat, chunks: seq<Chunk>, tracks: seq<Track>, k: nat)
    requires k < |chunks| && chunks[k].track < |tracks|
    ensures var file := WholeFile(headers, listSize, chunks, tracks); var c := chunks[k];
            var n, at, e := Count(chunks, |chunks|, c.track), IxPlace(headers, chunks, c.track), IxEntryPlace(headers, chunks, k);
            && at + 32 <= |file| && e + 8 <= |file|
            && file[at..at + 32] == IxId(c.track) + U32(24 + 8 * n) + IxHead(c.track, n, |headers| + 12, tracks)
            && file[e..e + 8] == U32(IxOffset(chunks, k, c.track)) + U32(NotedSize(|c.data|, c.key))
  {
    hide WholeFile, Start, CountBelow, U32, IxHead, IxId, IxOffset, NotedSize, Count, IxEntries;
    var file, t := WholeFile(headers, listSize, chunks, tracks), chunks[k].track;
    var n, at, base := Count(chunks, |chunks|, t), IxPlace(headers, chunks, t), |headers| + 12;
    IxInFile(headers, listSize, chunks, tracks, t);
    var ix, head, entries := Ix(chunks, t, base, tracks), IxId(t) + U32(24 + 8 * n) + IxHead(t, n, base, tracks), IxEntries(chunks, |chunks|, t);
    assert ix == head + entries;
    IxEntryAt(chunks, k, |chunks|, t);
    SliceOfSlice(file, at, at + |ix|, 0, 32);
    SliceOfSlice(file, at, at + |ix|, 32 + 8 * Count(chunks, k, t), 8);
    SliceOfSlice(ix, 32, |ix|, 8 * Count(chunks, k, t), 8);
    assert ix[32..|ix|] == entries;
  }

  /** What an entry of a track's own index says: where the chunk is, with the offset counted from the
      base in the head and eight bytes too high, its size, and whether it is a key frame. */
  datatype IxEntry = IxEntry(place: int, size: nat, key: bool)

  function ReadIxEntry(file: Bytes, head: nat, at: nat): IxEntry
    requires head + 32 <= |file| && at + 8 <= |file|
  {
    var noted := FromU32(file[at + 4..at + 8]);
    IxEntry(ReadIxHeader(file, head).base + FromU32(file[at..at + 4]) - 8, noted % DELTA_FRAME, noted < DELTA_FRAME)
  }

  lemma IxEntryBytes(a: nat, noted: nat, file: Bytes, at: nat)
    requires a < WORD && noted < WORD && at + 8 <= |file| && file[at..at + 8] == U32(a) + U32(noted)
    ensures FromU32(file[at..at + 4]) == a && FromU32(file[at + 4..at + 8]) == noted
  {
    hide U32, FromU32;
    var e := U32(a) + U32(noted);
    assert e[0..4] == U32(a) && e[4..8] == U32(noted);
    SliceOfSlice(file, at, at + 8, 0, 4);
    SliceOfSlice(file, at, at + 8, 4, 4);
    U32RoundTrip(a);
    U32RoundTrip(noted);
  }

  /** The head of a track's own index is right, and so are the sizes and key flags of its entries; but
      the entry of a chunk leads to it exactly when four bytes for each chunk of the track before it
      make up for the chunks of other tracks before it and four bytes more. */
  lemma IxReads(headers: Bytes, chunks: seq<Chunk>, tracks: seq<Track>, k: nat)
    requires k < |chunks| && |headers| + 12 < WORD && ListSize(chunks, tracks) < WORD
    requires forall c :: c in chunks ==> c.track < |tracks| && |c.data| + 1 < DELTA_FRAME
    ensures var file, c := WholeFile(headers, ListSize(chunks, tracks), chunks, tracks), chunks[k];
            var at, e, n := IxPlace(headers, chunks, c.track), IxEntryPlace(headers, chunks, k), Count(chunks, |chunks|, c.track);
            && at + 32 <= |file| && e + 8 <= |file|
            && ReadIxHeader(file, at) == IxHeader(IxId(c.track), 24 + 8 * n, 2, 0, 1, n, ChunkId(c.track, tracks), |headers| + 12)
            && var r := ReadIxEntry(file, at, e);
            && r.size == |c.data| && (r.key <==> c.key)
            && (r.place == |headers| + 12 + Start(chunks, k)
                <==> 4 * Count(chunks, k, c.track) == 4 + Start(chunks, k) - Own(chunks, k, c.track))
  {
    hide WholeFile, Start, CountBelow, U32, FromU32, IxHead, IxId, IxOffset, Count, ChunkId, IxPlace, IxEntryPlace, Own;
    var file, c := WholeFile(headers, ListSize(chunks, tracks), chunks, tracks), chunks[k];
    assert c in chunks;
    IxBytesInFile(headers, ListSize(chunks, tracks), chunks, tracks, k);
    StartMono(chunks, k, |chunks|);
    IxOffsetIs(chunks, k, c.track);
    OwnAtMost(chunks, k, c.track);
    IxHeaderBytes(c.track, Count(chunks, |chunks|, c.track), |headers| + 12, tracks, file, IxPlace(headers, chunks, c.track));
    IxEntryBytes(IxOffset(chunks, k, c.track), NotedSize(|c.data|, c.key), file, IxEntryPlace(headers, chunks, k));
  }

  /** So the first chunk of a track is never found there, and in a file of one track only the second
      one is. */
  lemma IxMisleads(chunks: seq<Chunk>, k: nat, t: nat)
    requires k < |chunks| && chunks[k].track == t
    ensures Count(chunks, k, t) == 0 ==> 4 * Count(chunks, k, t) != 4 + Start(chunks, k) - Own(chunks, k, t)
    ensures (forall c :: c in chunks ==> c.track == t) ==>
              (4 * Count(chunks, k, t) == 4 + Start(chunks, k) - Own(chunks, k, t) <==> k == 1)
  {
    hide Start, Own;
    OwnAtMost(chunks, k, t);
    if forall c :: c in chunks ==> c.track == t { OnlyTrack(chunks, k, t); }
  }

  lemma {:induction false} OnlyTrack(chunks: seq<Chunk>, k: nat, t: nat)
    requires k <= |chunks| && forall c :: c in chunks ==> c.track == t
    ensures Count(chunks, k, t) == k
    decreases k
  {
    if k == 0 {
    } else {
      OnlyTrack(chunks, k - 1, t);
      assert chunks[k - 1] in chunks;
    }
  }
}
