/** The data part of an AVI file as avi_writer.c lays it out: chunks behind a 'movi' tag, an 'ixNN'
    index for each track and the 'idx1' index of them all, and what avi_reader.c finds when it
    walks the chunks. */
module AviLayout {
  import opened Basics

  const DELTA_FRAME := 0x8000_0000
  const KEY_FRAME := 0x10
  const TRACKS_MAX := 3

  const LIST_ID: Bytes := [76, 73, 83, 84]
  const MOVI_ID: Bytes := [109, 111, 118, 105]
  const REC_ID: Bytes := [114, 101, 99, 32]
  const RIFF_ID: Bytes := [82, 73, 70, 70]
  const AVIX_ID: Bytes := [65, 86, 73, 88]
  const IDX1_ID: Bytes := [105, 100, 120, 49]

  /** A 32-bit field. */
  function U32(v: nat): (b: Bytes)
    ensures |b| == 4
  {
    LittleEndian(v, 4)
  }

  function FromU32(b: Bytes): nat
    requires |b| == 4
  {
    FromLittleEndian(b)
  }

  lemma U32RoundTrip(v: nat)
    requires v < WORD
    ensures FromU32(U32(v)) == v
  {
    hide LittleEndian, FromLittleEndian, Pow2;
    Pow2Values();
    LittleEndianRoundTrip(v, 4);
  }

  datatype Track = Video | Audio(blockAlign: nat)

  /** A finished chunk: its track, its data and whether it is a key frame. */
  datatype Chunk = Chunk(track: nat, data: Bytes, key: bool)

  function ChunkId(n: nat, tracks: seq<Track>): (b: Bytes)
    ensures |b| == 4
  {
    if n < |tracks| && n < TRACKS_MAX then
      [48 + n / 10, 48 + n % 10] + (if tracks[n].Video? then [100, 99] else [119, 98])
    else [74, 85, 78, 75]
  }

  /** The tags, spelled out. */
  lemma Tags()
    ensures LIST_ID == Ascii("LIST") && MOVI_ID == Ascii("movi") && REC_ID == Ascii("rec ") && RIFF_ID == Ascii("RIFF")
    ensures AVIX_ID == Ascii("AVIX") && IDX1_ID == Ascii("idx1")
  {
  }

  /** A chunk is named by its track's number, in two digits, and what it holds. */
  lemma ChunkName(n: nat, tracks: seq<Track>)
    ensures ChunkId(n, tracks) == if n < |tracks| && n < TRACKS_MAX
                                  then Ascii(['0', "012"[n]]) + Ascii(if tracks[n].Video? then "dc" else "wb") else Ascii("JUNK")
  {
  }

  lemma IxName(t: nat)
    requires t < TRACKS_MAX
    ensures IxId(t) == Ascii("ix") + Ascii(['0', "012"[t]])
  {
  }

  function Padding(n: nat): (b: Bytes)
    ensures (n + |b|) % 2 == 0 && |b| < 2
  {
    if n % 2 == 1 then [0] else []
  }

  function ChunkSize(c: Chunk): nat {
    8 + |c.data| + |Padding(|c.data|)|
  }

  function ChunkBytes(c: Chunk, tracks: seq<Track>): (b: Bytes)
    ensures |b| == ChunkSize(c)
  {
    ChunkId(c.track, tracks) + U32(|c.data|) + c.data + Padding(|c.data|)
  }

  /** Where chunk k begins, counted from the first chunk. */
  function Start(chunks: seq<Chunk>, k: nat): (n: nat)
    requires k <= |chunks|
    ensures n % 2 == 0
  {
    if k == 0 then 0 else Start(chunks, k - 1) + ChunkSize(chunks[k - 1])
  }

  /** The first k chunks. */
  function Movi(chunks: seq<Chunk>, k: nat, tracks: seq<Track>): (b: Bytes)
    requires k <= |chunks|
    ensures |b| == Start(chunks, k)
  {
    if k == 0 then [] else Movi(chunks, k - 1, tracks) + ChunkBytes(chunks[k - 1], tracks)
  }

  lemma {:induction false} MoviPrefix(chunks: seq<Chunk>, more: seq<Chunk>, k: nat, tracks: seq<Track>)
    requires k <= |chunks|
    ensures Movi(chunks + more, k, tracks) == Movi(chunks, k, tracks) && Start(chunks + more, k) == Start(chunks, k)
    decreases k
  {
    hide ChunkBytes;
    if k == 0 {
    } else {
      MoviPrefix(chunks, more, k - 1, tracks);
    }
  }

  lemma MoviPush(chunks: seq<Chunk>, c: Chunk, tracks: seq<Track>)
    ensures Movi(chunks + [c], |chunks| + 1, tracks) == Movi(chunks, |chunks|, tracks) + ChunkBytes(c, tracks)
  {
    MoviPrefix(chunks, [c], |chunks|, tracks);
  }

  lemma StartNext(chunks: seq<Chunk>, k: nat)
    requires k < |chunks|
    ensures Start(chunks, k + 1) == Start(chunks, k) + ChunkSize(chunks[k])
  {
  }

  lemma {:induction false} StartMono(chunks: seq<Chunk>, j: nat, k: nat)
    requires j <= k <= |chunks|
    ensures Start(chunks, j) <= Start(chunks, k)
    decreases k
  {
    if j == k {
    } else {
      StartMono(chunks, j, k - 1);
    }
  }

  lemma Joined(a: Bytes, b: Bytes)
    ensures (a + b)[|a|..|a| + |b|] == b
    ensures forall p, q :: 0 <= p <= q <= |a| ==> (a + b)[p..q] == a[p..q]
  {
  }

  /** Chunk j lies at Start(j) among the chunks. */
  lemma {:induction false} ChunkAt(chunks: seq<Chunk>, j: nat, k: nat, tracks: seq<Track>)
    requires j < k <= |chunks|
    ensures Start(chunks, j + 1) <= Start(chunks, k)
    ensures Movi(chunks, k, tracks)[Start(chunks, j)..Start(chunks, j + 1)] == ChunkBytes(chunks[j], tracks)
    decreases k
  {
    hide ChunkBytes, ChunkSize;
    StartMono(chunks, j + 1, k);
    Joined(Movi(chunks, k - 1, tracks), ChunkBytes(chunks[k - 1], tracks));
    if j + 1 == k {
    } else {
      ChunkAt(chunks, j, k - 1, tracks);
      StartMono(chunks, j, j + 1);
    }
  }

  // ---------- the index ----------

  /** What is noted for a chunk when it is finished: its track, and its size with the top bit
      set unless it is a key frame. */
  function NotedSize(size: nat, key: bool): nat {
    if key then size else size % DELTA_FRAME + DELTA_FRAME
  }

  /** The size the index gives for a chunk. */
  function IndexedSize(c: Chunk): nat {
    |c.data| % DELTA_FRAME
  }

  function IndexFlags(c: Chunk): nat {
    if c.key && |c.data| < DELTA_FRAME then KEY_FRAME else 0
  }

  /** The offset the index gives for chunk k, counted from the 'movi' tag. */
  function IndexedOffset(chunks: seq<Chunk>, k: nat): nat
    requires k <= |chunks|
  {
    if k == 0 then 4
    else (IndexedOffset(chunks, k - 1) + (IndexedSize(chunks[k - 1]) + 1) / 2 * 2 + 8) % WORD
  }

  function IndexEntry(chunks: seq<Chunk>, k: nat, tracks: seq<Track>): (b: Bytes)
    requires k < |chunks|
    ensures |b| == 16
  {
    ChunkId(chunks[k].track, tracks) + U32(IndexFlags(chunks[k])) + U32(IndexedOffset(chunks, k)) + U32(IndexedSize(chunks[k]))
  }

  function IndexBytes(chunks: seq<Chunk>, k: nat, tracks: seq<Track>): (b: Bytes)
    requires k <= |chunks|
    ensures |b| == 16 * k
  {
    if k == 0 then [] else IndexBytes(chunks, k - 1, tracks) + IndexEntry(chunks, k - 1, tracks)
  }

  lemma {:induction false} EntryAt(chunks: seq<Chunk>, j: nat, k: nat, tracks: seq<Track>)
    requires j < k <= |chunks|
    ensures IndexBytes(chunks, k, tracks)[16 * j..16 * j + 16] == IndexEntry(chunks, j, tracks)
    decreases k
  {
    hide IndexEntry;
    if j + 1 == k {
    } else {
      EntryAt(chunks, j, k - 1, tracks);
    }
  }

  /** The index is exact for chunk k: the offset is where the chunk really is behind the 'movi'
      tag and the size is that of its data. */
  predicate Exact(chunks: seq<Chunk>, k: nat)
    requires k < |chunks|
  {
    IndexedOffset(chunks, k) == 4 + Start(chunks, k) && IndexedSize(chunks[k]) == |chunks[k].data|
  }

  lemma SmallSize(c: Chunk)
    requires |c.data| < DELTA_FRAME
    ensures (IndexedSize(c) + 1) / 2 * 2 + 8 == ChunkSize(c)
  {
  }

  lemma {:induction false} OffsetExact(chunks: seq<Chunk>, k: nat)
    requires k <= |chunks| && Start(chunks, k) + 4 < WORD
    requires forall i :: 0 <= i < k ==> |chunks[i].data| < DELTA_FRAME
    ensures IndexedOffset(chunks, k) == 4 + Start(chunks, k)
    decreases k
  {
    if k == 0 {
    } else {
      hide Padding, IndexedSize;
      OffsetExact(chunks, k - 1);
      SmallSize(chunks[k - 1]);
    }
  }

  /** In a file of less than 4 GiB the whole index is exact exactly when every chunk is below
      2 GiB. */
  lemma IndexExactIff(chunks: seq<Chunk>)
    requires Start(chunks, |chunks|) + 4 < WORD
    ensures (forall k :: 0 <= k < |chunks| ==> Exact(chunks, k)) <==> (forall k :: 0 <= k < |chunks| ==> |chunks[k].data| < DELTA_FRAME)
  {
    if forall k :: 0 <= k < |chunks| ==> |chunks[k].data| < DELTA_FRAME {
      forall k | 0 <= k < |chunks| ensures Exact(chunks, k) {
        StartMono(chunks, k, |chunks|);
        OffsetExact(chunks, k);
      }
    } else {
      var k: nat :| k < |chunks| && |chunks[k].data| >= DELTA_FRAME;
      assert !Exact(chunks, k);
    }
  }

  // ---------- the tracks' own indexes ----------

  /** How many of the first k chunks are of track t. */
  function Count(chunks: seq<Chunk>, k: nat, t: nat): (n: nat)
    requires k <= |chunks|
    ensures n <= k
  {
    if k == 0 then 0 else Count(chunks, k - 1, t) + if chunks[k - 1].track == t then 1 else 0
  }

  function CountBelow(chunks: seq<Chunk>, n: nat): nat {
    if n == 0 then 0 else CountBelow(chunks, n - 1) + Count(chunks, |chunks|, n - 1)
  }

  /** How many of the first k chunks are of the first n tracks. */
  function Counted(chunks: seq<Chunk>, k: nat, n: nat): nat
    requires k <= |chunks|
  {
    if k == 0 then 0 else Counted(chunks, k - 1, n) + if chunks[k - 1].track < n then 1 else 0
  }

  lemma {:induction false} CountedMore(chunks: seq<Chunk>, k: nat, n: nat)
    requires k <= |chunks|
    ensures Counted(chunks, k, n + 1) == Counted(chunks, k, n) + Count(chunks, k, n)
    ensures Counted(chunks, k, 0) == 0
    decreases k
  {
    if k == 0 {
    } else {
      CountedMore(chunks, k - 1, n);
    }
  }

  lemma {:induction false} CountBelowIsCounted(chunks: seq<Chunk>, n: nat)
    ensures CountBelow(chunks, n) == Counted(chunks, |chunks|, n)
  {
    if n == 0 {
      CountedMore(chunks, |chunks|, 0);
    } else {
      CountBelowIsCounted(chunks, n - 1);
      CountedMore(chunks, |chunks|, n - 1);
    }
  }

  lemma {:induction false} AllCounted(chunks: seq<Chunk>, k: nat, n: nat)
    requires k <= |chunks| && forall i :: 0 <= i < k ==> chunks[i].track < n
    ensures Counted(chunks, k, n) == k
    decreases k
  {
    if k == 0 {
    } else {
      AllCounted(chunks, k - 1, n);
    }
  }

  /** Every chunk is counted for exactly one track. */
  lemma CountsAddUp(chunks: seq<Chunk>, n: nat)
    requires forall c :: c in chunks ==> c.track < n
    ensures CountBelow(chunks, n) == |chunks|
  {
    CountBelowIsCounted(chunks, n);
    AllCounted(chunks, |chunks|, n);
  }

  /** The offset a track's own index gives next, after chunks of the noted sizes: the sums run over
      that track's chunks alone. */
  function IxOffset(chunks: seq<Chunk>, k: nat, t: nat): nat
    requires k <= |chunks|
  {
    if k == 0 then 4
    else if chunks[k - 1].track != t then IxOffset(chunks, k - 1, t)
    else IxNext(IxOffset(chunks, k - 1, t), NotedSize(|chunks[k - 1].data|, chunks[k - 1].key))
  }

  function IxNext(offset: nat, noted: nat): nat {
    (offset + (noted + 1) % DELTA_FRAME / 2 * 2 + 12) % WORD
  }

  function IxEntries(chunks: seq<Chunk>, k: nat, t: nat): (b: Bytes)
    requires k <= |chunks|
    ensures |b| == 8 * Count(chunks, k, t)
  {
    if k == 0 then []
    else if chunks[k - 1].track != t then IxEntries(chunks, k - 1, t)
    else IxEntries(chunks, k - 1, t) + (U32(IxOffset(chunks, k - 1, t)) + U32(NotedSize(|chunks[k - 1].data|, chunks[k - 1].key)))
  }

  function IxId(t: nat): (b: Bytes)
    ensures |b| == 4
  {
    [105, 120, (48 + t / 10) % 256, 48 + t % 10]
  }

  /** The fields in front of the entries of a track's own index. */
  function IxHead(t: nat, n: nat, base: nat, tracks: seq<Track>): (b: Bytes)
    ensures |b| == 24
  {
    LittleEndian(2, 2) + [0, 1] + U32(n) + ChunkId(t, tracks) + LittleEndian(base, 8) + U32(0)
  }

  /** The 'ixNN' chunk of track t. */
  function Ix(chunks: seq<Chunk>, t: nat, base: nat, tracks: seq<Track>): (b: Bytes)
    ensures |b| == 32 + 8 * Count(chunks, |chunks|, t)
  {
    var n := Count(chunks, |chunks|, t);
    IxId(t) + U32(24 + 8 * n) + (IxHead(t, n, base, tracks) + IxEntries(chunks, |chunks|, t))
  }

  /** Those of the first n tracks. */
  function IxAll(chunks: seq<Chunk>, n: nat, base: nat, tracks: seq<Track>): (b: Bytes)
    ensures |b| == 32 * n + 8 * CountBelow(chunks, n)
  {
    if n == 0 then [] else IxAll(chunks, n - 1, base, tracks) + Ix(chunks, n - 1, base, tracks)
  }

  // ---------- the walk ----------

  datatype Found = Nothing | Data(id: Bytes, size: nat, at: nat)

  function Min(a: nat, b: nat): nat {
    if a < b then a else b
  }

  /** Past n bytes and up to an even position, but not past the end. */
  function SkipChunk(file: Bytes, pos: nat, n: nat): (p: nat)
    requires pos <= |file|
    ensures pos <= p <= |file|
  {
    Min(Min(pos + n, |file|) + Min(pos + n, |file|) % 2, |file|)
  }

  predicate IsData(id: Bytes)
    requires |id| == 4
  {
    id[2..] == [100, 99] || id[2..] == [100, 98] || id[2..] == [100, 100] || id[2..] == [119, 98]
  }

  /** avi_find_next_data_chunk: the next data chunk from pos on. */
  function NextData(file: Bytes, pos: nat): Found
    requires pos <= |file|
    decreases |file| - pos
  {
    if pos + 8 > |file| then Nothing
    else
      var id, size := file[pos..pos + 4], FromU32(file[pos + 4..pos + 8]);
      var p := pos + 8;
      if id == LIST_ID || id == RIFF_ID then
        if p + 4 > |file| then Nothing
        else if (id == LIST_ID && (file[p..p + 4] == REC_ID || file[p..p + 4] == MOVI_ID))
                || (id == RIFF_ID && file[p..p + 4] == AVIX_ID) then NextData(file, p + 4)
        else NextData(file, SkipChunk(file, p, size))
      else if IsData(id) then Data(id, size, p)
      else if size == 0 && id == [0, 0, 0, 0] then Nothing
      else NextData(file, SkipChunk(file, p, size))
  }

  function TrackOf(id: Bytes): int
    requires |id| == 4
  {
    (id[0] as int - 48) * 10 + id[1] as int - 48
  }

  /** Every data chunk met from pos on, as track number and data. */
  function Walk(file: Bytes, pos: nat): seq<(int, Bytes)>
    requires pos <= |file|
    decreases |file| - pos
  {
    var f := NextData(file, pos);
    if f.Nothing? || f.at <= pos || f.at > |file| || |f.id| != 4 then []
    else [(TrackOf(f.id), file[f.at..Min(f.at + f.size, |file|)])] + Walk(file, SkipChunk(file, f.at, f.size))
  }

  function Contents(chunks: seq<Chunk>, k: nat): seq<(int, Bytes)>
    requires k <= |chunks|
    decreases |chunks| - k
  {
    if k == |chunks| then [] else [(chunks[k].track, chunks[k].data)] + Contents(chunks, k + 1)
  }

  /** Chunks the walk can read back: of a known track, with a size that fits the header. */
  predicate Readable(c: Chunk, tracks: seq<Track>) {
    c.track < |tracks| && c.track < TRACKS_MAX && |c.data| < WORD
  }

  /** The parts of a chunk inside a file. */
  lemma ChunkParts(file: Bytes, pos: nat, c: Chunk, tracks: seq<Track>)
    requires pos + ChunkSize(c) <= |file| && file[pos..pos + ChunkSize(c)] == ChunkBytes(c, tracks)
    ensures file[pos..pos + 4] == ChunkId(c.track, tracks) && file[pos + 4..pos + 8] == U32(|c.data|)
    ensures file[pos + 8..pos + 8 + |c.data|] == c.data
  {
    hide ChunkId, U32, Padding;
    var id, f, e := ChunkId(c.track, tracks), U32(|c.data|), Padding(|c.data|);
    Joined(id + f + c.data, e);
    Joined(id + f, c.data);
    Joined(id, f);
    var b := ChunkBytes(c, tracks);
    assert b[0..4] == id && b[4..8] == f && b[8..8 + |c.data|] == c.data;
    SliceOfSlice(file, pos, pos + ChunkSize(c), 0, 4);
    SliceOfSlice(file, pos, pos + ChunkSize(c), 4, 4);
    SliceOfSlice(file, pos, pos + ChunkSize(c), 8, |c.data|);
  }

  lemma IdIsData(n: nat, tracks: seq<Track>)
    requires n < |tracks| && n < TRACKS_MAX
    ensures var id := ChunkId(n, tracks); IsData(id) && id != LIST_ID && id != RIFF_ID && TrackOf(id) == n
  {
    var id := ChunkId(n, tracks);
    assert id[2] == 100 || id[2] == 119;
    assert LIST_ID[2] == 83 && RIFF_ID[2] == 70;
    assert id[2..] == if tracks[n].Video? then [100, 99] else [119, 98];
  }

  lemma ChunkFound(file: Bytes, pos: nat, c: Chunk, tracks: seq<Track>)
    requires Readable(c, tracks) && pos + ChunkSize(c) <= |file|
    requires file[pos..pos + ChunkSize(c)] == ChunkBytes(c, tracks)
    ensures NextData(file, pos) == Data(ChunkId(c.track, tracks), |c.data|, pos + 8)
    ensures TrackOf(ChunkId(c.track, tracks)) == c.track && file[pos + 8..pos + 8 + |c.data|] == c.data
  {
    ChunkParts(file, pos, c, tracks);
    U32RoundTrip(|c.data|);
    IdIsData(c.track, tracks);
    hide ChunkBytes, ChunkId, U32, FromU32, IsData, TrackOf, SkipChunk;
  }

  lemma WalkStep(file: Bytes, pos: nat, c: Chunk, tracks: seq<Track>)
    requires Readable(c, tracks) && pos % 2 == 0 && pos + ChunkSize(c) <= |file|
    requires file[pos..pos + ChunkSize(c)] == ChunkBytes(c, tracks)
    ensures Walk(file, pos) == [(c.track, c.data)] + Walk(file, pos + ChunkSize(c))
  {
    hide ChunkBytes, ChunkId, NextData, TrackOf;
    ChunkFound(file, pos, c, tracks);
    assert SkipChunk(file, pos + 8, |c.data|) == pos + ChunkSize(c);
  }

  /** A chunk that is not data and fills the rest of the file ends the walk. */
  lemma IndexEndsWalk(file: Bytes, pos: nat)
    requires pos + 8 <= |file| && file[pos..pos + 4] == IDX1_ID && pos + 8 + FromU32(file[pos + 4..pos + 8]) >= |file|
    ensures Walk(file, pos) == []
  {
    var p := SkipChunk(file, pos + 8, FromU32(file[pos + 4..pos + 8]));
    assert p == |file|;
    assert NextData(file, p) == Nothing;
  }

  lemma {:induction false} WalkFrom(file: Bytes, base: nat, chunks: seq<Chunk>, tracks: seq<Track>, k: nat)
    requires k <= |chunks| && base % 2 == 0 && base + Start(chunks, |chunks|) <= |file|
    requires forall i :: 0 <= i < |chunks| ==> Readable(chunks[i], tracks)
    requires file[base..base + Start(chunks, |chunks|)] == Movi(chunks, |chunks|, tracks)
    requires Walk(file, base + Start(chunks, |chunks|)) == []
    ensures Start(chunks, k) <= Start(chunks, |chunks|) && Walk(file, base + Start(chunks, k)) == Contents(chunks, k)
    decreases |chunks| - k
  {
    hide ChunkBytes, Movi, Walk, ChunkSize, Start, Readable;
    StartMono(chunks, k, |chunks|);
    if k == |chunks| {
    } else {
      WalkFrom(file, base, chunks, tracks, k + 1);
      ChunkAt(chunks, k, |chunks|, tracks);
      StartNext(chunks, k);
      SliceOfSlice(file, base, base + Start(chunks, |chunks|), Start(chunks, k), ChunkSize(chunks[k]));
      WalkStep(file, base + Start(chunks, k), chunks[k], tracks);
    }
  }

  // ---------- the whole file ----------

  /** Header bytes, then the 'movi' list with its stated size. */
  function Prefix(headers: Bytes, listSize: nat): (b: Bytes)
    ensures |b| == |headers| + 12
  {
    headers + LIST_ID + U32(listSize) + MOVI_ID
  }

  /** Everything behind the chunks. */
  function Indexes(base: nat, chunks: seq<Chunk>, tracks: seq<Track>): Bytes {
    IxAll(chunks, |tracks|, base, tracks) + (IDX1_ID + U32(16 * |chunks|) + IndexBytes(chunks, |chunks|, tracks))
  }

  function WholeFile(headers: Bytes, listSize: nat, chunks: seq<Chunk>, tracks: seq<Track>): Bytes {
    Prefix(headers, listSize) + Movi(chunks, |chunks|, tracks) + Indexes(|headers| + 12, chunks, tracks)
  }

  /** The walk passes over an 'ixNN' chunk. */
  lemma IxPassed(file: Bytes, pos: nat, chunks: seq<Chunk>, t: nat, base: nat, tracks: seq<Track>)
    requires t < TRACKS_MAX && 8 * |chunks| + 24 < WORD && pos % 2 == 0
    requires var n := 32 + 8 * Count(chunks, |chunks|, t); pos + n <= |file| && file[pos..pos + n] == Ix(chunks, t, base, tracks)
    ensures Walk(file, pos) == Walk(file, pos + |Ix(chunks, t, base, tracks)|)
  {
    hide IxHead, IxEntries, U32, FromU32, Walk, NextData, Count;
    var n := Count(chunks, |chunks|, t);
    var id, size, rest := IxId(t), U32(24 + 8 * n), IxHead(t, n, base, tracks) + IxEntries(chunks, |chunks|, t);
    Joined(id + size, rest);
    Joined(id, size);
    SliceOfSlice(file, pos, pos + 32 + 8 * n, 0, 4);
    SliceOfSlice(file, pos, pos + 32 + 8 * n, 4, 4);
    U32RoundTrip(24 + 8 * n);
    assert id[0] == 105 && id[3] == 48 + t % 10 < 51;
    OtherPassed(file, pos, id, 24 + 8 * n);
  }

  /** The walk passes over any chunk that is neither data nor a list. */
  lemma OtherPassed(file: Bytes, pos: nat, id: Bytes, size: nat)
    requires |id| == 4 && id[0] != 76 && id[0] != 82 && id[0] != 0 && id[3] != 99 && id[3] != 98 && id[3] != 100
    requires pos + 8 + size <= |file| && (pos + size) % 2 == 0
    requires file[pos..pos + 4] == id && FromU32(file[pos + 4..pos + 8]) == size
    ensures Walk(file, pos) == Walk(file, pos + 8 + size)
  {
    hide FromU32, Walk;
    assert id[2..][1] == id[3];
    assert SkipChunk(file, pos + 8, size) == pos + 8 + size;
    assert NextData(file, pos) == NextData(file, pos + 8 + size);
    SameNext(file, pos, pos + 8 + size);
  }

  lemma SameNext(file: Bytes, p: nat, q: nat)
    requires p <= q <= |file| && NextData(file, p) == NextData(file, q)
    ensures Walk(file, p) == Walk(file, q)
  {
    hide NextData, TrackOf, SkipChunk;
    NextIsLater(file, q);
  }

  lemma BothHeld(file: Bytes, pos: nat, a: Bytes, b: Bytes)
    requires pos + |a| + |b| <= |file| && file[pos..pos + |a| + |b|] == a + b
    ensures file[pos..pos + |a|] == a && file[pos + |a|..pos + |a| + |b|] == b
  {
    SliceOfSlice(file, pos, pos + |a| + |b|, 0, |a|);
    SliceOfSlice(file, pos, pos + |a| + |b|, |a|, |b|);
    Joined(a, b);
  }

  lemma {:induction false} IxAllPassed(file: Bytes, pos: nat, chunks: seq<Chunk>, n: nat, base: nat, tracks: seq<Track>)
    requires n <= TRACKS_MAX && 8 * |chunks| + 24 < WORD && pos % 2 == 0
    requires var b := IxAll(chunks, n, base, tracks); pos + |b| <= |file| && file[pos..pos + |b|] == b
    ensures Walk(file, pos) == Walk(file, pos + |IxAll(chunks, n, base, tracks)|)
    decreases n
  {
    hide Ix, Walk, Count, CountBelow, ChunkId, U32;
    var b := IxAll(chunks, n, base, tracks);
    if n == 0 {
    } else {
      var a, c := IxAll(chunks, n - 1, base, tracks), Ix(chunks, n - 1, base, tracks);
      BothHeld(file, pos, a, c);
      IxAllPassed(file, pos, chunks, n - 1, base, tracks);
      IxPassed(file, pos + |a|, chunks, n - 1, base, tracks);
    }
  }

  /** Walking a finished file from its 'movi' list recovers every track number and its data, in
      order. */
  lemma WalkRecovers(headers: Bytes, listSize: nat, chunks: seq<Chunk>, tracks: seq<Track>)
    requires |headers| % 2 == 0 && 16 * |chunks| + 24 < WORD && |tracks| <= TRACKS_MAX
    requires forall i :: 0 <= i < |chunks| ==> Readable(chunks[i], tracks)
    ensures var file := WholeFile(headers, listSize, chunks, tracks);
            |headers| <= |file| && Walk(file, |headers|) == Contents(chunks, 0)
  {
    hide Movi, IndexBytes, Readable, Start, Walk, Prefix, U32, FromU32, IxAll, CountBelow;
    var file, pre := WholeFile(headers, listSize, chunks, tracks), Prefix(headers, listSize);
    var movi, tail := Movi(chunks, |chunks|, tracks), IndexBytes(chunks, |chunks|, tracks);
    var base, ix := |pre|, IxAll(chunks, |tracks|, |headers| + 12, tracks);
    FileParts(pre, movi, ix, IDX1_ID, U32(16 * |chunks|), tail);
    U32RoundTrip(16 * |chunks|);
    IxAllPassed(file, base + |movi|, chunks, |tracks|, |headers| + 12, tracks);
    IndexEndsWalk(file, base + |movi| + |ix|);
    StartZero(chunks);
    StartMono(chunks, 0, |chunks|);
    WalkFrom(file, base, chunks, tracks, 0);
    ListEntered(file, |headers|, headers, listSize);
  }

  lemma FileParts(pre: Bytes, movi: Bytes, ix: Bytes, id: Bytes, size: Bytes, tail: Bytes)
    requires |id| == |size| == 4
    ensures var file := pre + movi + (ix + (id + size + tail)); var end := |pre| + |movi| + |ix|;
            && pre <= file && file[|pre|..|pre| + |movi|] == movi && file[|pre| + |movi|..end] == ix
            && file[end..end + 4] == id && file[end + 4..end + 8] == size && file[end + 8..] == tail
            && |file| == end + 8 + |tail|
  {
  }

  lemma StartZero(chunks: seq<Chunk>)
    ensures Start(chunks, 0) == 0
  {
  }

  lemma PrefixTags(headers: Bytes, listSize: nat)
    ensures var p, n := Prefix(headers, listSize), |headers|;
            p[n..n + 4] == LIST_ID && p[n + 8..n + 12] == MOVI_ID
  {
  }

  lemma ListSkipped(file: Bytes, pos: nat)
    requires pos + 12 <= |file| && file[pos..pos + 4] == LIST_ID && file[pos + 8..pos + 12] == MOVI_ID
    ensures NextData(file, pos) == NextData(file, pos + 12)
  {
    hide FromU32, IsData, SkipChunk;
  }

  lemma ListEntered(file: Bytes, pos: nat, headers: Bytes, listSize: nat)
    requires pos == |headers| && Prefix(headers, listSize) <= file
    ensures Walk(file, pos) == Walk(file, pos + 12)
  {
    hide Prefix, NextData, Walk;
    var p := Prefix(headers, listSize);
    PrefixTags(headers, listSize);
    assert file[0..|p|] == p;
    SliceOfSlice(file, 0, |p|, pos, 4);
    SliceOfSlice(file, 0, |p|, pos + 8, 4);
    ListSkipped(file, pos);
    SameNext(file, pos, pos + 12);
  }

  lemma {:induction false} NextIsLater(file: Bytes, pos: nat)
    requires pos <= |file|
    ensures var f := NextData(file, pos); f.Data? ==> pos < f.at <= |file| && |f.id| == 4
    decreases |file| - pos
  {
    if pos + 8 > |file| {
    } else {
      var id, size, p := file[pos..pos + 4], FromU32(file[pos + 4..pos + 8]), pos + 8;
      NextIsLater(file, SkipChunk(file, p, size));
      if p + 4 <= |file| { NextIsLater(file, p + 4); }
    }
  }

  /** In a finished file, the offset behind the 'movi' tag and the size that index entry k states
      are where that very chunk is. */
  lemma IndexFindsChunk(headers: Bytes, listSize: nat, chunks: seq<Chunk>, tracks: seq<Track>, k: nat)
    requires k < |chunks| && |chunks[k].data| < WORD && Exact(chunks, k)
    ensures var file := WholeFile(headers, listSize, chunks, tracks);
            var at := |headers| + 8 + IndexedOffset(chunks, k); var size := IndexedSize(chunks[k]);
            && at + 8 + size <= |file| && file[at..at + 4] == ChunkId(chunks[k].track, tracks)
            && FromU32(file[at + 4..at + 8]) == size && file[at + 8..at + 8 + size] == chunks[k].data
  {
    hide WholeFile, ChunkId, IndexedOffset, Start, U32, FromU32, IndexedSize;
    ChunksInFile(headers, listSize, chunks, tracks);
    ChunkInFile(WholeFile(headers, listSize, chunks, tracks), |headers| + 12, chunks, tracks, k);
    U32RoundTrip(|chunks[k].data|);
  }

  lemma ChunksInFile(headers: Bytes, listSize: nat, chunks: seq<Chunk>, tracks: seq<Track>)
    ensures var file, at := WholeFile(headers, listSize, chunks, tracks), |headers| + 12;
            && at + Start(chunks, |chunks|) <= |file|
            && file[at..at + Start(chunks, |chunks|)] == Movi(chunks, |chunks|, tracks)
  {
    hide Movi, IndexBytes, Prefix, Start, U32, IxAll, CountBelow;
    FileParts(Prefix(headers, listSize), Movi(chunks, |chunks|, tracks), IxAll(chunks, |tracks|, |headers| + 12, tracks), IDX1_ID,
              U32(16 * |chunks|), IndexBytes(chunks, |chunks|, tracks));
  }

  /** Chunk k and its parts in any file that holds all the chunks at base. */
  lemma ChunkInFile(file: Bytes, base: nat, chunks: seq<Chunk>, tracks: seq<Track>, k: nat)
    requires k < |chunks| && base + Start(chunks, |chunks|) <= |file|
    requires file[base..base + Start(chunks, |chunks|)] == Movi(chunks, |chunks|, tracks)
    ensures var at, c := base + Start(chunks, k), chunks[k];
            && at + 8 + |c.data| <= |file| && file[at..at + 4] == ChunkId(c.track, tracks)
            && file[at + 4..at + 8] == U32(|c.data|) && file[at + 8..at + 8 + |c.data|] == c.data
  {
    hide Movi, ChunkId, Start, ChunkBytes, U32, Padding;
    ChunkAt(chunks, k, |chunks|, tracks);
    StartNext(chunks, k);
    SliceOfSlice(file, base, base + Start(chunks, |chunks|), Start(chunks, k), ChunkSize(chunks[k]));
    ChunkParts(file, base + Start(chunks, k), chunks[k], tracks);
  }

  /** Where the file holds index entry k: behind the tracks' own indexes. */
  lemma IndexEntryInFile(headers: Bytes, listSize: nat, chunks: seq<Chunk>, tracks: seq<Track>, k: nat)
    requires k < |chunks| && forall c :: c in chunks ==> c.track < |tracks|
    ensures var file := WholeFile(headers, listSize, chunks, tracks);
            var at := |headers| + 20 + Start(chunks, |chunks|) + 32 * |tracks| + 8 * |chunks| + 16 * k;
            at + 16 <= |file| && file[at..at + 16] == IndexEntry(chunks, k, tracks)
  {
    hide Movi, IndexBytes, IndexEntry, Prefix, Start, U32, IxAll, CountBelow;
    var movi, tail := Movi(chunks, |chunks|, tracks), IndexBytes(chunks, |chunks|, tracks);
    var file, pre := WholeFile(headers, listSize, chunks, tracks), Prefix(headers, listSize);
    var ix := IxAll(chunks, |tracks|, |headers| + 12, tracks);
    var base := |pre| + |movi| + |ix| + 8;
    CountsAddUp(chunks, |tracks|);
    EntryAt(chunks, k, |chunks|, tracks);
    FileParts(pre, movi, ix, IDX1_ID, U32(16 * |chunks|), tail);
    SliceOfSlice(file, base, base + |tail|, 16 * k, 16);
  }

  /** The 'ixNN' chunk of track t stands behind the chunks and those of the tracks before. */
  lemma IxInFile(headers: Bytes, listSize: nat, chunks: seq<Chunk>, tracks: seq<Track>, t: nat)
    requires t < |tracks|
    ensures var file := WholeFile(headers, listSize, chunks, tracks);
            var at := |headers| + 12 + Start(chunks, |chunks|) + 32 * t + 8 * CountBelow(chunks, t);
            var ix := Ix(chunks, t, |headers| + 12, tracks);
            at + |ix| <= |file| && file[at..at + |ix|] == ix
  {
    hide Movi, IndexBytes, Prefix, Start, U32, IxAll, CountBelow, Ix, Count;
    var pre, movi := Prefix(headers, listSize), Movi(chunks, |chunks|, tracks);
    var file, ix := WholeFile(headers, listSize, chunks, tracks), IxAll(chunks, |tracks|, |headers| + 12, tracks);
    FileParts(pre, movi, ix, IDX1_ID, U32(16 * |chunks|), IndexBytes(chunks, |chunks|, tracks));
    IxAt(chunks, t, |tracks|, |headers| + 12, tracks);
    var lo := 32 * t + 8 * CountBelow(chunks, t);
    SliceOfSlice(file, |pre| + |movi|, |pre| + |movi| + |ix|, lo, |Ix(chunks, t, |headers| + 12, tracks)|);
  }

  lemma {:induction false} IxAt(chunks: seq<Chunk>, t: nat, n: nat, base: nat, tracks: seq<Track>)
    requires t < n
    ensures var lo := 32 * t + 8 * CountBelow(chunks, t); var ix := Ix(chunks, t, base, tracks);
            && lo + |ix| <= |IxAll(chunks, n, base, tracks)| && IxAll(chunks, n, base, tracks)[lo..lo + |ix|] == ix
    decreases n
  {
    hide Ix, Count;
    Joined(IxAll(chunks, n - 1, base, tracks), Ix(chunks, n - 1, base, tracks));
    if t + 1 == n {
    } else {
      IxAt(chunks, t, n - 1, base, tracks);
    }
  }
}
