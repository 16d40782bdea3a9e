/** AVI files that are not what they say, each written from packets that vc_container_write lets
    through to a file. */
module AviFailures {
  import opened Basics
  import opened AviLayout
  import opened AviIndexes
  import opened AviWriter
  import opened AviRoundTrip

  const IO_MAX_SIZE := 0x7FFF_FFFF
  const SAFETY_MARGIN := 10 * 1024

  /** vc_container_write's check on a file, with so many notes in the temporary file. */
  predicate LetThrough(p: Packet, notes: nat) {
    |p.data| + SAFETY_MARGIN + 5 * notes <= IO_MAX_SIZE
  }

  function Zeros(n: nat): (z: Bytes)
    ensures |z| == n
  {
    seq(n, _ => 0)
  }

  // ---------- a key frame of 2 GiB ----------

  /** Its two halves. */
  function Halves(): seq<Packet> {
    [Packet(0, Zeros(DELTA_FRAME / 2), false, true), Packet(0, Zeros(DELTA_FRAME / 2), true, true)]
  }

  lemma HalvesTaken()
    ensures TakeAll(Halves(), [Video]) == Progress([Chunk(0, Zeros(DELTA_FRAME / 2) + Zeros(DELTA_FRAME / 2), true)], [], 0)
    ensures Demand(Halves()) == DELTA_FRAME + 66 && forall p :: p in Halves() ==> LetThrough(p, 1)
  {
    var a, b := Halves()[0], Halves()[1];
    hide Zeros;
    assert Halves()[..1] == [a] && [a][..0] == [];
    assert TakeAll([a], [Video]) == Taken(TakeAll([], [Video]), a, [Video]);
    assert Demand([a]) == |a.data| + 33;
    assert [] + a.data == a.data;
  }

  /** It is indexed as an empty frame that is no key frame. */
  method LargeFrameMisindexed(list: Bytes, newList: Bytes) returns (w: AviWriter)
    requires |list| % 2 == 0 && |list| < 0x1000_0000 && |newList| == |list|
    ensures forall p :: p in Halves() ==> LetThrough(p, 1)
    ensures w.chunks == ChunksOf(Halves(), [Video]) && |w.chunks| == 1 && !Exact(w.chunks, 0)
    ensures w.chunks[0].key && IndexedSize(w.chunks[0]) == IndexFlags(w.chunks[0]) == 0
    ensures |w.chunks[0].data| == DELTA_FRAME
    ensures w.data == WholeFile(Riff(|w.data|) + newList, ListSize(w.chunks, [Video]), w.chunks, [Video])
  {
    HalvesTaken();
    hide TakeAll, Taken, Refused, Estimate, WholeFile, Demand, Zeros, Start, Walk, Stated, Contents, FinalSize;
    hide IndexLeads, ListSize, EmptyClosed;
    w := new AviWriter([Video], list);
    var n := WritePackets(w, Halves());
    if n < 2 { RoomForAll(|list|, [Video], Halves(), n); }
    w.Close(newList);
  }

  // ---------- a file past 4 GiB ----------

  const BIG := 0x6000_0000

  function Frame(n: nat): Packet {
    Packet(0, Zeros(n), true, true)
  }

  /** Two big frames and one that just passes the size check. */
  function ThreeFrames(list: nat): seq<Packet>
    requires list < 0x1000_0000
  {
    [Frame(BIG), Frame(BIG), Frame(0x4000_0000 - 154 - list)]
  }

  lemma FrameTaken(g: Progress, n: nat)
    requires g.open == [] && g.track == 0
    ensures Taken(g, Frame(n), [Video]) == Progress(g.chunks + [Chunk(0, Zeros(n), true)], [], 0)
  {
    hide Zeros;
    assert [] + Zeros(n) == Zeros(n);
  }

  lemma StartPush(chunks: seq<Chunk>, c: Chunk)
    ensures Start(chunks + [c], |chunks| + 1) == Start(chunks, |chunks|) + ChunkSize(c)
  {
    MoviPrefix(chunks, [c], |chunks|, []);
  }

  /** What the frames so far have become. */
  function Frames(list: nat, k: nat): Progress
    requires list < 0x1000_0000 && k <= 3
  {
    var c, d := Chunk(0, Zeros(BIG), true), Chunk(0, Zeros(0x4000_0000 - 154 - list), true);
    Progress([c, c, d][..k], [], 0)
  }

  lemma FramesTaken(list: nat, k: nat)
    requires list < 0x1000_0000 && k <= 3
    ensures TakeAll(ThreeFrames(list)[..k], [Video]) == Frames(list, k)
    decreases k
  {
    hide Zeros, Taken;
    var ps := ThreeFrames(list);
    if k == 0 {
    } else {
      FramesTaken(list, k - 1);
      assert ps[..k][..k - 1] == ps[..k - 1];
      FrameTaken(Frames(list, k - 1), |ps[k - 1].data|);
      assert Frames(list, k).chunks == Frames(list, k - 1).chunks + [Frames(list, k).chunks[k - 1]];
    }
  }

  lemma FramesLength(list: nat)
    requires list < 0x1000_0000 && list % 2 == 0
    ensures Start(Frames(list, 0).chunks, 0) == 0 && Start(Frames(list, 1).chunks, 1) == BIG + 8
    ensures Start(Frames(list, 2).chunks, 2) == 2 * BIG + 16
    ensures Start(Frames(list, 3).chunks, 3) == 2 * BIG + 24 + 0x4000_0000 - 154 - list
  {
    hide Zeros, Start, Movi;
    var f := Frames(list, 3).chunks;
    assert forall k :: 0 <= k <= 3 ==> Frames(list, k).chunks == f[..k];
    assert f[..1] == [] + [f[0]] && f[..2] == f[..1] + [f[1]] && f[..3] == f[..2] + [f[2]];
    StartZero([]);
    StartPush([], f[0]);
    StartPush(f[..1], f[1]);
    StartPush(f[..2], f[2]);
  }

  lemma FramesAccepted(list: nat, k: nat)
    requires list < 0x1000_0000 && list % 2 == 0 && k < 3
    ensures !RefusedAt(list, [Video], ThreeFrames(list), k) && LetThrough(ThreeFrames(list)[k], k)
  {
    hide Zeros, Start, TakeAll;
    FramesTaken(list, k);
    FramesLength(list);
    var g := Frames(list, k);
    assert Switched(g, 0) == g && |g.chunks| == k;
  }

  /** All three are accepted, the file is of more than 4 GiB when it is closed, and the 32-bit
      field at its head does not state its size. */
  method AcceptedTooLarge(list: Bytes, newList: Bytes) returns (w: AviWriter)
    requires |list| % 2 == 0 && |list| < 0x1000_0000 && |newList| == |list|
    ensures forall k :: 0 <= k < 3 ==> LetThrough(ThreeFrames(|list|)[k], k)
    ensures Accepts(|list|, [Video], ThreeFrames(|list|), 3) && w.chunks == ChunksOf(ThreeFrames(|list|), [Video])
    ensures |w.data| == WORD + 6 && Stated(w.data) != |w.data|
  {
    hide TakeAll, Taken, Refused, Estimate, WholeFile, Zeros, Start, Walk, Stated, Contents, IndexLeads, ListSize;
    ghost var ps := ThreeFrames(|list|);
    forall k | 0 <= k < 3 ensures !RefusedAt(|list|, [Video], ps, k) && LetThrough(ps[k], k) { FramesAccepted(|list|, k); }
    FramesTaken(|list|, 3);
    FramesLength(|list|);
    assert ps[..3] == ps;
    w := new AviWriter([Video], list);
    var n := WritePackets(w, ThreeFrames(|list|));
    assert n == 3;
    w.LengthNow();
    w.Close(newList);
  }

  // ---------- a file without packets ----------

  /** Closed before the headers are written, the file does not begin like one. */
  method NothingWritten(list: Bytes, newList: Bytes) returns (w: AviWriter)
    requires |list| % 2 == 0 && |list| + 140 < WORD && |newList| >= 12 && newList[..4] == LIST_ID
    ensures |w.data| >= 4 && w.data[..4] != RIFF_ID
  {
    w := new AviWriter([Video], list);
    w.Close(newList);
  }
}
