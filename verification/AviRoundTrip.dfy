/** A whole AVI file, written from packets by the writer and read back by the reader. */
module AviRoundTrip {
  import opened Basics
  import opened AviLayout
  import opened AviWriter
  import opened AviReader

  /** What was found for one track, joined. */
  function Gathered(found: seq<(int, Bytes)>, t: nat): Bytes {
    if found == [] then [] else (if found[0].0 == t then found[0].1 else []) + Gathered(found[1..], t)
  }

  lemma {:induction false} GatheredFrom(chunks: seq<Chunk>, k: nat, t: nat)
    requires k <= |chunks|
    ensures TrackData(chunks[..k], t) + Gathered(Contents(chunks, k), t) == TrackData(chunks, t)
    decreases |chunks| - k
  {
    if k == |chunks| {
      assert chunks[..k] == chunks;
    } else {
      var d := if chunks[k].track == t then chunks[k].data else [];
      GatheredFrom(chunks, k + 1, t);
      assert chunks[..k + 1] == chunks[..k] + [chunks[k]];
      TrackDataPush(chunks[..k], chunks[k], t);
      Associates(TrackData(chunks[..k], t), d, Gathered(Contents(chunks, k + 1), t));
    }
  }

  /** The walk over all chunks gives each track's data whole and in order. */
  lemma GatheredIsTrackData(chunks: seq<Chunk>, t: nat)
    ensures Gathered(Contents(chunks, 0), t) == TrackData(chunks, t)
  {
    GatheredFrom(chunks, 0, t);
    assert chunks[..0] == [];
    TrackDataNothing(t);
  }

  /** Finishing the unfinished chunk for another track first makes no difference at the close. */
  lemma SwitchedTwice(g: Progress, track: nat, n: nat)
    requires track < n && (g.open == [] || g.track < n)
    ensures Switched(Switched(g, track), n).chunks == Switched(g, n).chunks
  {
  }

  /** The size check refuses packet k, all before it accepted. */
  predicate RefusedAt(list: nat, tracks: seq<Track>, ps: seq<Packet>, k: nat)
    requires k < |ps|
  {
    Refused(list, |tracks|, TakeAll(ps[..k], tracks), ps[k])
  }

  /** The first n packets are accepted and no more. */
  predicate Accepts(list: nat, tracks: seq<Track>, ps: seq<Packet>, n: nat) {
    && n <= |ps| && (forall k :: 0 <= k < n ==> !RefusedAt(list, tracks, ps, k))
    && (n < |ps| ==> RefusedAt(list, tracks, ps, n))
  }

  /** The chunks a file holds after the close. */
  function ChunksOf(ps: seq<Packet>, tracks: seq<Track>): seq<Chunk> {
    Switched(TakeAll(ps, tracks), |tracks|).chunks
  }

  /** Packets are written one after the other until they end or one is refused. */
  method WritePackets(w: AviWriter, ps: seq<Packet>) returns (n: nat)
    requires w.Valid() && w.Now() == Progress([], [], 0)
    requires forall p :: p in ps ==> p.track < |w.tracks| && p.data != []
    modifies w
    ensures w.Valid() && (ps != [] ==> w.Begun())
    ensures ps == [] ==> w.Begun() == old(w.Begun()) && w.headersWritten == old(w.headersWritten)
    ensures Accepts(|w.list|, w.tracks, ps, n)
    ensures n == |ps| ==> w.Now() == TakeAll(ps, w.tracks)
    ensures Switched(w.Now(), |w.tracks|).chunks == ChunksOf(ps[..n], w.tracks)
  {
    hide Taken, Switched, Estimate, w.Valid, Refused;
    n := 0;
    assert ps[..0] == [] && ps[..|ps|] == ps;
    while n < |ps|
      invariant n <= |ps| && w.Valid() && (n > 0 ==> w.Begun())
      invariant n == 0 ==> w.Begun() == old(w.Begun()) && w.headersWritten == old(w.headersWritten)
      invariant w.Now() == TakeAll(ps[..n], w.tracks)
      invariant forall k :: 0 <= k < n ==> !RefusedAt(|w.list|, w.tracks, ps, k)
    {
      assert ps[n] in ps;
      var status := w.Write(ps[n]);
      if status == OutOfResources {
        RunKeepsData(ps[..n], w.tracks, 0);
        SwitchedTwice(TakeAll(ps[..n], w.tracks), ps[n].track, |w.tracks|);
        return;
      }
      assert ps[..n + 1][..n] == ps[..n];
      n := n + 1;
    }
  }

  /** Round trip: reading the closed file from its data list gives the chunks of the packets up to
      the first one the size check refuses, and so each track exactly the data of those packets,
      in order. When there is room for all packets none is refused. */
  method WriteAndRead(tracks: seq<Track>, list: Bytes, newList: Bytes, ps: seq<Packet>)
    returns (n: nat, found: seq<(int, Bytes)>)
    requires 0 < |tracks| <= TRACKS_MAX && |list| % 2 == 0 && |list| + 140 < WORD && |newList| == |list|
    requires forall p :: p in ps ==> p.track < |tracks| && p.data != []
    ensures Accepts(|list|, tracks, ps, n) && (Room(|list|, |tracks|, ps) ==> n == |ps|)
    ensures found == Contents(ChunksOf(ps[..n], tracks), 0)
    ensures forall t: nat :: Gathered(found, t) == PacketData(ps[..n], t)
  {
    hide Taken, Switched, Estimate, Walk, Contents, WholeFile, TrackData, PacketData, Start, TakeAll, Refused, IndexExact;
    var w := new AviWriter(tracks, list);
    var ok := w.AddDone();
    n := WritePackets(w, ps);
    if Room(|list|, |tracks|, ps) && n < |ps| { RoomForAll(|list|, tracks, ps, n); }
    if ps == [] { NoChunks(tracks); }
    w.Close(newList);
    var r := new AviReader(w.data, 12 + |list|);
    found := r.ReadChunks();
    forall t: nat ensures Gathered(found, t) == PacketData(ps[..n], t) {
      RunKeepsData(ps[..n], tracks, t);
      GatheredIsTrackData(ChunksOf(ps[..n], tracks), t);
    }
  }

  lemma NoChunks(tracks: seq<Track>)
    ensures ChunksOf([], tracks) == [] && Contents([], 0) == []
  {
  }

  // ---------- room ----------

  /** What a packet takes at most: its data, a head, padding and an entry in either index. */
  function Demand(ps: seq<Packet>): nat {
    if ps == [] then 0 else Demand(ps[..|ps| - 1]) + |ps[|ps| - 1].data| + 33
  }

  predicate Room(list: nat, tracks: nat, ps: seq<Packet>) {
    24 + list + 32 * tracks + 8 + Demand(ps) < SIZE_LIMIT
  }

  /** What the chunks and the unfinished one take at most. */
  function Weight(chunks: seq<Chunk>): nat {
    if chunks == [] then 0 else Weight(chunks[..|chunks| - 1]) + |chunks[|chunks| - 1].data| + 33
  }

  function Taking(g: Progress): nat {
    Weight(g.chunks) + if g.open == [] then 0 else |g.open| + 33
  }

  lemma WeightPush(chunks: seq<Chunk>, c: Chunk)
    ensures Weight(chunks + [c]) == Weight(chunks) + |c.data| + 33
  {
    assert (chunks + [c])[..|chunks|] == chunks;
  }

  lemma TakenTakes(g: Progress, p: Packet, tracks: seq<Track>)
    ensures Taking(Switched(g, p.track)) == Taking(g) && Taking(Taken(g, p, tracks)) <= Taking(g) + |p.data| + 33
  {
    hide Ends, Weight;
    var s := Switched(g, p.track);
    WeightPush(g.chunks, Chunk(g.track, g.open, false));
    WeightPush(s.chunks, Chunk(p.track, s.open + p.data, p.keyframe && p.frameEnd));
  }

  lemma {:induction false} TakeAllTakes(ps: seq<Packet>, tracks: seq<Track>)
    ensures Taking(TakeAll(ps, tracks)) <= Demand(ps)
    decreases |ps|
  {
    hide Taken, Taking;
    if ps == [] {
      NothingTaken();
    } else {
      TakeAllTakes(ps[..|ps| - 1], tracks);
      TakenTakes(TakeAll(ps[..|ps| - 1], tracks), ps[|ps| - 1], tracks);
    }
  }

  lemma NothingTaken()
    ensures Taking(Progress([], [], 0)) == 0
  {
  }

  lemma {:induction false} StartBound(chunks: seq<Chunk>, k: nat)
    requires k <= |chunks|
    ensures Start(chunks, k) + 24 * k <= Weight(chunks[..k])
    decreases k
  {
    if k == 0 {
    } else {
      StartBound(chunks, k - 1);
      assert chunks[..k] == chunks[..k - 1] + [chunks[k - 1]];
      WeightPush(chunks[..k - 1], chunks[k - 1]);
    }
  }

  lemma {:induction false} DemandMono(ps: seq<Packet>, k: nat)
    requires k < |ps|
    ensures Demand(ps[..k]) + |ps[k].data| + 33 <= Demand(ps)
    decreases |ps|
  {
    if k + 1 == |ps| {
    } else {
      DemandMono(ps[..|ps| - 1], k);
      assert ps[..|ps| - 1][..k] == ps[..k];
    }
  }

  /** With room for all packets none is refused. */
  lemma RoomForAll(list: nat, tracks: seq<Track>, ps: seq<Packet>, k: nat)
    requires Room(list, |tracks|, ps) && k < |ps|
    ensures !RefusedAt(list, tracks, ps, k)
  {
    hide Taken, Weight, Demand, Start;
    var g, p := TakeAll(ps[..k], tracks), ps[k];
    var s := Switched(g, p.track);
    DemandMono(ps, k);
    TakeAllTakes(ps[..k], tracks);
    TakenTakes(g, p, tracks);
    StartBound(s.chunks, |s.chunks|);
    assert s.chunks[..|s.chunks|] == s.chunks;
    hide Switched, TakeAll;
  }
}
