/** The AVI writer of avi_writer.c on a seekable output: fragments of known tracks become chunks,
    whose sizes are rewritten when a chunk turns out longer than its first fragment, and closing
    replays the notes kept of every chunk as the indexes. Frame sizes are not known in advance. */
module AviWriter {
  import opened Basics
  import opened AviLayout
  import AviIndexes

  const AUDIO_CHUNK_SIZE_LIMIT := 16384
  const SIZE_LIMIT := 0xFFFF_FFFF

  datatype Packet = Packet(track: nat, data: Bytes, frameEnd: bool, keyframe: bool)
  datatype Status = Success | OutOfResources

  /** The chunks finished so far, and the data of the unfinished one, if any, with its track. */
  datatype Progress = Progress(chunks: seq<Chunk>, open: Bytes, track: nat)

  /** Whether a chunk of that track ends with a packet that makes it n bytes long. */
  predicate Ends(p: Packet, n: nat, tracks: seq<Track>) {
    p.frameEnd || (p.track < |tracks| && tracks[p.track].Audio? && tracks[p.track].blockAlign > 0 && n > AUDIO_CHUNK_SIZE_LIMIT)
  }

  /** A packet of another track ends the unfinished chunk. */
  function Switched(g: Progress, track: nat): Progress {
    if g.open != [] && g.track != track then Progress(g.chunks + [Chunk(g.track, g.open, false)], [], g.track) else g
  }

  lemma TakenSame(g: Progress, p: Packet, tracks: seq<Track>)
    requires p.track < |tracks| && (g.open == [] || g.track == p.track)
    ensures var d := g.open + p.data;
            Taken(g, p, tracks) ==
            if p.frameEnd || (tracks[p.track].Audio? && tracks[p.track].blockAlign > 0 && |d| > AUDIO_CHUNK_SIZE_LIMIT)
            then Progress(g.chunks + [Chunk(p.track, d, p.keyframe && p.frameEnd)], [], p.track)
            else Progress(g.chunks, d, p.track)
  {
  }

  function Taken(g: Progress, p: Packet, tracks: seq<Track>): Progress {
    var s := Switched(g, p.track);
    var d := s.open + p.data;
    if Ends(p, |d|, tracks) then Progress(s.chunks + [Chunk(p.track, d, p.keyframe && p.frameEnd)], [], p.track)
    else Progress(s.chunks, d, p.track)
  }

  /** All data of a track, finished chunks first. */
  function TrackData(chunks: seq<Chunk>, t: nat): Bytes {
    if chunks == [] then []
    else TrackData(chunks[..|chunks| - 1], t)
         + (if chunks[|chunks| - 1].track == t then chunks[|chunks| - 1].data else [])
  }

  function AllData(g: Progress, t: nat): Bytes {
    TrackData(g.chunks, t) + (if g.track == t then g.open else [])
  }

  lemma TrackDataPush(chunks: seq<Chunk>, c: Chunk, t: nat)
    ensures TrackData(chunks + [c], t) == TrackData(chunks, t) + (if c.track == t then c.data else [])
  {
    assert (chunks + [c])[..|chunks|] == chunks;
  }

  lemma SwitchKeeps(g: Progress, track: nat, t: nat)
    ensures AllData(Switched(g, track), t) == AllData(g, t)
    ensures Switched(g, track).open == [] || Switched(g, track).track == track
  {
    hide TrackData;
    TrackDataPush(g.chunks, Chunk(g.track, g.open, false), t);
  }

  /** Whatever chunks the data is cut into, each track's data is its packets' data in order. */
  lemma TakenAdds(g: Progress, p: Packet, tracks: seq<Track>, t: nat)
    ensures AllData(Taken(g, p, tracks), t) == AllData(g, t) + (if p.track == t then p.data else [])
  {
    hide TrackData, Switched, Ends;
    var s := Switched(g, p.track);
    SwitchKeeps(g, p.track, t);
    TrackDataPush(s.chunks, Chunk(p.track, s.open + p.data, p.keyframe && p.frameEnd), t);
    Associates(TrackData(s.chunks, t), s.open, p.data);
  }

  function TakeAll(ps: seq<Packet>, tracks: seq<Track>): Progress {
    if ps == [] then Progress([], [], 0) else Taken(TakeAll(ps[..|ps| - 1], tracks), ps[|ps| - 1], tracks)
  }

  function PacketData(ps: seq<Packet>, t: nat): Bytes {
    if ps == [] then []
    else PacketData(ps[..|ps| - 1], t) + (if ps[|ps| - 1].track == t then ps[|ps| - 1].data else [])
  }

  /** After any run of packets, and after closing too, the chunks of each track hold exactly its
      packets' data in order. */
  lemma {:induction false} RunKeepsData(ps: seq<Packet>, tracks: seq<Track>, t: nat)
    requires forall p :: p in ps ==> p.track < |tracks|
    ensures var g := TakeAll(ps, tracks);
            && (g.open == [] || g.track < |tracks|) && AllData(g, t) == PacketData(ps, t)
            && TrackData(Switched(g, |tracks|).chunks, t) == PacketData(ps, t)
    decreases |ps|
  {
    hide Taken, TrackData;
    if ps == [] {
      TrackDataNothing(t);
    } else {
      var last := ps[|ps| - 1];
      RunKeepsData(ps[..|ps| - 1], tracks, t);
      TakenAdds(TakeAll(ps[..|ps| - 1], tracks), last, tracks, t);
      TakenTrack(TakeAll(ps[..|ps| - 1], tracks), last, tracks);
    }
    SwitchKeeps(TakeAll(ps, tracks), |tracks|, t);
  }

  lemma TrackDataNothing(t: nat)
    ensures TrackData([], t) == []
  {
  }

  lemma TakenTrack(g: Progress, p: Packet, tracks: seq<Track>)
    ensures Taken(g, p, tracks).track == p.track
  {
  }

  // ---------- what becomes a chunk ----------

  /** A frame in fragments, which arrives as that many packets, the last one marked as its end. */
  datatype Frame = Frame(track: nat, fragments: seq<Bytes>, key: bool)

  function Joint(fragments: seq<Bytes>): Bytes {
    if fragments == [] then [] else Joint(fragments[..|fragments| - 1]) + fragments[|fragments| - 1]
  }

  /** The packets of the first n fragments. */
  function Fragmented(f: Frame, n: nat): seq<Packet>
    requires n <= |f.fragments|
  {
    if n == 0 then [] else Fragmented(f, n - 1) + [Packet(f.track, f.fragments[n - 1], n == |f.fragments|, f.key)]
  }

  function FramePackets(fs: seq<Frame>): seq<Packet> {
    if fs == [] then [] else FramePackets(fs[..|fs| - 1]) + Fragmented(fs[|fs| - 1], |fs[|fs| - 1].fragments|)
  }

  /** One chunk for each frame. */
  function FrameChunks(fs: seq<Frame>): seq<Chunk> {
    if fs == [] then []
    else FrameChunks(fs[..|fs| - 1]) + [Chunk(fs[|fs| - 1].track, Joint(fs[|fs| - 1].fragments), fs[|fs| - 1].key)]
  }

  /** Nothing but its end ends a frame: it is not of audio in blocks, or short. */
  predicate Uncut(f: Frame, tracks: seq<Track>) {
    f.fragments != []
    && (f.track < |tracks| && tracks[f.track].Audio? && tracks[f.track].blockAlign > 0 ==> |Joint(f.fragments)| <= 16384)
  }

  lemma TakeMore(ps: seq<Packet>, p: Packet, tracks: seq<Track>)
    ensures TakeAll(ps + [p], tracks) == Taken(TakeAll(ps, tracks), p, tracks)
  {
    hide Taken;
    assert (ps + [p])[..|ps|] == ps;
  }

  lemma JointStep(fragments: seq<Bytes>, n: nat)
    requires n < |fragments|
    ensures Joint(fragments[..n + 1]) == Joint(fragments[..n]) + fragments[n] && fragments[..|fragments|] == fragments
    ensures Joint(fragments[..0]) == []
  {
    assert fragments[..n + 1][..n] == fragments[..n];
  }

  lemma {:induction false} JointLength(fragments: seq<Bytes>, n: nat)
    requires n <= |fragments|
    ensures |Joint(fragments[..n])| <= |Joint(fragments)|
    decreases |fragments| - n
  {
    hide Joint;
    if n == |fragments| {
      assert fragments[..n] == fragments;
    } else {
      JointStep(fragments, n);
      JointLength(fragments, n + 1);
    }
  }

  /** Fragment by fragment the unfinished chunk grows. */
  lemma {:induction false} FrameGrows(ps: seq<Packet>, f: Frame, n: nat, tracks: seq<Track>)
    requires n <= |f.fragments| && Uncut(f, tracks) && TakeAll(ps, tracks).open == []
    ensures var g, h := TakeAll(ps, tracks), TakeAll(ps + Fragmented(f, n), tracks);
            && (n < |f.fragments| ==> h.chunks == g.chunks && h.open == Joint(f.fragments[..n]) && (h.open != [] ==> h.track == f.track))
            && (n == |f.fragments| ==> h.chunks == g.chunks + [Chunk(f.track, Joint(f.fragments), f.key)] && h.open == [])
    decreases n
  {
    hide Joint, TakeAll;
    if n == 0 {
      assert ps + Fragmented(f, 0) == ps;
      JointStep(f.fragments, 0);
    } else {
      var p := Packet(f.track, f.fragments[n - 1], n == |f.fragments|, f.key);
      FrameGrows(ps, f, n - 1, tracks);
      JointStep(f.fragments, n - 1);
      JointLength(f.fragments, n);
      assert ps + Fragmented(f, n) == (ps + Fragmented(f, n - 1)) + [p];
      TakeMore(ps + Fragmented(f, n - 1), p, tracks);
    }
  }

  /** Frames written one after the other become one chunk each, of all their fragments, whatever the
      tracks they are of and the fragments they come in, and a chunk is marked when its frame is a key
      frame. */
  lemma {:induction false} FramesBecomeChunks(fs: seq<Frame>, tracks: seq<Track>)
    requires forall i :: 0 <= i < |fs| ==> Uncut(fs[i], tracks)
    ensures TakeAll(FramePackets(fs), tracks).chunks == FrameChunks(fs) && TakeAll(FramePackets(fs), tracks).open == []
    decreases |fs|
  {
    hide Joint, Taken, Uncut;
    if fs == [] {
    } else {
      var n := |fs| - 1;
      FramesBecomeChunks(fs[..n], tracks);
      assert Uncut(fs[n], tracks);
      FrameGrows(FramePackets(fs[..n]), fs[n], |fs[n].fragments|, tracks);
    }
  }

  predicate CutAudio(g: Progress, t: nat, m: nat) {
    && |g.open| <= 16384 && (g.open != [] ==> g.track == t)
    && forall i :: 0 <= i < |g.chunks| ==> 16384 < |g.chunks[i].data| <= 16384 + m && !g.chunks[i].key && g.chunks[i].track == t
  }

  lemma AudioStep(g: Progress, p: Packet, m: nat, tracks: seq<Track>)
    requires p.track < |tracks| && tracks[p.track].Audio? && tracks[p.track].blockAlign > 0 && !p.frameEnd && |p.data| <= m
    requires CutAudio(g, p.track, m)
    ensures CutAudio(Taken(g, p, tracks), p.track, m)
  {
    assert Switched(g, p.track) == g;
  }

  /** Audio in blocks whose frames do not end is cut behind the packet that makes a chunk longer than
      16384 bytes. */
  lemma {:induction false} AudioIsCut(ps: seq<Packet>, t: nat, m: nat, tracks: seq<Track>)
    requires t < |tracks| && tracks[t].Audio? && tracks[t].blockAlign > 0
    requires forall p :: p in ps ==> p.track == t && !p.frameEnd && |p.data| <= m
    ensures CutAudio(TakeAll(ps, tracks), t, m)
    decreases |ps|
  {
    hide Taken;
    if ps == [] {
    } else {
      var n := |ps| - 1;
      assert ps[n] in ps && forall p :: p in ps[..n] ==> p in ps;
      AudioIsCut(ps[..n], t, m, tracks);
      AudioStep(TakeAll(ps[..n], tracks), ps[n], m, tracks);
    }
  }

  function KeyChunks(chunks: seq<Chunk>): nat {
    if chunks == [] then 0 else KeyChunks(chunks[..|chunks| - 1]) + if chunks[|chunks| - 1].key then 1 else 0
  }

  function KeyEnds(ps: seq<Packet>): nat {
    if ps == [] then 0 else KeyEnds(ps[..|ps| - 1]) + if ps[|ps| - 1].frameEnd && ps[|ps| - 1].keyframe then 1 else 0
  }

  lemma KeyChunksPush(chunks: seq<Chunk>, c: Chunk)
    ensures KeyChunks(chunks + [c]) == KeyChunks(chunks) + if c.key then 1 else 0
  {
    assert (chunks + [c])[..|chunks|] == chunks;
  }

  /** A chunk is marked as a key frame for each packet that ends one, and for nothing else: not when it
      is cut off for its length, for another track or by the close. */
  lemma {:induction false} KeysAreEnds(ps: seq<Packet>, tracks: seq<Track>, t: nat)
    ensures KeyChunks(TakeAll(ps, tracks).chunks) == KeyChunks(Switched(TakeAll(ps, tracks), t).chunks) == KeyEnds(ps)
    decreases |ps|
  {
    hide KeyChunks;
    if ps == [] {
      assert KeyChunks([]) == 0 by { NoKeys(); }
    } else {
      var p, g := ps[|ps| - 1], TakeAll(ps[..|ps| - 1], tracks);
      KeysAreEnds(ps[..|ps| - 1], tracks, p.track);
      var s := Switched(g, p.track);
      KeyChunksPush(s.chunks, Chunk(p.track, s.open + p.data, p.keyframe && p.frameEnd));
    }
    var g := TakeAll(ps, tracks);
    KeyChunksPush(g.chunks, Chunk(g.track, g.open, false));
  }

  lemma NoKeys()
    ensures KeyChunks([]) == 0
  {
  }

  // ---------- the notes kept for the index ----------

  function Note(c: Chunk): (b: Bytes)
    ensures |b| == 5
  {
    [c.track % 256] + BigEndian(NotedSize(|c.data|, c.key), 4)
  }

  function Notes(chunks: seq<Chunk>, k: nat): (b: Bytes)
    requires k <= |chunks|
    ensures |b| == 5 * k
  {
    if k == 0 then [] else Notes(chunks, k - 1) + Note(chunks[k - 1])
  }

  lemma {:induction false} NotesPrefix(chunks: seq<Chunk>, c: Chunk, k: nat)
    requires k <= |chunks|
    ensures Notes(chunks + [c], k) == Notes(chunks, k)
    decreases k
  {
    hide Note;
    if k == 0 {
    } else {
      NotesPrefix(chunks, c, k - 1);
    }
  }

  lemma NotesPush(chunks: seq<Chunk>, c: Chunk)
    ensures Notes(chunks + [c], |chunks| + 1) == Notes(chunks, |chunks|) + Note(c)
  {
    NotesPrefix(chunks, c, |chunks|);
  }

  lemma {:induction false} NoteAt(chunks: seq<Chunk>, j: nat, k: nat)
    requires j < k <= |chunks|
    ensures Notes(chunks, k)[5 * j..5 * j + 5] == Note(chunks[j])
    decreases k
  {
    hide Note;
    Joined(Notes(chunks, k - 1), Note(chunks[k - 1]));
    if j + 1 == k {
    } else {
      NoteAt(chunks, j, k - 1);
    }
  }

  /** What the index makes of a note. */
  lemma NoteMeans(c: Chunk)
    requires c.track < 256 && |c.data| < WORD
    ensures var n := Note(c); var v := BigEndianAt(n, 1, 4);
            && n[0] == c.track && v == NotedSize(|c.data|, c.key) && v % DELTA_FRAME == IndexedSize(c)
            && (if v >= DELTA_FRAME then 0 else KEY_FRAME) == IndexFlags(c)
  {
    var v := NotedSize(|c.data|, c.key);
    Pow2Values();
    BigEndianRoundTrip(v, 4);
    assert Note(c)[1..1 + 4] == BigEndian(v, 4) == BigEndian(v, 4)[0..0 + 4];
    BigEndianSame(Note(c), BigEndian(v, 4), 1, 0, 4);
  }

  // ---------- the file while it grows ----------

  function Head(track: nat, size: nat, tracks: seq<Track>): (b: Bytes)
    ensures |b| == 8
  {
    ChunkId(track, tracks) + U32(size)
  }

  /** The header of the unfinished chunk states the size of its first fragment. */
  function Unfinished(track: nat, first: nat, open: Bytes, tracks: seq<Track>): Bytes {
    if open == [] then [] else Head(track, first, tracks) + open
  }

  function Finished(headers: Bytes, chunks: seq<Chunk>, tracks: seq<Track>): (b: Bytes)
    ensures |b| == |headers| + 12 + Start(chunks, |chunks|)
  {
    Prefix(headers, 0) + Movi(chunks, |chunks|, tracks)
  }

  /** Rewriting the size and padding turns an unfinished chunk into a finished one. */
  lemma FinishedMore(headers: Bytes, chunks: seq<Chunk>, c: Chunk, tracks: seq<Track>)
    ensures Finished(headers, chunks + [c], tracks)
         == Finished(headers, chunks, tracks) + (Head(c.track, |c.data|, tracks) + c.data) + Padding(|c.data|)
  {
    hide Movi, Prefix, ChunkId, U32, Padding;
    MoviPush(chunks, c, tracks);
    Associates(Prefix(headers, 0), Movi(chunks, |chunks|, tracks), ChunkBytes(c, tracks));
    Associates(Finished(headers, chunks, tracks), Head(c.track, |c.data|, tracks) + c.data, Padding(|c.data|));
  }

  /** Writing n bytes over a file at some place. */
  function Over(data: Bytes, at: nat, b: Bytes): Bytes
    requires at <= |data|
  {
    data[..at] + b + (if at + |b| <= |data| then data[at + |b|..] else [])
  }

  lemma OverMiddle(a: Bytes, was: Bytes, now: Bytes, c: Bytes)
    requires |was| == |now|
    ensures Over(a + was + c, |a|, now) == a + now + c
  {
    assert (a + was + c)[..|a|] == a && (a + was + c)[|a| + |was|..] == c;
  }

  lemma OverEnd(a: Bytes, b: Bytes)
    ensures Over(a, |a|, b) == a + b
  {
  }

  /** The size a file would reach with n more bytes of data, as it is estimated beforehand. */
  function Estimate(position: nat, n: nat, tracks: nat, chunks: nat): nat {
    position + n + |Padding(n)| + 24 + (32 * tracks + 8 * chunks) + (8 + 16 * chunks)
  }

  const AVI_ID: Bytes := [65, 86, 73, 32]

  /** The head of the whole file, with the size it states. */
  function Riff(size: nat): (b: Bytes)
    ensures |b| == 12
  {
    RIFF_ID + U32(size) + AVI_ID
  }

  /** The size that the head of a file states. */
  function Stated(file: Bytes): nat {
    if |file| < 8 then 0 else FromU32(file[4..8])
  }

  /** The size of the file if it were closed now: pad the unfinished chunk, of which one more entry
      goes into either index, and add the indexes. */
  function FinalSize(position: nat, unfinished: bool, tracks: nat, chunks: nat): nat {
    var end := if unfinished then position + |Padding(position)| else position;
    end + 32 * tracks + 24 * (if unfinished then chunks + 1 else chunks) + 8
  }

  /** The estimate made before a first fragment leaves out the eight bytes of its chunk's own head. */
  lemma EstimateMissesHead(position: nat, n: nat, tracks: nat, chunks: nat)
    requires position % 2 == 0
    ensures FinalSize(position + 8 + n, true, tracks, chunks) == Estimate(position, n, tracks, chunks) + 8
  {
  }

  lemma EstimateOfMany(position: nat, n: nat, tracks: nat, chunks: nat)
    ensures chunks <= Estimate(position, n, tracks, chunks)
  {
  }

  /** Before a later fragment it is out by the padding at most. */
  lemma EstimateOfMore(position: nat, n: nat, tracks: nat, chunks: nat)
    ensures FinalSize(position + n, true, tracks, chunks) <= Estimate(position, n, tracks, chunks) + 1
  {
  }

  lemma {:induction false} CountPrefix(chunks: seq<Chunk>, c: Chunk, k: nat, t: nat)
    requires k <= |chunks|
    ensures Count(chunks + [c], k, t) == Count(chunks, k, t)
    decreases k
  {
    if k == 0 {
    } else {
      CountPrefix(chunks, c, k - 1, t);
    }
  }

  /** A counter for each track. */
  predicate Tallies(index: seq<nat>, chunks: seq<Chunk>) {
    forall t :: 0 <= t < |index| ==> index[t] == Count(chunks, |chunks|, t)
  }

  lemma TalliesPush(index: seq<nat>, chunks: seq<Chunk>, c: Chunk)
    requires Tallies(index, chunks) && c.track < |index|
    ensures Tallies(index[c.track := index[c.track] + 1], chunks + [c])
  {
    var counted := index[c.track := index[c.track] + 1];
    forall t | 0 <= t < |index| ensures counted[t] == Count(chunks + [c], |chunks| + 1, t) {
      CountPrefix(chunks, c, |chunks|, t);
    }
  }

  /** How long the file is, header list and all, before it is closed. */
  function FileLength(list: nat, g: Progress): nat {
    24 + list + Start(g.chunks, |g.chunks|) + (if g.open == [] then 0 else 8 + |g.open|)
  }

  /** The size check refuses a packet. */
  predicate Refused(list: nat, tracks: nat, g: Progress, p: Packet) {
    var s := Switched(g, p.track);
    Estimate(FileLength(list, s), |p.data|, tracks, |s.chunks|) >= SIZE_LIMIT
  }

  /** Before a first fragment the check refuses the packet exactly when the file closed after it would
      have more than 2^32 + 6 bytes; before a later one the padding decides. */
  lemma RefusedMeans(list: nat, tracks: nat, g: Progress, p: Packet)
    requires list % 2 == 0
    ensures var s := Switched(g, p.track); var at := FileLength(list, s);
            if s.open == [] then Refused(list, tracks, g, p) <==> FinalSize(at + 8 + |p.data|, true, tracks, |s.chunks|) > 0x1_0000_0006
            else Refused(list, tracks, g, p)
                 <==> FinalSize(at + |p.data|, true, tracks, |s.chunks|) + |p.data| % 2 - (|s.open| + |p.data|) % 2 >= 0xFFFF_FFFF
  {
    hide Start, Switched;
  }

  class AviWriter {
    const tracks: seq<Track>
    const list: Bytes          // the header list, as first written
    var data: Bytes            // the output file
    var offset: nat
    var temp: Bytes            // the temporary file of index notes
    var headersWritten: bool
    var dataOffset: nat
    var currentTrack: nat
    var written: nat
    var chunkIndex: seq<nat>   // each track's chunk counter
    ghost var chunks: seq<Chunk>
    ghost var open: Bytes
    ghost var first: nat

    ghost function Now(): Progress
      reads this
    {
      Progress(chunks, open, currentTrack)
    }

    ghost function Headers(): Bytes
      reads this
    {
      Riff(0) + list
    }

    ghost predicate Small()
      reads this
    {
      FinalSize(|data|, open != [], |tracks|, |chunks|) < WORD + 7
    }

    ghost predicate Counted()
      reads this
    {
      && 0 < |tracks| <= TRACKS_MAX && |list| % 2 == 0 && |list| + 140 < WORD
      && |chunkIndex| == |tracks| && Tallies(chunkIndex, chunks) && written == |open| && temp == Notes(chunks, |chunks|)
      && (forall c :: c in chunks ==> Readable(c, tracks) && c.data != [])
      && (open != [] ==> currentTrack < |tracks|)
    }

    /** The data list has been begun. */
    predicate Begun()
      reads this
    {
      dataOffset > 0
    }

    /** The file holds the finished chunks and then the unfinished one. */
    ghost predicate Valid()
      reads this
    {
      && Counted() && offset == |data| && (Begun() ==> headersWritten)
      && (if Begun()
          then dataOffset == 12 + |list| && Small()
               && data == Finished(Headers(), chunks, tracks) + Unfinished(currentTrack, first, open, tracks)
          else data == (if headersWritten then Headers() else Riff(0)) && chunks == [] && open == [])
    }

    constructor (tracks: seq<Track>, list: Bytes)
      requires 0 < |tracks| <= TRACKS_MAX && |list| % 2 == 0 && |list| + 140 < WORD
      ensures Valid() && this.tracks == tracks && this.list == list && Now() == Progress([], [], 0)
      ensures !Begun() && !headersWritten
    {
      this.tracks, this.list := tracks, list;
      data, offset, temp, headersWritten, dataOffset := Riff(0), 12, [], false, 0;
      currentTrack, written, chunkIndex := 0, 0, seq(|tracks|, _ => 0);
      chunks, open, first := [], [], 0;
    }

    /** avi_num_chunks */
    method NumChunks() returns (n: nat)
      requires Counted()
      ensures n == |chunks|
    {
      n := 0;
      for t := 0 to |tracks|
        invariant n == CountBelow(chunks, t)
      {
        n := n + chunkIndex[t];
      }
      CountsAddUp(chunks, |tracks|);
    }

    method Put(b: Bytes)
      requires offset <= |data|
      modifies `data, `offset
      ensures data == Over(old(data), old(offset), b) && offset == old(offset) + |b| <= |data|
    {
      data := data[..offset] + b + (if offset + |b| <= |data| then data[offset + |b|..] else []);
      offset := offset + |b|;
    }

    method Append(b: Bytes)
      requires offset == |data|
      modifies `data, `offset
      ensures data == old(data) + b && offset == |data|
    {
      OverEnd(data, b);
      Put(b);
    }

    /** VC_CONTAINER_CONTROL_TRACK_ADD_DONE: the headers go out, once. */
    method AddDone() returns (ok: bool)
      requires Valid()
      modifies `data, `offset, `headersWritten
      ensures Valid() && headersWritten && Now() == old(Now()) && Begun() == old(Begun()) && ok == !old(headersWritten)
      ensures data == old(data) + if ok then list else []
    {
      hide U32, Readable, Notes, Riff, Start;
      ok := !headersWritten;
      if ok {
        Append(list);
        headersWritten := true;
      }
    }

    /** The headers and the head of the data list go out before the first packet. */
    method Begin()
      requires Valid()
      modifies `data, `offset, `headersWritten, `dataOffset
      ensures Valid() && Begun() && (old(Begun()) ==> data == old(data))
    {
      hide U32, Readable, Notes;
      if !headersWritten {
        Append(list);
        headersWritten := true;
      }
      if dataOffset == 0 {
        dataOffset := offset;
        Append(LIST_ID);
        Append(U32(0));
        Append(MOVI_ID);
      }
    }

    /** avi_finish_data_chunk: with a size, the chunk's size field is rewritten in place. */
    method FinishDataChunk(size: nat, ghost before: Bytes, ghost id: Bytes)
      requires offset == |data| && |id| == 4 && written == |open| > 0 && (size == 0 || size == |open|)
      requires data == before + (id + U32(first) + open) && |before| % 2 == 0
      modifies `data, `offset
      ensures data == before + (id + U32(if size > 0 then |open| else first) + open) + Padding(|open|) && offset == |data|
    {
      hide U32;
      if size > 0 {
        ghost var f := U32(first);
        Associates(before, id + f, open);
        Associates(before, id, f);
        OverMiddle(before + id, f, U32(size), open);
        offset := offset - size - 4;
        Put(U32(size));
        offset := offset + size;
        Associates(before, id, U32(size));
        Associates(before, id + U32(size), open);
      }
      if offset % 2 == 1 { Append([0]); }
      assert Padding(|open|) == (if |open| % 2 == 1 then [0] else []);
    }

    /** avi_write_index_entry */
    method WriteIndexEntry(track: nat, size: nat, key: bool)
      requires track < 256
      modifies `temp
      ensures temp == old(temp) + ([track % 256] + BigEndian(NotedSize(size, key), 4))
    {
      temp := temp + [track % 256];
      temp := temp + BigEndian(if key then size else size % DELTA_FRAME + DELTA_FRAME, 4);
    }

    /** The file part of finishing a chunk. */
    method FinishInFile(rewrite: bool, ghost c: Chunk)
      requires Valid() && open != [] && (rewrite || first == |open|) && c.track == currentTrack && c.data == open
      modifies `data, `offset
      ensures data == Finished(Headers(), chunks + [c], tracks) && offset == |data| == old(|data| + |Padding(|data|)|)
    {
      hide U32, Notes, Prefix, Movi, ChunkId, Readable, Riff, Tallies;
      ghost var before, id := Finished(Headers(), chunks, tracks), ChunkId(currentTrack, tracks);
      FinishDataChunk(if rewrite then written else 0, before, id);
      FinishedMore(Headers(), chunks, c, tracks);
    }

    lemma OpenReadable(key: bool)
      requires Valid() && open != []
      ensures Readable(Chunk(currentTrack, open, key), tracks)
    {
      hide Notes, Tallies, Start;
    }

    /** The unfinished chunk is finished and noted. */
    method CompleteChunk(rewrite: bool, key: bool)
      requires Valid() && open != [] && (rewrite || first == |open|)
      modifies this
      ensures Valid() && written == 0 && Begun()
      ensures Now() == Progress(old(chunks) + [Chunk(currentTrack, old(open), key)], [], old(currentTrack))
      ensures |data| == old(|data| + |Padding(|data|)|)
    {
      hide U32, Notes, NotedSize, Finished, Head, ChunkId, BigEndian, Riff, Tallies, Readable, Start;
      ghost var c := Chunk(currentTrack, open, key);
      OpenReadable(key);
      FinishInFile(rewrite, c);
      NotesPush(chunks, c);
      WriteIndexEntry(currentTrack, written, key);
      TalliesPush(chunkIndex, chunks, c);
      chunkIndex := chunkIndex[currentTrack := chunkIndex[currentTrack] + 1];
      written := 0;
      chunks, open := chunks + [c], [];
      assert data == Finished(Headers(), chunks, tracks) + [];
    }

    method StartChunk(p: Packet)
      requires Valid() && Begun() && p.track < |tracks| && p.data != [] && open == []
      requires Estimate(|data|, |p.data|, |tracks|, |chunks|) < SIZE_LIMIT
      modifies this
      ensures Valid() && Begun() && Now() == Progress(old(chunks), p.data, p.track) && written == first == |p.data|
    {
      hide Finished, ChunkId, U32, Notes, Readable, Estimate, FinalSize, Riff, Tallies;
      ghost var before := Finished(Headers(), chunks, tracks);
      EstimateMissesHead(|data|, |p.data|, |tracks|, |chunks|);
      currentTrack := p.track;
      Append(ChunkId(p.track, tracks));
      Append(U32(|p.data|));
      Append(p.data);
      written, first, open := |p.data|, |p.data|, p.data;
      Associates(before, ChunkId(p.track, tracks), U32(|p.data|));
      Associates(before, Head(p.track, first, tracks), p.data);
      assert before + [] == before;
    }

    method ContinueChunk(p: Packet)
      requires Valid() && Begun() && p.track == currentTrack && p.data != [] && open != []
      requires Estimate(|data|, |p.data|, |tracks|, |chunks|) < SIZE_LIMIT
      modifies this
      ensures Valid() && Begun() && Now() == Progress(old(chunks), old(open) + p.data, p.track)
      ensures written == |open|
    {
      hide Finished, Head, Notes, Readable, Estimate, FinalSize, Riff, Tallies;
      EstimateOfMore(|data|, |p.data|, |tracks|, |chunks|);
      ghost var before, head := Finished(Headers(), chunks, tracks), Head(currentTrack, first, tracks);
      Associates(before, head + open, p.data);
      Associates(head, open, p.data);
      Append(p.data);
      written := written + |p.data|;
      open := open + p.data;
    }

    lemma ValidFacts()
      requires Valid()
      ensures written == |open|
    {
    }

    /** One fragment goes into the file, which may start a chunk or finish it. */
    method WriteFragment(p: Packet)
      requires Valid() && Begun() && p.track < |tracks| && p.data != []
      requires open == [] || currentTrack == p.track
      requires Estimate(|data|, |p.data|, |tracks|, |chunks|) < SIZE_LIMIT
      modifies this
      ensures Valid() && Begun() && Now() == Taken(old(Now()), p, tracks)
    {
      hide Valid, Estimate, Taken;
      ValidFacts();
      TakenSame(Now(), p, tracks);
      assert [] + p.data == p.data;
      if written == 0 {
        StartChunk(p);
      } else {
        ContinueChunk(p);
      }
      if p.frameEnd || (tracks[p.track].Audio? && tracks[p.track].blockAlign > 0 && written > AUDIO_CHUNK_SIZE_LIMIT) {
        CompleteChunk(written > |p.data|, p.keyframe && p.frameEnd);
      }
    }

    lemma LengthNow()
      requires Valid() && Begun()
      ensures |data| == FileLength(|list|, Now())
    {
      hide Notes, Readable, Tallies, Start;
    }

    /** avi_writer_write: the packet's data joins the file in order; or, when the file with its
        index might reach the size limit, at most the unfinished chunk of another track has been
        finished. */
    method Write(p: Packet) returns (status: Status)
      requires Valid() && p.track < |tracks| && p.data != []
      modifies this
      ensures Valid() && Begun()
      ensures status == OutOfResources <==> Refused(|list|, |tracks|, old(Now()), p)
      ensures Now() == if status == Success then Taken(old(Now()), p, tracks) else Switched(old(Now()), p.track)
    {
      hide Estimate, Ends;
      Begin();
      if written > 0 && p.track != currentTrack { CompleteChunk(true, false); }
      var n := NumChunks();
      EstimateOfMany(offset, |p.data|, |tracks|, n);
      LengthNow();
      if n == SIZE_LIMIT || Estimate(offset, |p.data|, |tracks|, n) >= SIZE_LIMIT { return OutOfResources; }
      WriteFragment(p);
      status := Success;
    }

    /** avi_read_index_entry: the note at some place in the temporary file, unless it ends there */
    method ReadIndexEntry(at: nat) returns (ok: bool, track: nat, size: nat)
      ensures ok <==> at + 5 <= |temp| && temp[at] < |tracks|
      ensures ok ==> track == temp[at] && size == BigEndianAt(temp, at + 1, 4)
    {
      ok, track, size := false, 0, 0;
      if at + 5 > |temp| { return; }
      track := temp[at];
      size := BigEndianAt(temp, at + 1, 4);
      ok := track < |tracks|;
    }

    lemma NoteRead(k: nat)
      requires Counted() && k < |chunks|
      ensures var c, v := chunks[k], BigEndianAt(temp, 5 * k + 1, 4);
              && temp[5 * k] == c.track < |tracks| && v == NotedSize(|c.data|, c.key) && v % DELTA_FRAME == IndexedSize(c)
              && (if v >= DELTA_FRAME then 0 else KEY_FRAME) == IndexFlags(c)
    {
      hide Notes, Note, NotedSize;
      var c := chunks[k];
      assert c in chunks;
      NoteAt(chunks, k, |chunks|);
      NoteMeans(c);
      SliceOfSlice(temp, 5 * k, 5 * k + 5, 1, 4);
      assert Note(c)[1..1 + 4] == temp[5 * k + 1..5 * k + 1 + 4];
      BigEndianSame(Note(c), temp, 1, 5 * k + 1, 4);
      assert temp[5 * k..5 * k + 5][0] == temp[5 * k];
    }

    method AppendEntry(id: Bytes, flags: nat, chunkOffset: nat, size: nat)
      requires offset == |data|
      modifies `data, `offset
      ensures offset == |data| && data == old(data) + (id + U32(flags) + U32(chunkOffset) + U32(size))
    {
      hide U32;
      Append(id);
      Append(U32(flags));
      Append(U32(chunkOffset));
      Append(U32(size));
    }

    /** avi_write_legacy_index_chunk: the notes, read back in order, become the index. */
    method WriteLegacyIndex(size: nat)
      requires Counted() && offset == |data|
      modifies `data, `offset
      ensures offset == |data|
      ensures data == old(data) + (IDX1_ID + U32(size) + IndexBytes(chunks, |chunks|, tracks))
    {
      hide U32, Notes, Readable, ChunkId, IndexFlags, IndexedSize, BigEndianAt;
      ghost var before, head := data, IDX1_ID + U32(size);
      Append(IDX1_ID);
      Append(U32(size));
      Associates(before, IDX1_ID, U32(size));
      var chunkOffset, at := 4, 0;
      ghost var k := 0;
      assert before + head + [] == before + head;
      while true
        invariant 0 <= k <= |chunks| && at == 5 * k && offset == |data|
        invariant chunkOffset == IndexedOffset(chunks, k)
        invariant data == before + head + IndexBytes(chunks, k, tracks)
        decreases |chunks| - k
      {
        var ok, track, noted := ReadIndexEntry(at);
        if k < |chunks| { NoteRead(k); }
        if !ok { break; }
        var flags := if noted >= DELTA_FRAME then 0 else KEY_FRAME;
        var chunkSize := noted % DELTA_FRAME;
        AppendEntry(ChunkId(track, tracks), flags, chunkOffset, chunkSize);
        Associates(before + head, IndexBytes(chunks, k, tracks), IndexEntry(chunks, k, tracks));
        chunkOffset := (chunkOffset + (chunkSize + 1) / 2 * 2 + 8) % WORD;
        at := at + 5;
        k := k + 1;
      }
      Associates(before, head, IndexBytes(chunks, k, tracks));
    }

    /** The head of an 'ixNN' chunk and the fields in front of its entries. */
    method WriteIxHead(t: nat)
      requires Counted() && t < |tracks| && offset == |data|
      modifies `data, `offset
      ensures offset == |data|
      ensures var n := Count(chunks, |chunks|, t);
              data == old(data) + (IxId(t) + U32(24 + 8 * n) + IxHead(t, n, dataOffset + 12, tracks))
    {
      hide U32, LittleEndian, ChunkId, IxId, Count, Notes, Readable;
      var n := chunkIndex[t];
      Append(IxId(t));
      Append(U32(24 + 8 * n));
      Append(LittleEndian(2, 2));
      Append([0]);
      Append([1]);
      Append(U32(n));
      Append(ChunkId(t, tracks));
      Append(LittleEndian(dataOffset + 12, 8));
      Append(U32(0));
      assert data == old(data) + (IxId(t) + U32(24 + 8 * n) + IxHead(t, n, dataOffset + 12, tracks));
    }

    method AppendIxEntry(chunkOffset: nat, size: nat)
      requires offset == |data|
      modifies `data, `offset
      ensures offset == |data| && data == old(data) + (U32(chunkOffset) + U32(size))
    {
      hide U32;
      Append(U32(chunkOffset));
      Append(U32(size));
    }

    /** avi_write_standard_index_chunk: the notes of one track become its own index. */
    method WriteStandardIndex(t: nat)
      requires Counted() && t < |tracks| && offset == |data|
      modifies `data, `offset
      ensures offset == |data| && data == old(data) + Ix(chunks, t, dataOffset + 12, tracks)
    {
      hide U32, Notes, Readable, ChunkId, IndexFlags, IndexedSize, BigEndianAt, IxHead, Count, NotedSize, IxNext;
      ghost var n := Count(chunks, |chunks|, t);
      ghost var before, a, b := data, IxId(t) + U32(24 + 8 * n), IxHead(t, n, dataOffset + 12, tracks);
      WriteIxHead(t);
      var chunkOffset, at := 4, 0;
      ghost var k := 0;
      assert before + (a + b) + [] == before + (a + b);
      while true
        invariant 0 <= k <= |chunks| && at == 5 * k && offset == |data|
        invariant chunkOffset == IxOffset(chunks, k, t)
        invariant data == before + (a + b) + IxEntries(chunks, k, t)
        decreases |chunks| - k
      {
        var ok, track, noted := ReadIndexEntry(at);
        if k < |chunks| { NoteRead(k); }
        if !ok { break; }
        if track == t {
          AppendIxEntry(chunkOffset, noted);
          Associates(before + (a + b), IxEntries(chunks, k, t), U32(chunkOffset) + U32(noted));
          chunkOffset := IxNext(chunkOffset, noted);
        }
        at := at + 5;
        k := k + 1;
      }
      Associates(before, a + b, IxEntries(chunks, k, t));
      Associates(a, b, IxEntries(chunks, k, t));
    }

    /** avi_write_standard_index_data */
    method WriteStandardIndexes()
      requires Counted() && offset == |data|
      modifies `data, `offset
      ensures offset == |data| && data == old(data) + IxAll(chunks, |tracks|, dataOffset + 12, tracks)
    {
      hide Ix, Notes, Readable, Count;
      ghost var before := data;
      assert before + [] == before;
      for t := 0 to |tracks|
        invariant offset == |data| && data == before + IxAll(chunks, t, dataOffset + 12, tracks)
      {
        WriteStandardIndex(t);
        Associates(before, IxAll(chunks, t, dataOffset + 12, tracks), Ix(chunks, t, dataOffset + 12, tracks));
      }
    }

    /** Everything that closing appends; the size the data list will state. */
    method WriteIndexes() returns (dataSize: nat)
      requires Valid() && open == [] && dataOffset + 8 <= |data| + 32 * |tracks|
      modifies `data, `offset
      ensures offset == |data| && data == old(data) + Indexes(dataOffset + 12, chunks, tracks)
      ensures |data| == old(|data|) + 32 * |tracks| + 24 * |chunks| + 8
      ensures dataSize == old(|data|) + 32 * |tracks| + 8 * |chunks| - dataOffset - 8
    {
      hide U32, IndexBytes, Notes, Readable, Start, IxAll, Riff, Tallies, Finished;
      ghost var file := data;
      assert forall c :: c in chunks ==> c.track < |tracks| by { TracksKnown(); }
      CountsAddUp(chunks, |tracks|);
      WriteStandardIndexes();
      dataSize := offset - dataOffset - 8;
      var n := NumChunks();
      WriteLegacyIndex(8 + 16 * n - 8);
      Associates(file, IxAll(chunks, |tracks|, dataOffset + 12, tracks), IDX1_ID + U32(16 * n) + IndexBytes(chunks, n, tracks));
    }

    lemma TracksKnown()
      requires Counted()
      ensures forall c :: c in chunks ==> c.track < |tracks|
    {
      hide Notes, Tallies;
    }

    /** The sizes and the header list at the front, once they are known. */
    method RewriteSizes(newList: Bytes, fileSize: nat, dataSize: nat)
      requires 12 <= |data| && dataOffset + 4 <= |data|
      modifies `data, `offset
      ensures data == Rewritten(old(data), if headersWritten then 12 else 0, newList, fileSize, dataOffset + 4, dataSize)
    {
      hide U32;
      offset := 4;
      Put(U32(fileSize));
      offset := if headersWritten then 12 else 0;
      Put(newList);
      offset := dataOffset + 4;
      Put(U32(dataSize));
    }

    /** avi_writer_close: the unfinished chunk is finished, the indexes follow the chunks, and the
        sizes and the header list at the front are rewritten. Walking the file gives every chunk's
        track and data back in order, and so does looking them up in the common index, which is exact
        exactly when all chunks stay below 2 GiB; the size the file states is right when the file
        stays below 4 GiB. Without a packet there is no data list, its size goes where that of the
        file was, and if the headers were not written either, the header list goes over the head
        of the file. */
    method Close(newList: Bytes)
      requires Valid() && (headersWritten ==> |newList| == |list|)
      requires !headersWritten ==> |newList| >= 12 && newList[..4] == LIST_ID
      modifies this
      ensures Now() == Switched(old(Now()), |tracks|).(track := currentTrack)
      ensures old(Begun()) ==>
                data == WholeFile(Riff(|data|) + newList, AviIndexes.ListSize(chunks, tracks), chunks, tracks)
      ensures old(Begun()) ==> 12 + |list| <= |data| && Walk(data, 12 + |list|) == Contents(chunks, 0)
      ensures old(Begun()) ==> (IndexExact(chunks) <==> forall c :: c in chunks ==> |c.data| < DELTA_FRAME)
      ensures old(Begun()) && |data| < WORD ==>
                (AviIndexes.IndexLeads(data, 12 + |list|, chunks, tracks) <==> forall c :: c in chunks ==> |c.data| < DELTA_FRAME)
      ensures old(Begun()) ==> |data| == FinalSize(old(|data|), old(open != []), |tracks|, old(|chunks|))
      ensures old(Begun()) ==> (Stated(data) == |data| <==> |data| < WORD)
      ensures !old(Begun()) ==> data == EmptyClosed(old(data), old(headersWritten), newList, tracks)
      ensures !old(Begun()) && old(headersWritten) ==> 12 + |list| <= |data| && Walk(data, 12 + |list|) == []
      ensures |data| >= 4 && (data[..4] == RIFF_ID <==> old(headersWritten))
    {
      hide U32, FromU32, IndexBytes, Movi, Prefix, Notes, Walk, Readable, Start, Contents, Riff, WholeFile, Stated, Indexes;
      hide Rewritten, EmptyClosed, IndexExact, Finished, Exact, FinalSize, AviIndexes.IndexLeads;
      ghost var begun := Begun();
      FinalSizeNow();
      if written > 0 { CompleteChunk(true, false); }
      if begun { ClosedFacts(); }
      ghost var before := data;
      FinishFile(newList);
      ghost var size := |before| + 32 * |tracks| + 24 * |chunks| + 8;
      if begun {
        ghost var dataSize := AviIndexes.ListSize(chunks, tracks);
        ClosedWhole(list, newList, size, dataSize, chunks, tracks);
        ClosedFile(Riff(size) + newList, dataSize, chunks, tracks);
        if |data| < WORD { AviIndexes.IndexLeadsIff(Riff(size) + newList, chunks, tracks); }
        StatedSize(size, newList, dataSize, chunks, tracks);
      } else {
        ClosedEmpty(before, headersWritten, list, newList, tracks);
        EmptyClosedIs(before, headersWritten, newList, tracks, size, |before| + 32 * |tracks| - 8);
      }
    }

    lemma FinalSizeNow()
      ensures FinalSize(|data|, open != [], |tracks|, |chunks|)
           == (if open != [] then |data| + |Padding(|data|)| + 24 else |data|) + 32 * |tracks| + 24 * |chunks| + 8
    {
    }

    /** The part of closing that comes after the last chunk. */
    method FinishFile(newList: Bytes)
      requires Valid() && open == []
      modifies `data, `offset
      ensures var f := old(data) + Indexes(dataOffset + 12, chunks, tracks);
              && |f| == old(|data|) + 32 * |tracks| + 24 * |chunks| + 8 && 12 <= |f| && dataOffset + 8 <= old(|data|) + 32 * |tracks|
              && data == Rewritten(f, if headersWritten then 12 else 0, newList, |f|, dataOffset + 4,
                                   old(|data|) + 32 * |tracks| + 8 * |chunks| - dataOffset - 8)
    {
      hide U32, Indexes, Finished, Riff, Notes, Readable, Tallies, Rewritten;
      FrontThere();
      var dataSize := WriteIndexes();
      var fileSize := offset;
      RewriteSizes(newList, fileSize, dataSize);
    }

    lemma FrontThere()
      requires Valid()
      ensures |data| >= 12 && (Begun() ==> |data| >= 24 + |list|) && dataOffset + 8 <= |data| + 32 * |tracks|
    {
      hide Notes, Readable, Tallies, Start;
    }

    lemma ClosedFacts()
      requires Valid() && Begun() && open == []
      ensures |data| == 24 + |list| + Start(chunks, |chunks|) && data == Finished(Headers(), chunks, tracks)
      ensures 16 * |chunks| + 24 < WORD && Start(chunks, |chunks|) + 4 < WORD && |tracks| <= TRACKS_MAX && |list| % 2 == 0
      ensures forall c :: c in chunks ==> Readable(c, tracks) && c.track < |tracks|
    {
      hide Start, Notes, Tallies, Prefix, Movi;
      assert Finished(Headers(), chunks, tracks) + [] == Finished(Headers(), chunks, tracks);
    }
  }

  /** Every entry of the common index is exact. */
  predicate IndexExact(chunks: seq<Chunk>) {
    forall k :: 0 <= k < |chunks| ==> Exact(chunks, k)
  }

  /** The two sizes and, in between, the header list at its offset. */
  function Rewritten(f: Bytes, listAt: nat, newList: Bytes, fileSize: nat, sizeAt: nat, dataSize: nat): Bytes
    requires 4 <= |f| && listAt <= |f| && sizeAt <= |f|
  {
    var g := Over(f, 4, U32(fileSize));
    Over(Over(g, listAt, newList), sizeAt, U32(dataSize))
  }

  /** What closing makes of a file without a data list. */
  function EmptyClosed(f: Bytes, headersWritten: bool, newList: Bytes, tracks: seq<Track>): Bytes
    requires |f| >= 12
  {
    var g := f + Indexes(12, [], tracks);
    Rewritten(g, if headersWritten then 12 else 0, newList, |g|, 4, |f| + 32 * |tracks| - 8)
  }

  /** Such a file is headed as one exactly when the headers had been written, but the size it then
      states leaves out the common index and the eight bytes of its own head. */
  lemma ClosedEmpty(f: Bytes, headersWritten: bool, list: Bytes, newList: Bytes, tracks: seq<Track>)
    requires f == if headersWritten then Riff(0) + list else Riff(0)
    requires headersWritten ==> |newList| == |list| && |list| % 2 == 0 && |list| + 140 < WORD && |tracks| <= TRACKS_MAX
    requires !headersWritten ==> |newList| >= 12 && newList[..4] == LIST_ID
    ensures var g := EmptyClosed(f, headersWritten, newList, tracks);
            && |g| >= 4 && (g[..4] == RIFF_ID <==> headersWritten)
            && (headersWritten ==> |g| == |f| + 32 * |tracks| + 8 && Stated(g) == |g| - 16 && Walk(g, 12 + |list|) == [])
  {
    hide U32, FromU32, Indexes, Walk, Stated, Riff, EmptyClosed;
    if headersWritten {
      ClosedHeaded(list, newList, tracks);
    } else {
      var ix := Indexes(12, [], tracks);
      EmptyClosedIs(f, false, newList, tracks, |f + ix|, |f| + 32 * |tracks| - 8);
      EmptyWithout(f + ix, newList, U32(|f + ix|), U32(|f| + 32 * |tracks| - 8));
    }
  }

  lemma ClosedHeaded(list: Bytes, newList: Bytes, tracks: seq<Track>)
    requires |newList| == |list| && |list| % 2 == 0 && |list| + 140 < WORD && |tracks| <= TRACKS_MAX
    ensures var g := EmptyClosed(Riff(0) + list, true, newList, tracks);
            && |g| == 12 + |list| + 32 * |tracks| + 8 && g[..4] == RIFF_ID
            && Stated(g) == |g| - 16 && Walk(g, 12 + |list|) == []
  {
    hide U32, FromU32, Indexes, Walk, Over;
    IndexesLength([], tracks);
    var ix, size := Indexes(12, [], tracks), 12 + |list| + 32 * |tracks| - 8;
    var g, b := EmptyClosed(Riff(0) + list, true, newList, tracks), U32(size);
    EmptyWithList(list, newList, U32(0), U32(size + 16), b, ix);
    assert g == RIFF_ID + b + (AVI_ID + newList + ix);
    HeadedParts(b, newList, ix);
    U32RoundTrip(size);
    EmptyWalk(g, 12 + |list|, tracks);
  }

  lemma EmptyClosedIs(f: Bytes, headersWritten: bool, newList: Bytes, tracks: seq<Track>, fileSize: nat, dataSize: nat)
    requires |f| >= 12 && fileSize == |f + Indexes(12, [], tracks)| && dataSize == |f| + 32 * |tracks| - 8
    ensures EmptyClosed(f, headersWritten, newList, tracks)
         == Rewritten(f + Indexes(12, [], tracks), if headersWritten then 12 else 0, newList, fileSize, 4, dataSize)
  {
    hide Rewritten, Indexes;
  }

  /** Indexes of no chunks at the end of a file hold no data. */
  lemma EmptyWalk(file: Bytes, pos: nat, tracks: seq<Track>)
    requires pos <= |file| && pos % 2 == 0 && |tracks| <= TRACKS_MAX && file[pos..] == Indexes(12, [], tracks)
    ensures Walk(file, pos) == []
  {
    hide U32, FromU32, Walk, IxAll;
    var ix, b := IxAll([], |tracks|, 12, tracks), IDX1_ID + U32(0) + [];
    assert IndexBytes([], 0, tracks) == [];
    assert file[pos..] == ix + b;
    assert file[pos..pos + |ix|] == ix && file[pos + |ix|..] == b;
    assert file[pos + |ix|..pos + |ix| + 4] == b[..4] && file[pos + |ix| + 4..pos + |ix| + 8] == b[4..8] == U32(0);
    CountsAddUp([], |tracks|);
    IxAllPassed(file, pos, [], |tracks|, 12, tracks);
    U32RoundTrip(0);
    IndexEndsWalk(file, pos + |ix|);
  }

  lemma IndexesLength(chunks: seq<Chunk>, tracks: seq<Track>)
    requires forall c :: c in chunks ==> c.track < |tracks|
    ensures forall base :: |Indexes(base, chunks, tracks)| == 32 * |tracks| + 24 * |chunks| + 8
  {
    CountsAddUp(chunks, |tracks|);
  }

  lemma HeadedParts(b: Bytes, newList: Bytes, ix: Bytes)
    requires |b| == 4
    ensures var g := RIFF_ID + b + (AVI_ID + newList + ix);
            g[..4] == RIFF_ID && g[4..8] == b && g[12 + |newList|..] == ix && |g| == 12 + |newList| + |ix|
  {
  }

  lemma EmptyWithList(list: Bytes, newList: Bytes, zero: Bytes, a: Bytes, b: Bytes, ix: Bytes)
    requires |newList| == |list| && |zero| == |a| == |b| == 4
    ensures Over(Over(Over(RIFF_ID + zero + AVI_ID + list + ix, 4, a), 12, newList), 4, b)
         == RIFF_ID + b + (AVI_ID + newList + ix)
  {
    assert RIFF_ID + zero + AVI_ID + list + ix == RIFF_ID + zero + (AVI_ID + list + ix);
    OverMiddle(RIFF_ID, zero, a, AVI_ID + list + ix);
    assert RIFF_ID + a + (AVI_ID + list + ix) == RIFF_ID + a + AVI_ID + list + ix;
    OverMiddle(RIFF_ID + a + AVI_ID, list, newList, ix);
    assert RIFF_ID + a + AVI_ID + newList + ix == RIFF_ID + a + (AVI_ID + newList + ix);
    OverMiddle(RIFF_ID, a, b, AVI_ID + newList + ix);
  }

  lemma EmptyWithout(f: Bytes, newList: Bytes, a: Bytes, b: Bytes)
    requires |f| >= 12 && |newList| >= 12 && newList[..4] == LIST_ID && |a| == |b| == 4
    ensures var g := Over(Over(Over(f, 4, a), 0, newList), 4, b); |g| >= 4 && g[..4] == LIST_ID
  {
    var g := Over(Over(f, 4, a), 0, newList);
    assert g[..4] == newList[..4];
    assert Over(g, 4, b)[..4] == g[..4];
  }

  /** With a data list the closed file is whole. */
  lemma ClosedWhole(list: Bytes, newList: Bytes, fileSize: nat, dataSize: nat, chunks: seq<Chunk>, tracks: seq<Track>)
    requires |newList| == |list|
    ensures var f := Finished(Riff(0) + list, chunks, tracks) + Indexes(24 + |list|, chunks, tracks);
            var g := WholeFile(Riff(fileSize) + newList, dataSize, chunks, tracks);
            Rewritten(f, 12, newList, fileSize, 16 + |list|, dataSize) == g && |g| == |f| && g[..4] == RIFF_ID
  {
    hide U32, Movi, Indexes;
    SizesRewritten(list, newList, fileSize, dataSize, chunks, tracks);
    Unfold(Riff(fileSize) + newList, dataSize, chunks, tracks);
  }

  /** What is true of the file once closed. */
  lemma ClosedFile(headers: Bytes, listSize: nat, chunks: seq<Chunk>, tracks: seq<Track>)
    requires |headers| % 2 == 0 && 16 * |chunks| + 24 < WORD && Start(chunks, |chunks|) + 4 < WORD && |tracks| <= TRACKS_MAX
    requires forall c :: c in chunks ==> Readable(c, tracks)
    ensures |headers| <= |WholeFile(headers, listSize, chunks, tracks)|
    ensures Walk(WholeFile(headers, listSize, chunks, tracks), |headers|) == Contents(chunks, 0)
    ensures IndexExact(chunks) <==> forall c :: c in chunks ==> |c.data| < DELTA_FRAME
  {
    hide WholeFile, Walk, Start, Exact, Contents, Readable;
    WalkRecovers(headers, listSize, chunks, tracks);
    IndexExactIff(chunks);
    assert (forall k :: 0 <= k < |chunks| ==> |chunks[k].data| < DELTA_FRAME) <==> (forall c :: c in chunks ==> |c.data| < DELTA_FRAME);
  }

  /** The sizes and the header list are rewritten in place. */
  lemma SizesRewritten(list: Bytes, newList: Bytes, fileSize: nat, dataSize: nat, chunks: seq<Chunk>, tracks: seq<Track>)
    requires |newList| == |list|
    ensures var f0 := WholeFile(Riff(0) + list, 0, chunks, tracks);
            Over(Over(Over(f0, 4, U32(fileSize)), 12, newList), 16 + |list|, U32(dataSize))
            == WholeFile(Riff(fileSize) + newList, dataSize, chunks, tracks)
  {
    hide U32, IndexBytes, Movi, Indexes;
    var rest := MOVI_ID + Movi(chunks, |chunks|, tracks) + Indexes(24 + |list|, chunks, tracks);
    Unfold(Riff(0) + list, 0, chunks, tracks);
    Unfold(Riff(fileSize) + newList, dataSize, chunks, tracks);
    SizesInFront(list, newList, U32(0), U32(fileSize), U32(dataSize), rest);
  }

  lemma Unfold(headers: Bytes, listSize: nat, chunks: seq<Chunk>, tracks: seq<Track>)
    ensures WholeFile(headers, listSize, chunks, tracks)
         == headers + LIST_ID + U32(listSize) + (MOVI_ID + Movi(chunks, |chunks|, tracks) + Indexes(|headers| + 12, chunks, tracks))
  {
    hide U32, Movi, Indexes;
  }

  lemma SizesInFront(list: Bytes, newList: Bytes, zero: Bytes, a: Bytes, b: Bytes, rest: Bytes)
    requires |newList| == |list| && |zero| == |a| == |b| == 4
    ensures Over(Over(Over(RIFF_ID + zero + AVI_ID + list + LIST_ID + zero + rest, 4, a), 12, newList), 16 + |list|, b)
         == RIFF_ID + a + AVI_ID + newList + LIST_ID + b + rest
  {
    var t := LIST_ID + zero + rest;
    assert RIFF_ID + zero + AVI_ID + list + LIST_ID + zero + rest == RIFF_ID + zero + (AVI_ID + list + t);
    OverMiddle(RIFF_ID, zero, a, AVI_ID + list + t);
    assert RIFF_ID + a + (AVI_ID + list + t) == RIFF_ID + a + AVI_ID + list + t;
    OverMiddle(RIFF_ID + a + AVI_ID, list, newList, t);
    var h := RIFF_ID + a + AVI_ID + newList;
    assert h + t == h + LIST_ID + zero + rest;
    OverMiddle(h + LIST_ID, zero, b, rest);
  }

  /** The file states its size exactly when that fits 32 bits. */
  lemma StatedSize(size: nat, list: Bytes, dataSize: nat, chunks: seq<Chunk>, tracks: seq<Track>)
    ensures var file := WholeFile(Riff(size) + list, dataSize, chunks, tracks);
            12 + |list| <= |file| && (Stated(file) == size <==> size < WORD)
  {
    hide U32, FromU32, Movi, Indexes;
    var file := WholeFile(Riff(size) + list, dataSize, chunks, tracks);
    assert file == RIFF_ID + U32(size) + (AVI_ID + list + LIST_ID + U32(dataSize) + MOVI_ID + Movi(chunks, |chunks|, tracks)
                                          + Indexes(|list| + 24, chunks, tracks));
    assert file[4..8] == U32(size);
    U32Fits(size);
  }

  /** The tags of a closed file, spelled out, and where they stand. */
  lemma FileTags(size: nat, list: Bytes, dataSize: nat, chunks: seq<Chunk>, tracks: seq<Track>)
    ensures var file, at := WholeFile(Riff(size) + list, dataSize, chunks, tracks), 12 + |list|;
            && at + 12 <= |file| && file[..4] == Ascii("RIFF") && file[8..12] == Ascii("AVI ")
            && file[12..at] == list && file[at..at + 4] == Ascii("LIST") && file[at + 8..at + 12] == Ascii("movi")
  {
    hide U32, Movi, Indexes;
    Tags();
    assert AVI_ID == Ascii("AVI ");
    var file := WholeFile(Riff(size) + list, dataSize, chunks, tracks);
    assert file == RIFF_ID + U32(size) + AVI_ID + list + LIST_ID + U32(dataSize) + MOVI_ID
                   + (Movi(chunks, |chunks|, tracks) + Indexes(|list| + 24, chunks, tracks));
  }

  lemma U32Fits(v: nat)
    ensures FromU32(U32(v)) == v <==> v < WORD
  {
    hide FromLittleEndian, LittleEndian;
    if v < WORD {
      U32RoundTrip(v);
    } else {
      LittleEndianBound(U32(v));
      Pow2Values();
    }
  }

  lemma {:induction false} LittleEndianBound(b: Bytes)
    ensures FromLittleEndian(b) < Pow2(8 * |b|)
  {
    if b == [] {
    } else {
      LittleEndianBound(b[1..]);
      Pow2Add(8, 8 * (|b| - 1));
      Pow2Values();
    }
  }
}
