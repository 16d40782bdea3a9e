/** The chunk walker of avi_reader.c. */
module AviReader {
  import opened Basics
  import opened AviLayout

  class AviReader {
    const data: Bytes
    var offset: nat

    constructor (data: Bytes, offset: nat)
      requires offset <= |data|
      ensures this.data == data && this.offset == offset
    {
      this.data, this.offset := data, offset;
    }

    /** AVI_SKIP_CHUNK */
    method SkipChunkData(size: nat)
      requires offset <= |data|
      modifies `offset
      ensures offset == SkipChunk(data, old(offset), size)
    {
      offset := Min(offset + size, |data|);
      while offset % 2 == 1 && offset < |data|
        invariant offset <= |data|
        invariant Min(offset + offset % 2, |data|) == SkipChunk(data, old(offset), size)
        decreases |data| - offset
      {
        offset := offset + 1;
      }
    }

    /** avi_find_next_data_chunk */
    method FindNextDataChunk() returns (ok: bool, id: Bytes, size: nat)
      requires offset <= |data|
      modifies `offset
      ensures offset <= |data|
      ensures NextData(data, old(offset)) == (if ok then Data(id, size, offset) else Nothing)
      ensures ok ==> offset > old(offset) && |id| == 4
    {
      hide FromU32, IsData, SkipChunk;
      ok, id, size := false, [], 0;
      while offset + 8 <= |data|
        invariant old(offset) <= offset <= |data|
        invariant NextData(data, offset) == NextData(data, old(offset))
        decreases |data| - offset
      {
        id, size := data[offset..offset + 4], FromU32(data[offset + 4..offset + 8]);
        offset := offset + 8;
        if id == LIST_ID || id == RIFF_ID {
          if offset + 4 > |data| { return; }
          var tag := data[offset..offset + 4];
          if (id == LIST_ID && (tag == REC_ID || tag == MOVI_ID)) || (id == RIFF_ID && tag == AVIX_ID) {
            offset := offset + 4;
          } else {
            SkipChunkData(size);
          }
        } else {
          if IsData(id) { return true, id, size; }
          if size == 0 && id == [0, 0, 0, 0] { return; }
          SkipChunkData(size);
        }
      }
    }

    static lemma WalkUnfolds(file: Bytes, pos: nat)
      requires pos <= |file|
      ensures var f := NextData(file, pos);
              if f.Data? && pos < f.at <= |file| && |f.id| == 4
              then Walk(file, pos) == [(TrackOf(f.id), file[f.at..Min(f.at + f.size, |file|)])]
                                      + Walk(file, SkipChunk(file, f.at, f.size))
              else Walk(file, pos) == []
    {
    }

    /** Every data chunk from here on, read to its end and past its padding. */
    method ReadChunks() returns (found: seq<(int, Bytes)>)
      requires offset <= |data|
      modifies `offset
      ensures found == Walk(data, old(offset))
    {
      hide NextData, TrackOf, SkipChunk, Walk;
      found := [];
      var ok, id, size := true, [], 0;
      while ok
        invariant offset <= |data|
        invariant found + (if ok then Walk(data, offset) else []) == Walk(data, old(offset))
        decreases ok, |data| - offset
      {
        ghost var before := offset;
        WalkUnfolds(data, before);
        ok, id, size := FindNextDataChunk();
        if ok {
          found := found + [(TrackOf(id), data[offset..Min(offset + size, |data|)])];
          SkipChunkData(size);
        }
      }
    }
  }
}
