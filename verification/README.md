# A verified model of the media-container library

The container library of this repository (`containers/`) is built from small stateful engines. Each
of them has a much simpler meaning than its code, and this project states those meanings and proves
the engines against them.

- **`AsyncRing.dfy`**: the asynchronous writer. A cache thread fills the areas of a ring, a writer
  thread drains them, and two semaphores and a latching event connect them. It is a state machine over
  the atomic steps of both threads. **`AsyncClose.dfy`** adds how the cache uses it, up to the close:
  the lower stream is moved only while the writer rests, so the file is that of writing in turn.
- **`IoCache.dfy`**: the read and write cache over a seekable stream. It refines a plain
  random-access file over whole runs of calls. **`CacheControl.dfy`** is the part of its state that
  holds no bytes, which decides the runs this is true of, and **`CacheFailures.dfy`** has runs of each
  other kind, for any size of the memory.
- **`SeekIndex.dfy`**: the seek index that drops every other entry without moving data. It is a uniform
  down-sampling of the accepted calls and stays binary-searchable.
- **`Bytestream.dfy`**, **`Avc1Packetizer.dfy`**, **`MpgaHeader.dfy`**, **`MpgaPacketizer.dfy`**: the
  linked packet list that reads as one flat byte sequence, the two re-entrant packetizers on it, and
  what the fields of an MPEG audio header stand for.
- **`UriText.dfy`**, **`UriChars.dfy`**, **`UriRoundTrip.dfy`**, **`Uri.dfy`**, **`UriRebuilt.dfy`**:
  what URI text means, character by character, exactly when parsing undoes building, the parser and
  printer themselves, and the one run after the other.
- **`AviLayout.dfy`**, **`AviWriter.dfy`**, **`AviReader.dfy`**, **`AviRoundTrip.dfy`**: the AVI data list
  and its indexes, the fragment-to-chunk writer, the reader's chunk walk, and the way from packets to a
  file and back. **`AviIndexes.dfy`** reads the indexes' bytes as a reader does, **`AviWalk.dfy`** walks
  files that group their chunks, and **`AviFailures.dfy`** has the files that are not what they say.
- **`AsfLayout.dfy`**, **`AsfReading.dfy`**, **`AsfWriter.dfy`**: the two-pass ASF object writer with its
  counted output switch, what a reader that trusts the size fields sees, and what it reads in the
  fields by byte position.
- **`Bits.dfy`**: the bit reader and its Exp-Golomb codes (sections 9.1 and 9.1.1 of ITU-T H.264).
- **`MediaTime.dfy`**: the sample-counting clock.
- **`Basics.dfy`**: bytes, byte order and arithmetic shared by the rest.

Objects that the source updates in place are classes with the same fields; their methods are proved
against functions on values, and the laws are lemmas about those functions or invariants kept by every
method. `dafny verify dfyconfig.toml` checks the project. Nothing was executed.

## Where the code does not keep the general claim

For each of these the model keeps the code as it is, the contract gives the exact condition, and a
member named beside it shows a failure: a run from a fresh object or, for a whole family of streams or
files, a lemma about the runs of that kind. The AVI packets are ones that `vc_container_write` lets
through to a file; the sample count is one that the clock's interface takes but no caller passes.

- A cached write lands at the logical offset if and only if it does not start inside the read-ahead of
  a clean buffer: flushing a clean buffer moves past all of it (`IoCache.CachedIo.Write`,
  `CacheFailures.ReadThenWrite`).
- A failing seek leaves the stream where it was if and only if the buffer is clean or read to its end,
  and an explicit flush if and only if the buffer is read to its end (`IoCache.CachedIo.Seek`,
  `IoCache.CachedIo.Flush`, `CacheFailures.FailingSeekThenWrite`, `CacheFailures.FlushThenWrite`).
- A write that goes past the cache gives the right file, whatever the bytes, if and only if the lower
  stream stands where the buffer begins and the rest that goes into the buffer covers the dirty bytes
  still there (`IoCache.DirectExact`). Both parts can fail: the source leaves dirty bytes in the buffer
  (`CacheFailures.StaleThenDirectWrite`), and it does not compare the two offsets before the write
  (`CacheFailures.BackFillThenDirectWrite`); both are about the file that
  `CacheFailures.RunThenWrite` returns.
- Stopping the asynchronous writer by itself loses nothing if and only if the queue is empty or the
  writer is not about to look at its quit flag (`AsyncRing.StopIsLosslessIff`). Its only caller flushes
  first, so a close without a failed write loses nothing (`AsyncClose.CloseWritesAll`). After a failed
  write the cache can be clean with a buffer still queued, and then the close drops it without handing
  it to the lower stream; that is impossible if and only if there are two areas
  (`AsyncClose.CloseIsCompleteIff`, `AsyncClose.LosingClose`).
- Skipping a packet of which part has been read adds that part to the byte counter a second time; the
  counter is right again if and only if the offset was zero (`Bytestream.Stream.SkipPacket`,
  `Bytestream.DriftAfterSkip`).
- The MPEG audio packetizer stalls inside a frame if and only if fewer bytes are unread than the whole
  frame has, even when the rest of the frame is at hand (`MpgaPacketizer.Packetizer.HandOut`,
  `MpgaPacketizer.StallWithRestAtHand`). It also marks every piece of a frame as its end, so that mark
  carries no information and is not modelled.
- A truncated Exp-Golomb code is rejected if and only if the number of remaining bits is odd or zero,
  more than 64, or 64 without all of them being zero; otherwise half of the bits are taken for its
  zeros (`Bits.BitStream.ReadU32ExpGolomb`, `Bits.TruncatedCodeAccepted`). Skipping zero bits on an
  invalid stream makes it test as valid again if and only if its byte count is not zero
  (`Bits.BitStream.Skip`, `Bits.InvalidRevived`).
- The common AVI index is exact if and only if every chunk is below 2 GiB, because the top bit of a
  noted size marks delta frames (`AviLayout.IndexExactIff`, `AviFailures.LargeFrameMisindexed`).
- An AVI file closed after a packet states its own size if and only if it is below 4 GiB. The check
  before each packet is meant to keep it there, but leaves out the eight bytes of a new chunk's head
  (`AviWriter.EstimateMissesHead`, `AviWriter.AviWriter.Close`, `AviFailures.AcceptedTooLarge`).
- A closed AVI file begins as one if and only if its headers were written: a close before that puts the
  header list over the head of the file (`AviWriter.AviWriter.Close`, `AviFailures.NothingWritten`).
- A sample count is added exactly if and only if neither the count nor the time step leaves 32 bits
  (`MediaTime.ExactIffFits`, for a positive time base; `MediaTime.LongCallWraps`). At a rate that is a
  fraction a call is exact if and only if the whole seconds it fills are a whole number of samples;
  otherwise the clock runs ahead, by less than a sample for each call (`MediaTime.ExactIffWhole`,
  `MediaTime.NeverSlow`, `MediaTime.FractionRunsFast`).
- An entry of a track's own AVI index leads to its chunk if and only if four bytes for each earlier
  chunk of the track are the bytes of the other tracks' earlier chunks and four more, so never for the
  first chunk of a track, and with one track for the second chunk alone (`AviIndexes.IxReads`,
  `AviIndexes.IxMisleads`). Sizes and key flags are right.
- Parsing gives back the parts a URI was built from if and only if they are normal or, without a
  scheme, a plain path alone or nothing (`UriRoundTrip.BuildThenParse`, which makes any other parts a
  failure).

## Model

| member | source | states |
|---|---|---|
| `AsyncRing.InvStep` | containers/core/containers_io.c:869-935 | every atomic step of either thread keeps the ring invariant: semaphore counts, area pointers, intact queued data, written prefix, no lost signal |
| `AsyncRing.InvRun` | containers/core/containers_io.c:869-966 | so does every run from a fresh ring, in any interleaving |
| `AsyncRing.FilledAreaIsPrivate` | containers/core/containers_io.c:906-935 | with two or more areas the area the cache fills is never one that is queued or being written |
| `AsyncRing.PostedIsHandedOver` | containers/core/containers_io.c:906-935 | in any interleaving the buffers posted are, in order, the windows stored, each cut out of what its area was last filled with |
| `AsyncRing.PostsWindow` | containers/core/containers_io.c:906-918 | any window of the area, at any shift, can be handed over, and it is what is posted |
| `AsyncRing.WrittenOnceInOrder` | containers/core/containers_io.c:875-900 | without a write error the output is at all times a prefix of the windows that the cache's own steps filled and handed over, joined, each once and in order |
| `AsyncRing.CompleteMeansWritten` | containers/core/containers_io.c:937-966 | a complete wait returns only when every window handed over has been written |
| `AsyncRing.BlockedStep` | containers/core/containers_io.c:920-947 | while the cache waits for a spare area the writer can always move, only it can, and each move lowers a rank |
| `AsyncRing.BlockedRunEnds` | containers/core/containers_io.c:869-947 | so no run can keep the cache waiting for more steps than that rank |
| `AsyncRing.NeverStuck` | containers/core/containers_io.c:869-966 | in every reachable state short of a joined stop some thread has a step, and it is the cache unless that waits for a spare area or for the thread to leave |
| `AsyncRing.CacheGetsOn` | containers/core/containers_io.c:869-1042 | from any state of the invariant, every schedule long enough passes, within a bound known from the state, through a state in which the cache itself has a step |
| `AsyncRing.AreaIsModulo` | containers/core/containers_io.c:899-921 | a ring pointer after j advances is j mod num_area |
| `AsyncRing.DistinctAreas` | containers/core/containers_io.c:899-921 | fewer than num_area consecutive advances give distinct areas |
| `AsyncRing.StopIsLosslessIff` | containers/core/containers_io.c:1024-1042 | all runs after the stop write everything exactly when the writer is past its quit check or nothing is queued |
| `AsyncRing.LosingStop` | containers/core/containers_io.c:1024-1042 | otherwise there is a run of the stop that ends with a queued buffer unwritten |
| `AsyncRing.StopEnds` | containers/core/containers_io.c:1024-1042 | a stop ends: once quit is set every schedule is shorter than a bound, and it can go on exactly until the thread is joined |
| `AsyncClose.AgreesRun` | containers/core/containers_io.c:600-748 | as the cache uses the ring, it is clean between calls only with nothing left in the ring, or after a failed write with three areas or more |
| `AsyncClose.CloseWritesAll` | containers/core/containers_io.c:231-260 | a close without a failed write leaves all windows handed over in order in the lower stream; with two areas every one is handed to it even after a failed one |
| `AsyncClose.LosingClose` | containers/core/containers_io.c:618-628 | with three areas or more, a run of cache calls from a fresh ring whose close drops a queued buffer after a failed write |
| `AsyncClose.CloseIsCompleteIff` | containers/core/containers_io.c:231-260 | all closed runs hand every posted buffer to the lower stream if and only if there are two areas |
| `AsyncClose.MovesWhenIdle` | containers/core/containers_io.c:661-748 | whenever the cache moves the lower stream, or may do so, nothing is queued or being written and the bytes out are the windows handed over, unless a write has failed |
| `AsyncClose.SameFileAsInTurn` | containers/core/containers_io.c:708-748 | between two such moves, in any interleaving, the bytes put out make of any file, from any offset, what writing the windows handed over in turn makes of it |
| `AsyncClose.CacheNeverStuck` | containers/core/containers_io.c:600-748 | in every state the cache's use of the ring can reach, short of the close, the writer has a step or the cache one that it may take |
| `SeekIndex.EntryRoundTrip` | containers/core/containers_index.c:50-65 | the slot of a logical entry determines the entry, and is in range |
| `SeekIndex.SlotRoundTrip` | containers/core/containers_index.c:50-65 | every slot is the slot of a logical entry: the mapping is a bijection |
| `SeekIndex.EntryWraps` | containers/core/containers_index.c:50-65 | at gap = len the mapping is the identity again |
| `SeekIndex.EntryHalves` | containers/core/containers_index.c:50-65 | entry i at gap + 1 is entry 2i at gap, so halving keeps the even entries without moving data |
| `SeekIndex.RepresentsNext` | containers/core/containers_index.c:107-138 | one more accepted call keeps the down-sampling: skipped, appended, or appended to the even entries at twice the spacing |
| `SeekIndex.HistoryDeterminesIndex` | containers/core/containers_index.c:101-140 | the accepted calls alone determine entries, spacing and count |
| `SeekIndex.NothingFarFromAnEntry` | containers/core/containers_index.c:101-140 | every accepted call lies within 2^max_count of a kept one |
| `SeekIndex.Index.constructor` | containers/core/containers_index.c:67-90 | the length is clamped to 16..4096 and rounded down to a power of two |
| `SeekIndex.Index.Halve` | containers/core/containers_index.c:114-128 | the full index becomes its even entries without a write to the array |
| `SeekIndex.Index.Append` | containers/core/containers_index.c:129-135 | one entry is added behind the others and no live entry changes |
| `SeekIndex.Index.Add` | containers/core/containers_index.c:101-140 | entry i is accepted call i * 2^max_count; calls not later than the last kept time are refused and change nothing |
| `SeekIndex.Index.Locate` | containers/core/containers_index.c:150-176 | the binary search ends at an entry that its neighbours pin down |
| `SeekIndex.Index.Get` | containers/core/containers_index.c:142-191 | it agrees with linear search: first entry at or after, or last at or before, with past exactly when the request exceeds all, and time and offset of one entry |
| `SeekIndex.SearchUnique` | containers/core/containers_index.c:150-176 | those neighbour conditions single out the linear search's answer |
| `IoCache.ReadBack` | containers/core/containers_io.c:285-317 | what was written at an offset is what is read there |
| `IoCache.OverlayParts` | containers/core/containers_io.c:302-317 | a write changes its own range alone and leaves the bytes before and behind it |
| `IoCache.OverlaySplice` | containers/core/containers_io.c:620-650 | copying into a dirty buffer is writing to the file it stands for |
| `IoCache.OverlayJoins` | containers/core/containers_io.c:600-659 | two adjoining writes are one write |
| `IoCache.CachedIo.CacheFlush` | containers/core/containers_io.c:708-748 | the file underneath becomes the file the cache stands for, the buffer is emptied and moved past what it held |
| `IoCache.CachedIo.CacheRefill` | containers/core/containers_io.c:512-531 | an exhausted buffer is replaced by the next bytes of the file, none exactly at its end |
| `IoCache.CachedIo.CacheRefillBypass` | containers/core/containers_io.c:533-552 | large reads past the cache return the file's bytes and keep the position |
| `IoCache.CachedIo.CacheRead` | containers/core/containers_io.c:554-597 | the bytes of the file at the position, short only at its end |
| `IoCache.CachedIo.CacheWrite` | containers/core/containers_io.c:600-659 | the data replaces the file's bytes from the write position on, and for a write that goes past the cache the exact file it leaves instead |
| `IoCache.DirectExact` | containers/core/containers_io.c:630-638 | the two are the same file for all contents if and only if the lower stream is in place and the rest covers the stale dirty bytes |
| `IoCache.CachedIo.BackFill` | containers/core/containers_io.c:674-690 | the partial backward refill extends a clean copy to the start of the memory |
| `IoCache.CachedIo.CacheSeek` | containers/core/containers_io.c:661-706 | within the buffer, just before it or elsewhere: the position is the target, the file is unchanged, failure exactly on a negative target |
| `IoCache.CachedIo.Read` | containers/core/containers_io.c:285-300 | returns the file's bytes at the logical offset |
| `IoCache.CachedIo.Peek` | containers/core/containers_io.c:263-283 | the same without moving |
| `IoCache.CachedIo.Skip` | containers/core/containers_io.c:319-339 | moves by the count, by reading below eight bytes and by seeking above |
| `IoCache.CachedIo.Seek` | containers/core/containers_io.c:341-373 | the exact condition under which offset and buffer stay aligned |
| `IoCache.CachedIo.Write` | containers/core/containers_io.c:302-317 | the write stays aligned exactly when it does not start inside read-ahead, and then, unless it goes past the cache unsafely, the file has the data at the logical offset; the exact file otherwise |
| `IoCache.CachedIo.Flush` | containers/core/containers_io.c:708-748 | afterwards the lower stream holds every write so far |
| `IoCache.CachedIo.Run` | containers/core/containers_io.c:263-373 | a run of reads, peeks, skips, seeks, writes and flushes gives the results and the file of a plain random-access file if every call is regular where it comes, which is decided by the calls and the control state alone |
| `IoCache.CachedIo.RunAndFlush` | containers/core/containers_io.c:263-415 | after such a run and a flush the lower stream holds the fold of the run's writes; read-only runs from a clean stream and write-behind runs from a clean empty or dirty buffer always are such runs |
| `IoCache.CachedIo.RunAny` | containers/core/containers_io.c:263-415 | any run, regular or not, gives the results and the file the calls decide, as long as no write goes past the cache unsafely |
| `CacheControl.ReadOnlyRegular` | containers/core/containers_io.c:554-597 | reading, peeking, skipping and seeking on a clean stream is regular at every call |
| `CacheControl.WriteBehindRegular` | containers/core/containers_io.c:600-706 | so are writes below the memory size with seeks and skips of eight bytes or more between them |
| `CacheControl.Control.StaysInPlace` | containers/core/containers_io.c:600-748 | a flush puts the lower stream in place, and rounds of writing and seeks inside a dirty buffer keep it there, so the next flush moves nothing |
| `CacheFailures.ReadThenWrite` | containers/core/containers_io.c:606-611 | one byte read and one written on a fresh cache, for any file of two bytes or more and any memory: the write lands behind the read-ahead |
| `CacheFailures.FailingSeekThenWrite` | containers/core/containers_io.c:692-698 | on an empty file, a failed seek on a rewound dirty buffer moves the next write behind it |
| `CacheFailures.FlushThenWrite` | containers/core/containers_io.c:411-415 | so does a flush |
| `CacheFailures.RunThenWrite` | containers/core/containers_io.c:600-659 | after any run without unsafe writes, one more write of any kind leaves a file that the calls and the stale bytes decide |
| `CacheFailures.StaleThenDirectWrite` | containers/core/containers_io.c:632-638 | on an empty file, a memory-sized write over a rewound dirty buffer brings its old byte back behind it |
| `CacheFailures.BackFillThenDirectWrite` | containers/core/containers_io.c:674-690 | on a file as long as the memory, a memory-sized write after a backward refill read to its end goes to the old place |
| `Bytestream.Stream.Push` | containers/core/containers_bytestream.h:55-63 | appends the packet's bytes to the unread bytes |
| `Bytestream.Stream.Pop` | containers/core/containers_bytestream.h:65-79 | gives back a packet already read, if any, without changing what is unread |
| `Bytestream.Stream.Get` | containers/core/containers_bytestream.h:181-209 | takes exactly the first n unread bytes, or fails and changes nothing |
| `Bytestream.Stream.Skip` | containers/core/containers_bytestream.h:154-179 | drops exactly the first n unread bytes, or fails and changes nothing |
| `Bytestream.Stream.Peek` | containers/core/containers_bytestream.h:211-235 | the first n unread bytes |
| `Bytestream.Stream.PeekAt` | containers/core/containers_bytestream.h:237-273 | n unread bytes from a distance on |
| `Bytestream.Stream.SkipByte` | containers/core/containers_bytestream.h:275-290 | drops one byte or reports the end |
| `Bytestream.Stream.SkipPacket` | containers/core/containers_bytestream.h:98-110 | drops the rest of the current packet; the counter drifts by exactly the part already read |
| `Bytestream.Stream.CountedIsUnread` | containers/core/containers_bytestream.h:149-152 | bytes minus offset is the number of unread bytes plus the drift |
| `Bytestream.DriftAfterSkip` | containers/core/containers_bytestream.h:98-110 | one byte of a packet of two read and the packet skipped: nothing is unread, one byte is counted |
| `Bytestream.Stream.FindStartcode` | containers/core/containers_bytestream.h:329-387 | the least occurrence from the search offset across any packet boundaries, or a position before which none starts |
| `Bytestream.Stream.Scan` | containers/core/containers_bytestream.h:336-384 | the backtracking scan terminates and rules out every earlier candidate |
| `Bytestream.ResumeIsFresh` | containers/core/containers_bytestream.h:329-387 | after more pushes, resuming at that position finds what a fresh search finds |
| `Bytestream.Stream.Release` | containers/core/packetizers.c:152-200 | the packet handed back is no longer linked; unread bytes and position are unchanged, forced or not |
| `Bytestream.Stream.SwapIn` | containers/core/packetizers.c:165-195 | the copy takes the packet's place in the list |
| `Avc1Packetizer.AnnexBOfNals` | containers/h264/avc1_packetizer.c:184-256 | for any NAL units and length size, the output form of their length-prefixed frame is each behind a start code |
| `Avc1Packetizer.StartCodedAt` | containers/h264/avc1_packetizer.c:70-70 | in the output form each NAL unit stands behind the bytes 0, 0, 0, 1 |
| `Avc1Packetizer.LengthPrefixedAt` | containers/h264/avc1_packetizer.c:118-136 | in a frame each stands behind its length, most significant byte first |
| `Basics.BigEndianByte` | containers/h264/avc1_packetizer.c:124-130 | which byte of a number is written where in that order |
| `Avc1Packetizer.FormSame` | containers/h264/avc1_packetizer.c:184-256 | only the frame's bytes matter, not the packets they lie in |
| `Avc1Packetizer.Packetizer.FrameOfNals` | containers/h264/avc1_packetizer.c:90-260 | a frame at hand whose bytes are length-prefixed NAL units, however cut into packets, is due as those units behind start codes |
| `Avc1Packetizer.Packetizer.FindFrame` | containers/h264/avc1_packetizer.c:102-112 | a frame is at hand exactly when its end packet is |
| `Avc1Packetizer.Packetizer.MeasureFrame` | containers/h264/avc1_packetizer.c:114-143 | the first pass over the length fields gives the size of the output form |
| `Avc1Packetizer.Packetizer.StartNal` | containers/h264/avc1_packetizer.c:184-211 | a length field is taken and start code and NAL unit become due |
| `Avc1Packetizer.Packetizer.EmitPieces` | containers/h264/avc1_packetizer.c:184-256 | one call emits a prefix of what is due, as much as the buffer takes |
| `Avc1Packetizer.Packetizer.Packetize` | containers/h264/avc1_packetizer.c:90-260 | nothing without a whole frame; else the size left, or the next bytes of the frame's Annex B form with exact start and end flags |
| `Avc1Packetizer.Packetizer.EmitFrame` | containers/h264/avc1_packetizer.c:90-260 | through any sequence of non-empty buffers exactly as much of the Annex B form comes out as they take; the start flag is on exactly the first piece, the end flag on exactly the completing one, and all before it are full |
| `Avc1Packetizer.Packetizer.EmitNals` | containers/h264/avc1_packetizer.c:90-260 | drained through buffers of any sizes, the start-coded NAL units come out, whole exactly when there is room, with exact start and end flags |
| `Avc1Packetizer.Packetizer.Push` | containers/core/packetizers.c:141-150 | more input changes nothing that is still to come out of the frame at hand |
| `Avc1Packetizer.Packetizer.Pop` | containers/core/packetizers.c:152-162 | neither does giving back packets |
| `MpgaHeader.FrameSizeBounds` | containers/mpga/mpga_common.h:35-103 | a decoded frame size is 24 to 2881 bytes, so a frame holds its header |
| `MpgaHeader.HeaderMeans` | containers/mpga/mpga_common.h:35-103 | for all fields, none reserved, reading their bits gives version, layer, channels, samples and sample rate, the bit rate in closed form, and a frame as long as its samples last at that rate, to the slot |
| `MpgaHeader.OnlyEncoded` | containers/mpga/mpga_common.h:52-66 | only headers made of such fields are read |
| `MpgaHeader.RateIsKilobits` | containers/mpga/mpga_common.h:40-46 | the table entries by closed forms: even steps, or four steps to the octave |
| `MpgaHeader.RatesRise` | containers/mpga/mpga_common.h:40-46 | each row rises strictly |
| `MpgaHeader.UsualFrame` | containers/mpga/mpga_common.h:92-100 | at 128 kbit/s and 44.1 kHz a frame has 417 bytes, or 418 with padding |
| `MpgaPacketizer.GoodFrameMeans` | containers/mpga/mpga_packetizer.c:133-165 | every completed frame starts with the code of its fields and is as long as they say |
| `MpgaPacketizer.RefutedForGood` | containers/mpga/mpga_packetizer.c:112-198 | a position ruled out as a frame start stays ruled out whatever follows |
| `MpgaPacketizer.JustifiedNext` | containers/mpga/mpga_packetizer.c:112-250 | each further skipped byte or frame is backed by the input it stands for |
| `MpgaPacketizer.Packetizer.FindSync` | containers/mpga/mpga_packetizer.c:112-131 | only bytes that start no sync word are skipped, up to one or the end |
| `MpgaPacketizer.Packetizer.DecodeHeader` | containers/mpga/mpga_packetizer.c:133-165 | sync is kept exactly on a header of the stream's version and layer with a size |
| `MpgaPacketizer.Packetizer.CheckNext` | containers/mpga/mpga_packetizer.c:166-198 | the frame is committed to exactly on a matching next header, or when told that no more data comes |
| `MpgaPacketizer.Packetizer.StartFrame` | containers/mpga/mpga_packetizer.c:199-216 | the stream takes on the frame's version and layer |
| `MpgaPacketizer.Packetizer.HandOut` | containers/mpga/mpga_packetizer.c:217-250 | the next bytes of the frame, and a completed frame exactly when its last byte leaves |
| `MpgaPacketizer.Packetizer.CompleteFrame` | containers/mpga/mpga_packetizer.c:245-249 | a completed frame decodes to its own length and the stream's version and layer |
| `MpgaPacketizer.Packetizer.Advance` | containers/mpga/mpga_packetizer.c:112-216 | each turn uses up input or moves on, so a call terminates |
| `MpgaPacketizer.Packetizer.Packetize` | containers/mpga/mpga_packetizer.c:99-257 | for any chunking and buffers the input is exactly the completed frames and the skipped bytes in order, the part handed out and the unread rest; every skipped byte was ruled out as a frame start, and without the flush flag every frame is followed by a header of its kind |
| `MpgaPacketizer.Packetizer.Push` | containers/core/packetizers.c:141-150 | more input keeps that account |
| `MpgaPacketizer.StallWithRestAtHand` | containers/mpga/mpga_packetizer.c:217-228 | a lone 104-byte frame whose first byte is handed out gets stuck with the other 103 at hand |
| `UriText.EscapeUndone` | containers/core/containers_uri.c:165-229 | unescaping gives back what was escaped, whatever follows, for any table that escapes '%' |
| `UriText.FirstInEscaped` | containers/core/containers_uri.c:165-190 | escaping keeps the first unreserved delimiter where it separates the same two parts |
| `UriText.QueriesInverse` | containers/core/containers_uri.c:380-477 | joined queries parse back exactly when all names are non-empty without '=' and no name or value holds a separator |
| `UriChars.SchemeEscapes` | containers/core/containers_uri.c:59-63 | the exact characters a scheme escapes |
| `UriChars.UserinfoEscapes` | containers/core/containers_uri.c:65-69 | those user information does |
| `UriChars.HostEscapes` | containers/core/containers_uri.c:71-75 | those a host does |
| `UriChars.PortEscapes` | containers/core/containers_uri.c:77-81 | those a port does |
| `UriChars.PathEscapes` | containers/core/containers_uri.c:83-87 | those a path does |
| `UriChars.QueryEscapes` | containers/core/containers_uri.c:89-93 | those a query does |
| `UriChars.FragmentEscapes` | containers/core/containers_uri.c:95-99 | those a fragment does |
| `UriChars.TextIsClean` | containers/core/containers_uri.c:528-596 | with a scheme, whatever bytes the parts hold, built text is of printable characters fit for a URI, and each percent sign starts an escape of two upper-case digits |
| `UriChars.UsualText` | containers/core/containers_uri.c:528-596 | parts of unreserved characters are joined by the usual marks in the usual order |
| `UriChars.HexDigits` | containers/core/containers_uri.c:113-140 | digits are written in upper case and read in either |
| `UriChars.LetterCase` | containers/core/containers_uri.c:275-285 | letters alone have another case |
| `UriChars.SeparatorEnds` | containers/core/containers_uri.c:426-477 | '&' and ';' both end a query |
| `UriChars.PartsPresent` | containers/core/containers_uri.c:761-849 | for any text, exactly when it has a scheme, a host and a fragment |
| `UriRoundTrip.HostInverse` | containers/core/containers_uri.c:325-377 | host and port parse back exactly when the host is in lower case and bracketed to its end or free of ':' |
| `UriRoundTrip.PathTailParsed` | containers/core/containers_uri.c:811-840 | path, queries and fragment parse back from the tail of built text; an empty path is lost |
| `UriRoundTrip.AuthorityParsed` | containers/core/containers_uri.c:325-377 | user information, host and port are cut out of built text at the right places |
| `UriRoundTrip.SchemeParsed` | containers/core/containers_uri.c:773-795 | the scheme is cut off and never mistaken for a drive letter |
| `UriRoundTrip.ParsedPlaced` | containers/core/containers_uri.c:761-849 | whatever was parsed, user information and port come with a host, a path after a host starts with '/', scheme and host are in lower case |
| `UriRoundTrip.SchemeInverse` | containers/core/containers_uri.c:480-596 | the half with a scheme: exactly the normal parts come back |
| `UriRoundTrip.BarePath` | containers/core/containers_uri.c:761-849 | text without a scheme is a path that means itself exactly when it has a drive letter or holds no mark of another part and no escape |
| `UriRoundTrip.BuildThenParse` | containers/core/containers_uri.c:480-596 | the text built of any parts means those parts if and only if they are normal or, without a scheme, a plain path alone or nothing |
| `UriRoundTrip.TextIsCString` | containers/core/containers_uri.c:143-189 | that text holds no zero byte, so it can be parsed |
| `UriRebuilt.BuildAndParse` | containers/core/containers_uri.c:761-864 | building into a buffer and parsing what it then holds gives an equal object exactly when the parts are of the kind that comes back; it is done exactly when the text fits |
| `Uri.EscapedLength` | containers/core/containers_uri.c:143-162 | the length of the escaped text |
| `Uri.EscapeInto` | containers/core/containers_uri.c:165-189 | the escaped text goes into the buffer behind what was there |
| `Uri.UnescapedLength` | containers/core/containers_uri.c:192-208 | the length of the unescaped text |
| `Uri.UnescapeInto` | containers/core/containers_uri.c:211-229 | the buffer of that length is filled exactly and terminated |
| `Uri.CreateUnescaped` | containers/core/containers_uri.c:232-241 | the C string of the unescaped bytes |
| `Uri.ToLower` | containers/core/containers_uri.c:275-285 | ASCII upper-case letters become lower-case ones |
| `Uri.FindDelimiter` | containers/core/containers_uri.c:288-301 | the first delimiter or the end |
| `Uri.Uri.ParseAuthorityAt` | containers/core/containers_uri.c:325-377 | user information, host and port of an authority |
| `Uri.Uri.StoreQuery` | containers/core/containers_uri.c:380-423 | a named query is stored, a nameless one dropped |
| `Uri.Uri.ParseQueryAt` | containers/core/containers_uri.c:426-477 | the queries between separators, in order |
| `Uri.Uri.Parse` | containers/core/containers_uri.c:761-849 | the object holds the parts of the text, whatever it held before |
| `Uri.Uri.CalculateLength` | containers/core/containers_uri.c:480-525 | the length of the text that would be built |
| `Uri.Uri.BuildInto` | containers/core/containers_uri.c:528-596 | the text and its terminating zero |
| `Uri.Uri.Build` | containers/core/containers_uri.c:852-864 | returns the text's length and writes it exactly when it fits |
| `Bits.NumberSplit` | containers/core/containers_bits.c:302-341 | reading a + b bits is reading a and then b bits, joined |
| `Bits.ByteChunk` | containers/core/containers_bits.c:315-337 | the shifts and masks pick the right bits of a byte |
| `Bits.AlignedIsBigEndian` | containers/core/containers_bits.c:302-341 | from the start of a byte on, bits read as the bytes in big-endian order |
| `Bits.BitStream.Skip` | containers/core/containers_bits.c:241-259 | moves by exactly n bits or invalidates; the exact effect of skipping nothing on an invalid stream |
| `Bits.BitStream.ReadU32` | containers/core/containers_bits.c:302-341 | the next n bits as a number from any bit offset, or invalid and zero |
| `Bits.BitStream.LeadingZeroBits` | containers/core/containers_bits.c:109-163 | the zeros and marker of a complete code; the exact outcome of a truncated one |
| `Bits.BitStream.SkipExpGolomb` | containers/core/containers_bits.c:344-347 | stops where reading the code would stop |
| `Bits.HoldsCode` | containers/core/containers_bits.c:125-163 | when the bits at a position are the code of a value |
| `Bits.CodeValue` | containers/core/containers_bits.c:350-373 | a complete prefix is the code of exactly one value |
| `Bits.FitsWord` | containers/core/containers_bits.c:356-370 | which codes have a 32-bit value, 0xFFFFFFFF included |
| `Bits.CodeSpells` | containers/core/containers_bits.c:350-373 | a code is an odd number of bits that spell its value plus one, the middle one the first that is set |
| `Bits.PrefixFree` | containers/core/containers_bits.c:350-373 | no code is the start of another |
| `Bits.BitStream.ReadU32ExpGolomb` | containers/core/containers_bits.c:350-373 | a 32-bit value comes back exactly when its code stands there, using 2*floor(log2(v+1))+1 bits, and the exact outcome and value for every truncated code |
| `Bits.TruncatedCodeAccepted` | containers/core/containers_bits.c:109-163 | a lone zero byte is read as 15 |
| `Bits.InvalidRevived` | containers/core/containers_bits.c:241-259 | a stream invalid after reading past its end is valid again after skipping nothing |
| `Bits.SignedRoundTrip` | containers/core/containers_bits.c:376-391 | the mapping between signed values and code numbers is a bijection |
| `Bits.SignsAlternate` | containers/core/containers_bits.c:376-391 | code numbers 1, 2, 3, 4, ... are 1, -1, 2, -2, ... |
| `Bits.MagnitudesRise` | containers/core/containers_bits.c:376-391 | magnitudes never fall as code numbers rise |
| `Bits.BitStream.ReadS32ExpGolomb` | containers/core/containers_bits.c:376-391 | the same for signed values below 2^31 in magnitude |
| `MediaTime.SetReports` | containers/core/containers_time.h:57-87 | a clock with a rate reports the time it is set to, whatever it had counted; an unknown time changes nothing |
| `MediaTime.RateSet` | containers/core/containers_time.h:65-77 | a new rate of either kind is taken over and leaves the reported time as it was |
| `MediaTime.MediaTime.SetRateTo` | containers/core/containers_time.h:65-77 | a new rate folds the remainder into the time |
| `MediaTime.MediaTime.AddSamples` | containers/core/containers_time.h:89-101 | the wrapping arithmetic of one call and the time it reports |
| `MediaTime.NoDrift` | containers/core/containers_time.h:57-101 | however samples are split into calls that fit, the time is t0 + floor(total * base / rate) |
| `MediaTime.MediaTime.AddEach` | containers/core/containers_time.h:89-101 | a run of such calls on the clock reports exactly that |
| `MediaTime.AddExact` | containers/core/containers_time.h:89-101 | a call that fits adds exactly the time of its samples |
| `MediaTime.ExactIffFits` | containers/core/containers_time.h:89-101 | and only a call that fits does |
| `MediaTime.AddGains` | containers/core/containers_time.h:89-101 | at any rate, a call that fits adds the exact time of its samples and the part of a sample cut off when whole seconds are turned back into samples |
| `MediaTime.ExactIffWhole` | containers/core/containers_time.h:89-101 | so it is exact exactly when those seconds are a whole number of samples |
| `MediaTime.NeverSlow` | containers/core/containers_time.h:89-101 | over any run the clock is never behind, and ahead by less than a sample for each call |
| `MediaTime.FractionRunsFast` | containers/core/containers_time.h:89-101 | thirty frames at 30000/1001, one at a time, take 1.001 seconds and are reported as 1.033 |
| `MediaTime.LongCallWraps` | containers/core/containers_time.h:89-101 | at the clock's interface, 4295 seconds in one call, in microseconds, come out as 32704 |
| `MediaTime.SetRateRounds` | containers/core/containers_time.h:65-77 | a change of rate loses less than one unit |
| `MediaTime.BoundedDrift` | containers/core/containers_time.h:57-101 | after k rate settings the reported time is at most the exact time and less than k + 1 units below it |
| `Basics.LittleEndianByte` | containers/core/containers_io_helpers.h:508-516 | which byte of a number is written where |
| `AviLayout.ChunkName` | containers/avi/avi_writer.c:118-155 | a chunk is named by its track's two digits and 'dc' for video or 'wb' for audio |
| `AviLayout.ChunkAt` | containers/avi/avi_writer.c:771-937 | each chunk lies where the sizes before it add up to |
| `AviLayout.OffsetExact` | containers/avi/avi_writer.c:566-617 | the running offset of the index is the chunk's real place when all chunks before are below 2 GiB |
| `AviLayout.IndexExactIff` | containers/avi/avi_writer.c:566-617 | all index entries are exact if and only if every chunk is below 2 GiB |
| `AviLayout.IndexFindsChunk` | containers/avi/avi_writer.c:566-617 | at an exact entry's offset from the 'movi' tag the file holds that chunk's id, size and data |
| `AviLayout.IndexEntryInFile` | containers/avi/avi_writer.c:583-606 | where the file holds entry k, behind the chunks and the tracks' own indexes |
| `AviIndexes.EntrySays` | containers/avi/avi_writer.c:594-608 | what the sixteen bytes of an index entry read as: id, key flag, offset, size |
| `AviIndexes.IndexFound` | containers/avi/avi_writer.c:965-985 | the stated size of the data list leads to 'idx1', whose size is that of its entries |
| `AviIndexes.IndexReads` | containers/avi/avi_reader.c:567-630 | reading a closed file through the bytes of its common index gives each chunk's id, key flag and data in order and nothing more, when all are below 2 GiB |
| `AviIndexes.IndexLeadsIff` | containers/avi/avi_writer.c:566-617 | and only then |
| `AviIndexes.IxReads` | containers/avi/avi_reader.c:690-760 | what the bytes of a track's own index read as, and exactly when an entry leads to its chunk |
| `AviIndexes.IxMisleads` | containers/avi/avi_writer.c:620-679 | never for the first chunk of a track; with one track for the second alone |
| `AviLayout.CountsAddUp` | containers/avi/avi_writer.c:158-167 | the tracks' chunk counts add up to the number of chunks |
| `AviLayout.IxInFile` | containers/avi/avi_writer.c:620-679 | where the file holds the 'ixNN' chunk of a track |
| `AviLayout.IxAllPassed` | containers/avi/avi_reader.c:449-514 | the walk passes over the 'ixNN' chunks |
| `AviLayout.WalkStep` | containers/avi/avi_reader.c:449-514 | the walk reads one written chunk and lands on the next |
| `AviLayout.IndexEndsWalk` | containers/avi/avi_reader.c:449-514 | the index chunk is passed over and ends the walk |
| `AviLayout.WalkRecovers` | containers/avi/avi_reader.c:449-520 | walking a finished file recovers every track number and its data in order |
| `AviWalk.WalkItems` | containers/avi/avi_reader.c:449-514 | for any file of data chunks of all four kinds, 'rec ' and 'movi' lists, 'AVIX' parts, other lists and other chunks, the walk finds the data chunks in order and nothing else |
| `AviWalk.GroupingIsInvisible` | containers/avi/avi_reader.c:449-514 | so the same chunks out of their groups give the same walk |
| `AviWriter.TakenAdds` | containers/avi/avi_writer.c:771-937 | one packet adds its data to its track and to no other |
| `AviWriter.RunKeepsData` | containers/avi/avi_writer.c:771-960 | after any run, and after closing, each track's chunks hold its packets' data in order |
| `AviWriter.FramesBecomeChunks` | containers/avi/avi_writer.c:830-931 | frames written one after the other become one chunk each, in whatever fragments they come, marked exactly for key frames |
| `AviWriter.AudioIsCut` | containers/avi/avi_writer.c:892-926 | audio in blocks without frame ends is cut behind the packet that takes a chunk over 16384 bytes |
| `AviWriter.KeysAreEnds` | containers/avi/avi_writer.c:771-937 | after any run and after the close there is a key chunk for each packet that ends a key frame, and no other |
| `AviWriter.NoteMeans` | containers/avi/avi_writer.c:197-233 | what reading a noted entry back gives, for any size |
| `AviWriter.EstimateMissesHead` | containers/avi/avi_writer.c:727-764 | before a first fragment the estimated file size is eight bytes below the size a close would then reach |
| `AviWriter.RefusedMeans` | containers/avi/avi_writer.c:727-764 | which packets are refused, by the size the file would have if it were closed after them |
| `AviWriter.FileTags` | containers/avi/avi_writer.c:787-796 | where the tags of a closed file stand, spelled out |
| `AviWriter.AviWriter.FinishDataChunk` | containers/avi/avi_writer.c:169-191 | the size field is rewritten in place and the chunk padded to an even position |
| `AviWriter.AviWriter.CompleteChunk` | containers/avi/avi_writer.c:903-931 | the chunk is finished in the file and noted |
| `AviWriter.AviWriter.WriteFragment` | containers/avi/avi_writer.c:830-931 | a fragment starts, extends or ends a chunk |
| `AviWriter.AviWriter.AddDone` | containers/avi/avi_writer.c:1069-1096 | the headers go out once, before any packet or with the first |
| `AviWriter.AviWriter.Write` | containers/avi/avi_writer.c:771-937 | a packet is refused exactly by the size check on chunks, headers and the packet; otherwise it joins the file in order; a switch of track ends the unfinished chunk either way |
| `AviWriter.AviWriter.ReadIndexEntry` | containers/avi/avi_writer.c:216-233 | a note is read back unless the file of notes has ended |
| `AviWriter.AviWriter.WriteLegacyIndex` | containers/avi/avi_writer.c:566-617 | replaying the notes writes the index of exactly the chunks written |
| `AviWriter.AviWriter.WriteStandardIndex` | containers/avi/avi_writer.c:620-679 | replaying the notes of one track writes its own index, whose size field counts its chunks |
| `AviWriter.AviWriter.Close` | containers/avi/avi_writer.c:940-1010 | the finished file with both kinds of index, the rewritten header list, the list size and the file size, which is right if and only if the file is below 4 GiB; its walk gives the chunks back, and so does looking each up in its common index, if and only if all chunks are below 2 GiB; without a packet the exact bytes left, which begin as a file exactly when the headers were written |
| `AviRoundTrip.WritePackets` | containers/avi/avi_writer.c:771-937 | packets written until the first one that the size check refuses, which the packets, tracks and header length decide: the chunks are those of the packets before it |
| `AviRoundTrip.RoomForAll` | containers/avi/avi_writer.c:727-764 | no packet is refused when the data with 33 bytes for each packet, 32 for each track and the headers stay below the limit |
| `AviReader.AviReader.FindNextDataChunk` | containers/avi/avi_reader.c:449-514 | the next data chunk, through lists and past other chunks |
| `AviReader.AviReader.SkipChunkData` | containers/avi/avi_reader.c:60-70 | past the data and to an even position |
| `AviReader.AviReader.ReadChunks` | containers/avi/avi_reader.c:449-520 | repeated, the whole walk |
| `AviRoundTrip.WriteAndRead` | containers/avi/avi_reader.c:449-520 | writing packets, closing and walking the file gives exactly the chunks of the packets before the first refused one, all of them if there is room, and so every track its data in order |
| `AviFailures.LargeFrameMisindexed` | containers/avi/avi_writer.c:197-214 | a key frame of two fragments of 1 GiB, behind any headers, is indexed as an empty frame that is none |
| `AviFailures.AcceptedTooLarge` | containers/avi/avi_writer.c:727-764 | three frames below 2 GiB, behind any headers, pass the size check and make a file of 4 GiB and six bytes, whose size field is wrong |
| `AviFailures.NothingWritten` | containers/avi/avi_writer.c:940-1010 | closed before the headers are written, the file does not begin with 'RIFF' |
| `AsfLayout.TypeSpecificLength` | containers/asf/asf_writer.c:289-374 | the type-specific length field is the number of bytes that follow the fields |
| `AsfLayout.CutFirst` | containers/asf/asf_writer.c:200-206 | a size field of 24 plus the body length delimits the object exactly |
| `AsfLayout.HeaderExtCut` | containers/asf/asf_writer.c:248-268 | the header extension's size field is the length of its content, which cuts into one object for each track |
| `AsfLayout.HeaderCut` | containers/asf/asf_writer.c:223-246 | the header's body cuts into file properties, header extension and one stream properties object for each track |
| `AsfLayout.FileCut` | containers/asf/asf_writer.c:421-431 | the file cuts into header and data object |
| `AsfReading.ObjectIds` | containers/asf/asf_writer.c:114-121 | the objects' identifiers, byte by byte |
| `AsfReading.StreamPropsRead` | containers/asf/asf_writer.c:289-374 | reading a stream properties object by byte position gives its track back, with type, format and extra data, and its number |
| `AsfReading.FileRead` | containers/asf/asf_writer.c:223-431 | reading the whole header so gives the configuration back: packet size, all tracks in order, and their numbers in the header extension |
| `AsfLayout.TrackFree` | containers/asf/asf_writer.c:223-268 | the dry run's effect on the track counter changes no body |
| `AsfWriter.AsfWriter.Enable` | containers/core/containers_writer_utils.c:97-109 | the first holder swaps in the null output and starts it at zero, later ones only count |
| `AsfWriter.AsfWriter.Disable` | containers/core/containers_writer_utils.c:112-127 | the last holder gives the real output back |
| `AsfWriter.AsfWriter.DryRun` | containers/asf/asf_writer.c:181-190 | a dry run gives the size of the body and leaves the real output and the switch as they were |
| `AsfWriter.AsfWriter.WriteObject` | containers/asf/asf_writer.c:163-221 | in the real pass the object with all true sizes is appended; in a dry run it is only counted |
| `AsfWriter.AsfWriter.WriteEach` | containers/asf/asf_writer.c:235-241 | one object for each track in order |
| `AsfWriter.AsfWriter.WriteHeader` | containers/asf/asf_writer.c:421-431 | the bytes that reach the output, cut at their size fields, are header and data object, and reading their fields gives the configuration back when it fits them |

## Left out

- Lower i/o modules (files, network, packet files), loading of modules, logging, statistics and clocks: the lower stream is a byte sequence with a position whose reads are short only at its end and whose writes complete.
- Memory-allocation failure and the status fields that record i/o errors.
- The explicit cache areas of `vc_container_io_cache`, streams that cannot seek, and the asynchronous path inside the class of the cache, which `AsyncRing` and `AsyncClose` model on their own; of its offsets `AsyncClose` keeps whether the lower stream is in place.
- `IoCache.CachedIo.Run`: what a run gives from its first irregular call on; the contracts of the single calls say it.
- `IoCache.CachedIo.Write`: counts of 2^31 and more, which the source's `int32_t` result cannot hold.
- `AsyncRing`: a short write only sets the error flag, as in the source; the order of bytes is stated for runs without one.
- `Avc1Packetizer.Packetizer.MeasureFrame`: frames whose NAL units do not fill them; the source's clamp of a length field compares 32-bit sums that can wrap.
- `Avc1Packetizer.Packetizer.StartNal`: NAL units longer than what is left of the frame, and empty ones.
- `Avc1Packetizer.Packetizer.Packetize`: assumes a frame at hand of that kind that ends in a non-empty packet; the skip flag, time stamps and the codec configuration are not modelled.
- `Avc1Packetizer.Packetizer.EmitFrame`: the same frames.
- `MpgaPacketizer.Packetizer.Packetize`: time stamps, the reset call and ADTS framing, which the packetizer never uses.
- `SeekIndex.Index.Add`: the wrap of `1 << max_count` after 2^31 accepted calls per entry, and file offsets, which are only stored.
- `Uri.Uri.Parse`: file-name extensions, merging of relative references and removal of dot segments.
- `Bits.BitStream.ReadU32`: streams of 512 MiB and more, whose bit count leaves 32 bits; copying of bytes, shortening and resetting of a stream.
- `MediaTime.MediaTime.AddSamples`: the 64-bit range of times; with a denominator above one the laws are about calls that fit 32 bits.
- `AviWriter.AviWriter.Write`: packets whose frame size is declared in advance, empty packets, packets of 2 GiB and more (which `vc_container_write` refuses for files), outputs that cannot seek, and the per-track byte counts and largest sizes that only go into the headers.
- `AviWriter.AviWriter.Close`: the content of the header list, which is a parameter of the same length both times it is written; `unsigned long` has 32 bits.
- `AviIndexes.IxReads`: chunks of 2 GiB less one byte and more, whose noted sizes wrap.
- `AviReader.AviReader.ReadChunks`: the reader's per-track state, indexes and seeking.
- `AsfWriter.AsfWriter.WriteObject`: the codec tables (codec numbers are part of the track) and the index objects, which the source leaves empty.
- The indexes and headers as the AVI reader reads them, the ASF and FLV readers, metadata and `containers_list.c`.
