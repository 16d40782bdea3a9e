/** The ASF header writer of asf_writer.c. Every object is written twice: once to a null output to
    learn its size, with the outputs swapped by the counted switch of containers_writer_utils.c,
    and then for real. */
module AsfWriter {
  import opened Basics
  import opened AsfLayout
  import AsfReading

  /** An output, which keeps its bytes unless it is null. */
  class Io {
    const isNull: bool
    var data: Bytes
    var offset: nat

    constructor (isNull: bool)
      ensures this.isNull == isNull && data == [] && offset == 0
    {
      this.isNull, data, offset := isNull, [], 0;
    }

    method Write(b: Bytes)
      modifies this
      ensures offset == old(offset) + |b| && data == (if isNull then old(data) else old(data) + b)
    {
      if !isNull { data := data + b; }
      offset := offset + |b|;
    }

    method SeekStart()
      requires isNull
      modifies `offset
      ensures offset == 0
    {
      offset := 0;
    }
  }

  class AsfWriter {
    const config: Config
    const out: Io            // the real output and the null one, wherever they are now
    const nowhere: Io
    var io: Io               // the output in use
    var extra: Io            // the one set aside
    var refcount: nat
    var objectLevel: nat
    var currentTrack: nat

    /** The real output is in use exactly when nobody holds the switch. */
    ghost predicate Valid()
      reads this
    {
      && out != nowhere && !out.isNull && nowhere.isNull
      && (if refcount == 0 then io == out && extra == nowhere else io == nowhere && extra == out)
    }

    constructor (config: Config, out: Io, nowhere: Io)
      requires out != nowhere && !out.isNull && nowhere.isNull
      ensures Valid() && refcount == 0 && this.config == config && this.out == out && this.nowhere == nowhere
    {
      this.config, this.out, this.nowhere := config, out, nowhere;
      io, extra := out, nowhere;
      refcount, objectLevel, currentTrack := 0, 0, 0;
    }

    /** vc_container_writer_extraio_enable: the first holder starts an empty dry run. */
    method Enable() returns (before: nat)
      requires Valid()
      modifies `io, `extra, `refcount, nowhere`offset
      ensures Valid() && refcount == old(refcount) + 1 && before == old(refcount)
      ensures nowhere.offset == (if before == 0 then 0 else old(nowhere.offset))
    {
      if refcount == 0 {
        extra.SeekStart();
        io, extra := extra, io;
      }
      before := refcount;
      refcount := refcount + 1;
    }

    /** vc_container_writer_extraio_disable: the last holder gives the real output back. */
    method Disable() returns (left: nat)
      requires Valid()
      modifies `io, `extra, `refcount
      ensures Valid() && left == refcount == (if old(refcount) == 0 then 0 else old(refcount) - 1)
    {
      if refcount > 0 {
        refcount := refcount - 1;
        if refcount == 0 { io, extra := extra, io; }
      }
      left := refcount;
    }

    method Put(b: Bytes)
      requires Valid()
      modifies out, nowhere
      ensures Wrote(old(out.data), old(nowhere.offset), b)
    {
      io.Write(b);
    }

    /** Since the given moment exactly b has gone to the output in use: appended to the real
        output, or counted by the null one while the real one stays as it was. */
    ghost predicate Wrote(data: Bytes, offset: nat, b: Bytes)
      reads this, out, nowhere
    {
      if refcount == 0 then out.data == data + b
      else out.data == data && nowhere.offset == offset + |b|
    }

    lemma WroteMore(data: Bytes, offset: nat, a: Bytes, mid: Bytes, at: nat, b: Bytes)
      requires Wrote(mid, at, b) && (if refcount == 0 then mid == data + a else mid == data && at == offset + |a|)
      ensures Wrote(data, offset, a + b)
    {
      assert data + a + b == data + (a + b);
    }

    /** The track counter after an object of that type. */
    function After(o: ObjectType): nat
      reads this
    {
      if Rank(o) > 0 then |config.tracks| else currentTrack
    }

    /** A dry run tells the size of an object's body. Inside another dry run there is no need. */
    method DryRun(o: ObjectType) returns (size: nat)
      requires Valid() && (o == StreamProps ==> currentTrack < |config.tracks|)
      modifies this, out, nowhere
      ensures Valid() && refcount == old(refcount) && objectLevel == old(objectLevel) && out.data == old(out.data)
      ensures refcount > 0 ==> nowhere.offset == old(nowhere.offset) && currentTrack == old(currentTrack) && size == 0
      ensures refcount == 0 ==> size == |Body(o, config, old(currentTrack))| && currentTrack == old(After(o))
      decreases Rank(o), 3, 0
    {
      hide Body;
      size := 0;
      var before := Enable();
      if before == 0 {
        WriteBody(o);
        size := io.offset;
      }
      var _ := Disable();
    }

    /** What stands in front of a body of that size. */
    static function Head(o: ObjectType, size: nat): Bytes {
      if o == HeaderExtInternal then LittleEndian(size, 4) else ObjectGuid(o) + LittleEndian(size + OBJECT_HEADER_SIZE, 8)
    }

    method WriteHead(o: ObjectType, size: nat)
      requires Valid()
      modifies out, nowhere
      ensures Wrote(old(out.data), old(nowhere.offset), Head(o, size))
    {
      hide LittleEndian, ObjectGuid;
      ghost var data0, offset0 := out.data, nowhere.offset;
      if o == HeaderExtInternal {
        Put(LittleEndian(size, 4));
      } else {
        Put(ObjectGuid(o));
        ghost var data1, offset1 := out.data, nowhere.offset;
        Put(LittleEndian(size + OBJECT_HEADER_SIZE, 8));
        WroteMore(data0, offset0, ObjectGuid(o), data1, offset1, LittleEndian(size + OBJECT_HEADER_SIZE, 8));
      }
    }

    /** asf_write_object: the object goes to the output in use. In the real pass it and every
        object inside it state their true sizes. */
    method WriteObject(o: ObjectType)
      requires Valid() && (o == StreamProps ==> currentTrack < |config.tracks|)
      modifies this, out, nowhere
      ensures Valid() && refcount == old(refcount) && objectLevel == old(objectLevel) && currentTrack == old(After(o))
      ensures Wrote(old(out.data), old(nowhere.offset), Object(o, config, old(currentTrack)))
      decreases Rank(o), 4, 0
    {
      hide Body, LittleEndian, ObjectGuid;
      ghost var data0, offset0, track0 := out.data, nowhere.offset, currentTrack;
      var size := DryRun(o);
      if Rank(o) > 0 { TrackFree(o, config, track0, currentTrack); }
      assert out.data == data0 && (refcount > 0 ==> nowhere.offset == offset0);
      WriteHead(o, size);
      if o != HeaderExtInternal { objectLevel := objectLevel + 1; }
      ghost var data1, offset1 := out.data, nowhere.offset;
      WriteBody(o);
      WroteMore(data0, offset0, Head(o, size), data1, offset1, Body(o, config, track0));
      if o != HeaderExtInternal { objectLevel := objectLevel - 1; }
    }

    /** The loops over the tracks */
    method WriteEach(o: ObjectType, ghost rank: nat)
      requires Valid() && Rank(o) == 0 < rank
      modifies this, out, nowhere
      ensures Valid() && refcount == old(refcount) && objectLevel == old(objectLevel) && currentTrack == |config.tracks|
      ensures Wrote(old(out.data), old(nowhere.offset), Each(o, config, |config.tracks|, rank))
      decreases rank, 0, 0
    {
      hide Object;
      currentTrack := 0;
      while currentTrack < |config.tracks|
        invariant Valid() && refcount == old(refcount) && objectLevel == old(objectLevel) && currentTrack <= |config.tracks|
        invariant Wrote(old(out.data), old(nowhere.offset), Each(o, config, currentTrack, rank))
        decreases |config.tracks| - currentTrack
      {
        ghost var data, offset := out.data, nowhere.offset;
        WriteObject(o);
        WroteMore(old(out.data), old(nowhere.offset), Each(o, config, currentTrack, rank), data, offset,
                  Object(o, config, currentTrack));
        currentTrack := currentTrack + 1;
      }
    }

    /** The writing functions of the object types */
    method WriteBody(o: ObjectType)
      requires Valid() && (o == StreamProps ==> currentTrack < |config.tracks|)
      modifies this, out, nowhere
      ensures Valid() && refcount == old(refcount) && objectLevel == old(objectLevel) && currentTrack == old(After(o))
      ensures Wrote(old(out.data), old(nowhere.offset), Body(o, config, old(currentTrack)))
      decreases Rank(o), 2, 0
    {
      hide FilePropsBody, ExtStreamPropsBody, StreamPropsBody, LittleEndian, Object;
      match o
      case Header =>
        WriteHeaderBody();
      case FileProps =>
        Put(FilePropsBody(config));
      case HeaderExt =>
        ghost var data0, offset0, track0 := out.data, nowhere.offset, currentTrack;
        Put(NULL_GUID + LittleEndian(0, 2));
        ghost var data1, offset1 := out.data, nowhere.offset;
        WriteObject(HeaderExtInternal);
        WroteMore(data0, offset0, NULL_GUID + LittleEndian(0, 2), data1, offset1, Object(HeaderExtInternal, config, track0));
      case HeaderExtInternal =>
        WriteEach(ExtStreamProps, 1);
      case StreamProps =>
        Put(StreamPropsBody(config.tracks[currentTrack], currentTrack));
      case ExtStreamProps =>
        Put(ExtStreamPropsBody(currentTrack));
      case DataObject =>
        Put([]);
      case SimpleIndex =>
        Put([]);
      case Index =>
        Put([]);
    }

    /** asf_write_object_header */
    method WriteHeaderBody()
      requires Valid()
      modifies this, out, nowhere
      ensures Valid() && refcount == old(refcount) && objectLevel == old(objectLevel) && currentTrack == |config.tracks|
      ensures Wrote(old(out.data), old(nowhere.offset), Body(Header, config, old(currentTrack)))
      decreases 3, 1, 0
    {
      hide LittleEndian, Object;
      ghost var data0, offset0, track0 := out.data, nowhere.offset, currentTrack;
      Put(LittleEndian(0, 4) + [0] + [0]);
      ghost var done := LittleEndian(0, 4) + [0] + [0];
      ghost var data1, offset1 := out.data, nowhere.offset;
      WriteObject(FileProps);
      WroteMore(data0, offset0, done, data1, offset1, Object(FileProps, config, track0));
      done := done + Object(FileProps, config, track0);
      ghost var data2, offset2 := out.data, nowhere.offset;
      WriteObject(HeaderExt);
      WroteMore(data0, offset0, done, data2, offset2, Object(HeaderExt, config, track0));
      done := done + Object(HeaderExt, config, track0);
      ghost var data3, offset3 := out.data, nowhere.offset;
      WriteEach(StreamProps, 3);
      WroteMore(data0, offset0, done, data3, offset3, Each(StreamProps, config, |config.tracks|, 3));
      HeaderBody(config, track0);
    }

    /** asf_write_header: the bytes that reach the real output, read by their size fields, are the
        header object with exactly its nested objects, and the data object; and reading the fields
        in them gives the configuration back. */
    method WriteHeader()
      requires Valid() && refcount == 0 && Bounded(config)
      modifies this, out, nowhere
      ensures Valid() && refcount == 0 && io == out
      ensures out.data == old(out.data) + (Object(Header, config, old(currentTrack)) + Object(DataObject, config, 0))
      ensures Cut(out.data[|old(out.data)|..])
           == [(ObjectGuid(Header), Body(Header, config, old(currentTrack))), (ObjectGuid(DataObject), [])]
      ensures AsfReading.ConfigFits(config) ==> AsfReading.ReadFile(out.data[|old(out.data)|..]) == Some(config)
    {
      hide Object, Body, Cut, ObjectGuid, AsfReading.ReadFile, AsfReading.ConfigFits;
      ghost var data0, track0 := out.data, currentTrack;
      WriteObject(Header);
      WriteObject(DataObject);
      assert out.data == data0 + (Object(Header, config, track0) + Object(DataObject, config, track0)) by { DataFree(config, track0, |config.tracks|); }
      DataFree(config, track0, 0);
      FileCut(config, track0);
      if AsfReading.ConfigFits(config) { AsfReading.FileRead(config, track0); }
      assert out.data[|data0|..] == Object(Header, config, track0) + Object(DataObject, config, track0);
    }

    lemma DataFree(c: Config, t: nat, u: nat)
      ensures Object(DataObject, c, t) == Object(DataObject, c, u)
    {
    }
  }
}
