/** The two stream objects the serialisers work on: an output that appends
    bytes (java.io.DataOutput / ObjectDataOutput) and an input read from the
    front (java.io.DataInput / ObjectDataInput). Each primitive write or read
    applies one format of module Wire to the stream's state. */
module Streams {
  import opened Wire

  class ByteOutput {
    var bytes: seq<byte>

    constructor ()
      ensures bytes == []
    {
      bytes := [];
    }

    /** Appends an int in writeInt's form. */
    method WriteInt(v: Int32)
      modifies this
      ensures bytes == old(bytes) + EncodeInt32(v)
    {
      bytes := bytes + EncodeInt32(v);
    }

    /** Writes nothing when the string is over writeUTF's limit. */
    method WriteUtf(s: JString) returns (o: Outcome<IoError>)
      modifies this
      ensures match EncodeUtf(s)
              case Ok(w) => o == Pass && bytes == old(bytes) + w
              case Err(e) => o == Fail(e) && bytes == old(bytes)
    {
      var w := EncodeUtf(s);
      if w.Err? {
        return Fail(w.error);
      }
      bytes := bytes + w.value;
      o := Pass;
    }

    method WriteNullableData(d: Option<Data>)
      modifies this
      ensures bytes == old(bytes) + EncodeNullableData(d)
    {
      bytes := bytes + EncodeNullableData(d);
    }
  }

  /** An input read from the front. `pos` is the index of the next unread
      byte; each read decodes at `pos` and, when it succeeds, moves `pos`
      past what it decoded. After a failed read the position is left
      unsaid: the caller abandons the stream. */
  class ByteInput {
    const buf: seq<byte>
    var pos: nat

    constructor (b: seq<byte>)
      ensures buf == b && pos == 0
    {
      buf, pos := b, 0;
    }

    method ReadInt() returns (r: Result<Int32, IoError>)
      modifies this
      ensures r.Ok? ==> DecodeInt32(buf, old(pos)) == Ok(Read(r.value, pos))
      ensures r.Err? ==> DecodeInt32(buf, old(pos)) == Err(r.error)
    {
      var d := DecodeInt32(buf, pos);
      if d.Err? {
        return Err(d.error);
      }
      pos := d.value.next;
      r := Ok(d.value.item);
    }

    method ReadUtf() returns (r: Result<JString, IoError>)
      modifies this
      ensures r.Ok? ==> DecodeUtf(buf, old(pos)) == Ok(Read(r.value, pos))
      ensures r.Err? ==> DecodeUtf(buf, old(pos)) == Err(r.error)
    {
      var d := DecodeUtf(buf, pos);
      if d.Err? {
        return Err(d.error);
      }
      pos := d.value.next;
      r := Ok(d.value.item);
    }

    method ReadNullableData() returns (r: Result<Option<Data>, IoError>)
      modifies this
      ensures r.Ok? ==> DecodeNullableData(buf, old(pos)) == Ok(Read(r.value, pos))
      ensures r.Err? ==> DecodeNullableData(buf, old(pos)) == Err(r.error)
    {
      var d := DecodeNullableData(buf, pos);
      if d.Err? {
        return Err(d.error);
      }
      pos := d.value.next;
      r := Ok(d.value.item);
    }
  }
}
