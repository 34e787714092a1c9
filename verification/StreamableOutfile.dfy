/** The output stream: every writer appends to the file. */
module StreamableOutfiles {
  import opened Bytes

  class StreamableOutfile {
    var contents: seq<byte>

    constructor ()
      ensures contents == []
    {
      contents := [];
    }

    method WriteRaw(source: seq<byte>)
      modifies this
      ensures contents == old(contents) + source
    {
      contents := contents + source;
    }

    method WriteUint32(v: uint32)
      modifies this
      ensures contents == old(contents) + EncodeUint32(v)
    {
      WriteRaw(EncodeUint32(v));
    }

    method WriteUint64(v: uint64)
      modifies this
      ensures contents == old(contents) + EncodeUint64(v)
    {
      WriteRaw(EncodeUint64(v));
    }

    method WriteVector(data: seq<byte>)
      requires |data| < TWO_TO_THE_64
      modifies this
      ensures contents == old(contents) + EncodeUint64(|data|) + data
    {
      WriteUint64(|data|);
      ghost var start := contents;
      for i := 0 to |data|
        invariant contents == start + data[..i]
      {
        WriteRaw([data[i]]);
      }
    }
  }
}
