/** The reader of variable-length hardware traces, with its bookmarks. */
module HardwareFiles {
  import opened Bytes
  import opened StreamableFiles
  import opened HardwareAccesses

  const HARDWARE_FILE_MAGIC: uint64 := 0x68636e79734e5652
  const HARDWARE_FILE_HEADER_SIZE: nat := 12

  datatype LoadStatus = Loaded | NotLoaded | WrongMagic(actual: uint64)

  /** Everything a caller of a reader can observe now or later. */
  datatype ReaderState = ReaderState(
    current: HardwareAccess, position: uint64, filePosition: uint64, offset: nat, eof: bool, fail: bool)

  class HardwareFile {
    const file: StreamableFile
    var current: HardwareAccess
    var lastReadPosition: uint64
    var position: uint64

    ghost predicate Valid()
      reads this, file
    {
      file.Valid() && |file.bytes| < TWO_TO_THE_63 && file.isOpen
    }

    /** Every state of a stream will do: open or closed, behind the end, or refused by a seek. */
    ghost predicate Ready()
      reads this, file
    {
      file.Valid() && |file.bytes| < TWO_TO_THE_63
    }

    ghost function State(): ReaderState
      reads this, file
    {
      ReaderState(current, position, lastReadPosition, file.offset, file.eof, file.fail)
    }

    /** The accesses that further calls of Next deliver before the first invalid one. */
    ghost function Remaining(): seq<HardwareAccess>
      reads this, file
    {
      if file.eof then [] else DecodeAll(file.bytes, file.offset)
    }

    /** The state is the one that returning to its own bookmark produces. */
    ghost predicate AtBookmark()
      reads this, file
    {
      && Valid()
      && position != 0
      && lastReadPosition < |file.bytes|
      && current == AccessAt(file.bytes, lastReadPosition)
      && file.offset == AccessEnd(file.bytes, lastReadPosition)
      && file.eof == file.fail == (|file.bytes| < file.offset)
    }

    constructor (contents: seq<byte>)
      ensures file.Live() && file.isOpen && file.bytes == contents && file.offset == 0 && fresh(file)
      ensures current.tsc == 0 && position == 0 && lastReadPosition == 0
    {
      file := new StreamableFile(contents);
      current := ZERO_ACCESS;
      position, lastReadPosition := 0, 0;
    }

    /** Checks the header of a just opened file; anything unreadable is closed. */
    method Load() returns (status: LoadStatus)
      requires file.Live() && file.isOpen && file.offset == 0
      modifies this, file
      ensures file.Valid() && current == old(current) && position == 0
      ensures |file.bytes| < HARDWARE_FILE_HEADER_SIZE ==> status == NotLoaded && file.eof
      ensures HARDWARE_FILE_HEADER_SIZE <= |file.bytes| ==>
                var magic := Uint64At(file.bytes, 0);
                if magic != HARDWARE_FILE_MAGIC then status == WrongMagic(magic) && file.eof
                else status == Loaded && file.Live() && file.isOpen
                     && file.offset == lastReadPosition == HARDWARE_FILE_HEADER_SIZE
    {
      position := 0;
      var magic := file.ReadUint64();
      var version := file.ReadUint32();
      if file.eof {
        file.Close();
        return NotLoaded;
      } else if magic != HARDWARE_FILE_MAGIC {
        file.Close();
        return WrongMagic(magic);
      }
      lastReadPosition := file.Pos();
      return Loaded;
    }

    /** Reads every field of `current` in stream order. */
    method ReadAccess()
      requires file.Valid()
      modifies this`current, file
      ensures current == AccessAt(file.bytes, old(file.offset))
      ensures file.Consumed(44 + |current.data|)
    {
      var tsc := file.ReadUint64();
      var physicalAddress := file.ReadUint64();
      var kind := file.ReadUint64();
      var deviceId := file.ReadUint64();
      var deviceInstance := file.ReadUint32();
      var data := file.ReadVector();
      current := HardwareAccess(tsc, physicalAddress, kind, deviceId, deviceInstance, data);
    }

    method Next() returns (a: HardwareAccess)
      requires Ready()
      modifies this, file
      ensures Ready() && file.isOpen == old(file.isOpen) && a == current
      // the whole new state
      ensures old(file.eof) ==>
                && current == old(current).(tsc := 0)
                && position == old(position)
                && lastReadPosition == TWO_TO_THE_64 - 1
                && file.eof && file.fail && file.offset == old(file.offset)
      ensures !old(file.eof) ==>
                && current == AccessAt(file.bytes, old(file.offset))
                && position == (old(position) + 1) % TWO_TO_THE_64
                && lastReadPosition == old(file.Pos())
                && file.offset == AccessEnd(file.bytes, old(file.offset))
                && if old(file.fail) then !file.eof && file.fail
                   else file.eof == file.fail == (|file.bytes| < file.offset)
      // successive calls deliver the remaining accesses in order, then an invalid one
      ensures a.IsValid() <==> old(Remaining()) != []
      ensures a.IsValid() ==> [a] + Remaining() == old(Remaining())
      // a valid access can be returned to
      ensures a.IsValid() && file.isOpen && position != 0 ==> AtBookmark()
    {
      lastReadPosition := file.Pos();
      if !file.eof {
        ReadAccess();
        position := (position + 1) % TWO_TO_THE_64;
        if file.fail {
          NothingPastTheEnd(file.bytes, file.offset);
        }
        if old(file.fail) {
          NothingPastTheEnd(file.bytes, old(file.offset));
        }
      } else {
        current := current.(tsc := 0);
      }
      a := current;
    }

    /** A file position that is negative as a stream offset is refused, and a read there gives zeros. */
    method AdvanceTo(filePosition: uint64, newPosition: uint64)
      requires Valid()
      modifies this, file
      ensures Valid() && position == newPosition
      ensures newPosition == 0 ==>
                && current == old(current) && lastReadPosition == old(lastReadPosition)
                && if filePosition < TWO_TO_THE_63 then file.Live() && file.offset == filePosition
                   else file.fail && !file.eof
      ensures newPosition != 0 && TWO_TO_THE_63 <= filePosition ==>
                && lastReadPosition == TWO_TO_THE_64 - 1 && current == ZERO_ACCESS
                && file.fail && !file.eof
      ensures newPosition != 0 && filePosition < TWO_TO_THE_63 ==>
                && lastReadPosition == filePosition
                && current == AccessAt(file.bytes, filePosition)
                && file.offset == AccessEnd(file.bytes, filePosition)
                && file.eof == file.fail == (|file.bytes| < file.offset)
    {
      file.Seek(filePosition);
      if newPosition == 0 {
        position := 0;
        return;
      }
      position := newPosition - 1;
      ghost var start := file.offset;
      var _ := Next();
      if TWO_TO_THE_63 <= filePosition {
        ZerosPastTheEnd(file.bytes, start);
      }
    }

    /** Continues from wherever another reader of the same file is; the bookmark is not taken over. */
    method SyncWith(other: HardwareFile)
      requires Valid() && other.Valid() && other.Ready() && other.file != file && other.file.bytes == file.bytes
      modifies this, file
      ensures Valid() && position == other.position && current == other.current
      ensures lastReadPosition == old(lastReadPosition)
      ensures !other.file.eof ==> Remaining() == other.Remaining()
      // a reader at its end is asked for tellg() == -1: the seek fails and clears the end-of-file flag
      ensures other.file.eof ==> file.fail && !file.eof
    {
      var pos := other.file.Pos();
      file.Seek(pos);
      position := other.position;
      current := other.current;
    }
  }

  /**
   * Takes a bookmark, reads on for as long as the caller likes, and returns to the bookmark: the
   * reader is exactly where it was, end of file included.
   */
  method ReadOnAndReturn(reader: HardwareFile, count: nat)
    requires reader.AtBookmark()
    modifies reader, reader.file
    ensures reader.State() == old(reader.State())
    ensures reader.Remaining() == old(reader.Remaining())
    ensures reader.AtBookmark()
  {
    var filePosition, position := reader.lastReadPosition, reader.position;
    for i := 0 to count
      invariant reader.Valid() && reader.Ready()
    {
      var _ := reader.Next();
    }
    reader.AdvanceTo(filePosition, position);
  }
}
