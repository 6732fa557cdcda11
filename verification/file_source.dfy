/** The byte source the GIF decoder reads through: the four file callbacks
    `GIFOpenFile`, `GIFCloseFile`, `GIFReadFile` and `GIFSeekFile` of
    src/main.cpp, all working on the one global `gifFile` handle.

    The handle is either closed (the falsy `File`) or an open file, modelled
    as the file's bytes and a cursor. What the SD library does on an open
    file is modelled as a plain sequential file: a read returns the next
    bytes up to the requested count, fewer only at end of file; a seek moves
    the cursor when the target lies in `[0, size]` and fails otherwise. */
module FileSource {
  import opened FixedWidth
  import opened Optional

  datatype File = Closed | Open(data: seq<uint8>, pos: nat)

  /** An open file's cursor never lies beyond its end. */
  predicate Valid(f: File) {
    f.Open? ==> f.pos <= |f.data|
  }

  /** `GIFOpenFile`: the result of `SD.open` comes in as `found` (the file's
      bytes, or `None` when it could not be opened). The reported size is
      `None` when the callback returns false. */
  datatype Opened = Opened(size: Option<int32>, file: File)

  /** `GIFReadFile`: the count returned, the bytes placed in the buffer, and
      the handle afterwards. */
  datatype ReadResult = ReadResult(count: int32, bytes: seq<uint8>, file: File)

  /** `GIFSeekFile`: the position reported back to the decoder and the handle
      afterwards. */
  datatype SeekResult = SeekResult(reported: int32, file: File)

  function OpenFile(found: Option<seq<uint8>>): (r: Opened)
    ensures Valid(r.file)
    ensures r.size.Some? <==> found.Some?
    ensures found.None? ==> r.file == Closed
    ensures found.Some? ==> r.file.Open? && r.file.data == found.value && r.file.pos == 0
    ensures found.Some? ==> r.size.value == ToInt32(|found.value|)
    ensures found.Some? && FitsInt32(|found.value|) ==> r.size.value as int == |found.value|
  {
    match found
    case None => Opened(None, Closed)
    case Some(data) => Opened(Some(ToInt32(|data|)), Open(data, 0))
  }

  /** `GIFCloseFile`: closes an open handle; on a closed one it does nothing. */
  function Close(f: File): (r: File)
    ensures r.Closed?
    ensures f.Closed? ==> r == f
  {
    Closed
  }

  function Read(f: File, len: int32): (r: ReadResult)
    requires Valid(f)
    requires len >= 0
    ensures Valid(r.file)
    ensures r.count as int == |r.bytes| <= len as int
    ensures f.Closed? ==> r.count == 0 && r.file == f
    ensures f.Open? ==>
      && r.file.Open?
      && r.file.data == f.data
      && r.file.pos == f.pos + |r.bytes| <= |f.data|
      && r.bytes == f.data[f.pos..f.pos + |r.bytes|]
      && (|r.bytes| < len as int ==> r.file.pos == |f.data|)
  {
    match f
    case Closed => ReadResult(0, [], Closed)
    case Open(data, pos) =>
      var n := Min(len as int, |data| - pos);
      assert FitsInt32(n) by { assert FitsInt32(len as int); }
      ReadResult(n as int32, data[pos..pos + n], Open(data, pos + n))
  }

  function Seek(f: File, p: int32): (r: SeekResult)
    requires Valid(f)
    ensures Valid(r.file)
    ensures f.Closed? ==> r.reported == 0 && r.file == f
    ensures f.Open? ==> r.reported == p && r.file.Open? && r.file.data == f.data
    ensures f.Open? && 0 <= p as int <= |f.data| ==> r.file.pos == p as int
    ensures f.Open? && !(0 <= p as int <= |f.data|) ==> r.file == f
  {
    match f
    case Closed => SeekResult(0, Closed)
    case Open(data, pos) =>
      var moved := if 0 <= p as int <= |data| then Open(data, p as int) else f;
      SeekResult(p, moved)
  }
}
