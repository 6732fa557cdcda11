/** Properties of the byte source across several calls. */
module FileSourceProperties {
  import opened FixedWidth
  import opened FileSource

  /** On a closed handle every callback is inert: read and seek report 0
      and, like close, leave the handle as it was. */
  lemma ClosedHandleIsInert(len: int32, p: int32)
    requires len >= 0
    ensures Read(Closed, len) == ReadResult(0, [], Closed)
    ensures Seek(Closed, p) == SeekResult(0, Closed)
    ensures Close(Closed) == Closed
  {
  }

  /** Closing twice is the same as closing once. */
  lemma CloseIsIdempotent(f: File)
    ensures Close(Close(f)) == Close(f)
  {
  }

  /** Seeking an open handle always reports the requested position, and that
      report matches the handle's actual cursor exactly when the target was
      inside the file or was already the cursor. */
  lemma SeekReportsRequestedPosition(f: File, p: int32)
    requires Valid(f) && f.Open?
    ensures Seek(f, p).reported == p
    ensures Seek(f, p).file.pos == p as int <==> (0 <= p as int <= |f.data| || p as int == f.pos)
  {
  }

  /** Two consecutive reads deliver the same bytes, and leave the same
      handle, as one read of the combined length. */
  lemma ConsecutiveReadsConcatenate(f: File, a: int32, b: int32)
    requires Valid(f)
    requires a >= 0 && b >= 0 && FitsInt32(a as int + b as int)
    ensures var r1 := Read(f, a);
      var r2 := Read(r1.file, b);
      var r := Read(f, (a as int + b as int) as int32);
      r1.bytes + r2.bytes == r.bytes && r2.file == r.file
  {
  }

  /** Seeking back to where a read started undoes the read. */
  lemma SeekBackUndoesRead(f: File, len: int32)
    requires Valid(f) && f.Open? && FitsInt32(f.pos)
    requires len >= 0
    ensures Seek(Read(f, len).file, f.pos as int32).file == f
  {
  }
}
