/**
  The part of Go's `os` package the archive reader relies on, reduced to a
  value model. A filesystem maps paths to immutable contents; an open file is
  those contents plus a read cursor and a closed flag. A single `Read` of `k`
  bytes at cursor `p` delivers `min(k, MaxRW, len - p)` bytes (none when the
  cursor is at or beyond the end), reports end of file when it delivers nothing
  for a non-empty buffer, and reports nothing at all for an empty buffer.
 */
module Os {
  import opened Common

  type FileSystem = map<string, seq<byte>>

  /** The most bytes one read system call is asked for: Go's `internal/poll`
      cuts every buffer of a stream descriptor, regular files included, to
      `maxRW = 1 << 30` bytes. */
  const MaxRW: nat := 0x4000_0000

  datatype File = File(data: seq<byte>, pos: nat, closed: bool)

  /** What one `(*os.File).Read(buf)` call leaves behind: the file with its
      moved cursor, the buffer as filled, the count `n` and the error. */
  datatype ReadOutcome = ReadOutcome(file: File, buf: seq<byte>, n: nat, err: Option<Error>)

  /** `os.Open`: a read-only file positioned at offset 0. */
  function Open(fs: FileSystem, path: string): (r: Result<File>)
    ensures r.Ok? <==> path in fs
    ensures r.Ok? ==> r.value.data == fs[path] && r.value.pos == 0 && !r.value.closed
    ensures r.Err? ==> r.error == NotExist(path)
  {
    if path in fs then Ok(File(fs[path], 0, false)) else Err(NotExist(path))
  }

  /** Bytes left between the cursor and the end of the file. */
  function Remaining(f: File): nat
  {
    if f.pos < |f.data| then |f.data| - f.pos else 0
  }

  /** `(*os.File).Seek(offset, io.SeekStart)`. Seeking past the end is allowed;
      a negative offset is rejected and leaves the cursor where it was. */
  function Seek(f: File, offset: int64): (r: (File, Result<int64>))
    ensures r.0.data == f.data && r.0.closed == f.closed
    ensures r.1.Ok? <==> !f.closed && offset >= 0
    ensures r.1.Ok? ==> r.0.pos == offset as int && r.1.value == offset
    ensures r.1.Err? ==> r.0 == f
    ensures f.closed ==> r.1 == Err(ErrClosed)
    ensures !f.closed && offset < 0 ==> r.1 == Err(InvalidSeek)
  {
    if f.closed then (f, Err(ErrClosed))
    else if offset < 0 then (f, Err(InvalidSeek))
    else (f.(pos := offset as int), Ok(offset))
  }

  /** `(*os.File).Read(buf)` under the single-read assumption stated above. */
  function Read(f: File, buf: seq<byte>): (r: ReadOutcome)
    ensures r.file.data == f.data && r.file.closed == f.closed
    ensures |r.buf| == |buf| && r.n <= |buf|
    ensures r.file.pos == f.pos + r.n
    ensures r.buf[r.n..] == buf[r.n..]
    ensures r.n <= Remaining(f)
    ensures forall i :: 0 <= i < r.n ==> r.buf[i] == f.data[f.pos + i]
    ensures r.n <= MaxRW
    ensures r.err.None? ==> !f.closed && r.n == Min(Min(|buf|, MaxRW), Remaining(f))
    ensures r.err.Some? ==> r.n == 0 && r.buf == buf && r.file == f
    ensures r.err == Some(ErrClosed) <==> f.closed
    ensures r.err == Some(Eof) <==> !f.closed && |buf| > 0 && Remaining(f) == 0
  {
    if f.closed then ReadOutcome(f, buf, 0, Some(ErrClosed))
    else if |buf| == 0 then ReadOutcome(f, buf, 0, None)
    else
      var n := Min(Min(|buf|, MaxRW), Remaining(f));
      if n == 0 then ReadOutcome(f, buf, 0, Some(Eof))
      else ReadOutcome(f.(pos := f.pos + n), f.data[f.pos..f.pos + n] + buf[n..], n, None)
  }

  /** `(*os.File).Close()`: releases the descriptor; closing twice reports
      `os.ErrClosed`. */
  function Close(f: File): (r: (File, Option<Error>))
    ensures r.0.closed
    ensures r.0.data == f.data && r.0.pos == f.pos
    ensures r.1.None? <==> !f.closed
    ensures r.1.Some? ==> r.1.value == ErrClosed
  {
    if f.closed then (f, Some(ErrClosed)) else (f.(closed := true), None)
  }
}
