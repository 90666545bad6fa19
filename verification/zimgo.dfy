/**
  The archive access engine of the zimgo package: the magic-signature check
  done by `Open`, the bounded read of `(*ZimFile).Read` with its short-read
  detection, and the two-state lifecycle of `(*ZimFile).Close`.

  Operations are pure functions: the handle is a value, and every operation
  that moves a read cursor or releases a descriptor returns the handle as it
  is afterwards together with the Go `(value, error)` pair.
 */
module Zimgo {
  import opened Common
  import Os

  /** `zimMagicHeader`: the letters "ZIM" followed by eight zero bytes. */
  const MagicHeader: seq<byte> := [0x5A, 0x49, 0x4D, 0, 0, 0, 0, 0, 0, 0, 0]

  /** The three letters that open the signature. */
  const Letters: seq<byte> := [0x5A, 0x49, 0x4D]

  /** Go's `time.Time`, kept abstract as a tick count; `ZeroTime` is the zero
      value. */
  datatype Time = Time(ticks: int)

  const ZeroTime := Time(0)

  datatype ZimHeader = ZimHeader(version: uint32, creationTime: Time)

  const ZeroHeader := ZimHeader(0, ZeroTime)

  datatype ZimIndexEntry = ZimIndexEntry(offset: int64, size: int64)

  /** `ZimFile`. Both descriptor fields are Go pointers and may be nil; the
      index is a Go map and may be nil. */
  datatype ZimFile = ZimFile(
    fileHandle: Option<Os.File>,
    file: Option<Os.File>,
    filePath: string,
    header: ZimHeader,
    index: Option<map<string, ZimIndexEntry>>,
    compressionAlgorithm: string,
    checksum: string)

  /** The handle afterwards and the `(value, error)` pair of one method call. */
  datatype Step<+T> = Step(zf: ZimFile, result: Result<T>)

  /** What `Open` returns, together with the descriptor it opened for the
      signature check (in the state it is left in), if it opened one. */
  datatype Opened = Opened(result: Result<ZimFile>, probe: Option<Os.File>)

  /** The composite literal `&ZimFile{FilePath: path}`: every other field is
      Go's zero value. */
  function Unpopulated(path: string): (zf: ZimFile)
    ensures zf.filePath == path
    ensures zf.file.None? && zf.fileHandle.None? && zf.index.None?
    ensures zf.header.version == 0 && zf.header.creationTime == ZeroTime
    ensures zf.compressionAlgorithm == [] && zf.checksum == []
  {
    ZimFile(None, None, path, ZeroHeader, None, "", "")
  }

  /** Which files `Open` accepts, stated on the contents alone: at least the
      three letters "ZIM", and zero bytes at every position among the next
      eight that the file reaches. */
  predicate AcceptedSignature(data: seq<byte>)
  {
    && |data| >= |Letters|
    && data[..|Letters|] == Letters
    && forall i :: |Letters| <= i < Min(|data|, |MagicHeader|) ==> data[i] == 0
  }

  /** The buffer `Open` compares: the zero-initialised 11-byte buffer after
      one read has copied in the first bytes of the file. */
  function SignatureBuffer(data: seq<byte>): (buf: seq<byte>)
    ensures |buf| == |MagicHeader|
    ensures forall i :: 0 <= i < Min(|data|, |MagicHeader|) ==> buf[i] == data[i]
    ensures forall i :: Min(|data|, |MagicHeader|) <= i < |MagicHeader| ==> buf[i] == 0
  {
    var n := Min(|data|, |MagicHeader|);
    data[..n] + Zeros(|MagicHeader|)[n..]
  }

  /** The padded buffer equals the signature exactly when the file is one
      `AcceptedSignature` admits, for non-empty files. */
  lemma {:induction false} SignatureBufferMatches(data: seq<byte>)
    requires |data| > 0
    ensures SignatureBuffer(data) == MagicHeader <==> AcceptedSignature(data)
  {
    var buf := SignatureBuffer(data);
    var n := Min(|data|, |MagicHeader|);
    if n < |Letters| {
      // The padding reaches into the letters.
      assert buf[n] != MagicHeader[n];
    } else {
      if buf == MagicHeader {
        assert data[..|Letters|] == Letters by {
          forall i | 0 <= i < |Letters| ensures data[i] == Letters[i] {
            assert buf[i] == data[i];
          }
        }
        forall i | |Letters| <= i < n ensures data[i] == 0 {
          assert buf[i] == data[i];
        }
      }
      if AcceptedSignature(data) {
        forall i | 0 <= i < |MagicHeader| ensures buf[i] == MagicHeader[i] {
          if i < |Letters| {
            assert data[..|Letters|][i] == data[i];
          }
        }
      }
    }
  }

  /** `Open(filePath)`: opens the file, reads once into a zero-initialised
      buffer of `len(zimMagicHeader)` bytes, closes the file (deferred) and
      compares the buffer with the signature. A short read is not an error, so
      a file shorter than the signature is judged on its bytes padded with
      zeros. On success the handle carries only the path: the descriptor
      used for the check is not kept. */
  function Open(fs: Os.FileSystem, path: string): (r: Opened)
    ensures path !in fs ==> r == Opened(Err(NotExist(path)), None)
    ensures path in fs ==> r.probe.Some? && r.probe.value.closed
    ensures path in fs ==> r.probe.value.pos == Min(|fs[path]|, |MagicHeader|)
    ensures r.result.Ok? <==> path in fs && AcceptedSignature(fs[path])
    ensures r.result.Ok? ==> r.result.value == Unpopulated(path)
    ensures path in fs && |fs[path]| == 0 ==> r.result == Err(Eof)
    ensures path in fs && |fs[path]| > 0 && !AcceptedSignature(fs[path]) ==> r.result == Err(InvalidFormat)
  {
    match Os.Open(fs, path)
    case Err(e) => Opened(Err(e), None)
    case Ok(f) =>
      var rd := Os.Read(f, Zeros(|MagicHeader|));
      var released := Os.Close(rd.file).0;
      if rd.err.Some? then
        Opened(Err(rd.err.value), Some(released))
      else
        assert rd.buf == SignatureBuffer(f.data);
        SignatureBufferMatches(f.data);
        if rd.buf != MagicHeader then
          Opened(Err(InvalidFormat), Some(released))
        else
          Opened(Ok(Unpopulated(path)), Some(released))
  }

  /** `(*ZimFile).Read(offset, size)`: seeks to `offset`, reads once into a
      buffer of `size` bytes and rejects a read that delivered fewer. The
      methods of `*os.File` answer a nil receiver with `os.ErrInvalid`, so a
      nil `File` fails at the seek. Go's `make` panics on a negative `size`;
      it is reached only once the seek has succeeded, and only that case is
      excluded here. */
  function Read(zf: ZimFile, offset: int64, size: int64): (r: Step<seq<byte>>)
    requires size >= 0 || zf.file.None? || zf.file.value.closed || offset < 0
    ensures r.zf.file.Some? <==> zf.file.Some?
    ensures r.zf.(file := zf.file) == zf
    ensures zf.file.None? ==> r == Step(zf, Err(ErrInvalid))
    ensures zf.file.Some? ==> r.zf.file.value.data == zf.file.value.data
    ensures zf.file.Some? ==> r.zf.file.value.closed == zf.file.value.closed
    ensures r.result.Ok? <==>
              && zf.file.Some?
              && !zf.file.value.closed
              && offset >= 0
              && size <= Os.MaxRW as int64
              && (size == 0 || offset as int + size as int <= |zf.file.value.data|)
    ensures r.result.Ok? ==> |r.result.value| == size as int
    ensures r.result.Ok? && size > 0 ==>
              r.result.value == zf.file.value.data[offset..offset as int + size as int]
    ensures r.result.Ok? ==> r.zf.file.value.pos == offset as int + size as int
    ensures zf.file.Some? && zf.file.value.closed ==> r == Step(zf, Err(ErrClosed))
    ensures zf.file.Some? && !zf.file.value.closed && offset < 0 ==> r == Step(zf, Err(InvalidSeek))
    ensures zf.file.Some? && !zf.file.value.closed && offset >= 0 && size > 0 && |zf.file.value.data| <= offset as int ==>
              r.result == Err(Eof)
    ensures zf.file.Some? && !zf.file.value.closed && 0 <= offset as int < |zf.file.value.data| &&
            (|zf.file.value.data| < offset as int + size as int || size > Os.MaxRW as int64) ==>
              r.result == Err(UnexpectedEof)
  {
    match zf.file
    case None => Step(zf, Err(ErrInvalid))
    case Some(f) =>
      var (sought, seekResult) := Os.Seek(f, offset);
      if seekResult.Err? then
        Step(zf.(file := Some(sought)), Err(seekResult.error))
      else
        var rd := Os.Read(sought, Zeros(size as int));
        var after := zf.(file := Some(rd.file));
        if rd.err.Some? then
          Step(after, Err(rd.err.value))
        else if rd.n != size as int then
          Step(after, Err(UnexpectedEof))
        else
          Step(after, Ok(rd.buf))
  }

  /** `(*ZimFile).Close()`: releases a non-nil `File` and sets the field to
      nil whether or not the release reported an error; with a nil `File` it
      does nothing and succeeds. */
  function Close(zf: ZimFile): (r: Step<()>)
    ensures r.zf.file.None?
    ensures r.zf.(file := zf.file) == zf
    ensures zf.file.None? ==> r == Step(zf, Ok(()))
    ensures zf.file.Some? ==> (r.result.Ok? <==> !zf.file.value.closed)
    ensures r.result.Err? ==> r.result.error == ErrClosed
  {
    match zf.file
    case None => Step(zf, Ok(()))
    case Some(f) =>
      var err := Os.Close(f).1;
      var closed := zf.(file := None);
      if err.Some? then Step(closed, Err(err.value)) else Step(closed, Ok(()))
  }
}
