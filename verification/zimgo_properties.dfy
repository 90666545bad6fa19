/**
  Properties that relate several calls of the zimgo operations, and concrete
  example archives: a bare "ZIM", short prefixes of the signature, and a file
  starting with "NOTZIM".
 */
module ZimgoProperties {
  import opened Common
  import Os
  import opened Zimgo

  /** The bytes of the ASCII text "NOTZIM". */
  const NotZim: seq<byte> := [0x4E, 0x4F, 0x54, 0x5A, 0x49, 0x4D]

  /** Every file that begins with the whole 11-byte signature is accepted,
      whatever follows it, and the handle carries only the path. */
  lemma OpenAcceptsFullSignature(fs: Os.FileSystem, path: string)
    requires path in fs && |fs[path]| >= |MagicHeader|
    requires fs[path][..|MagicHeader|] == MagicHeader
    ensures Open(fs, path).result == Ok(Unpopulated(path))
  {
  }

  /** The three-byte file "ZIM" passes the check: the zero padding of the
      buffer supplies the eight zero bytes the file lacks. */
  lemma OpenAcceptsBareLetters(path: string)
    ensures Open(map[path := Letters], path).result == Ok(Unpopulated(path))
  {
  }

  /** A one- or two-byte file is rejected as malformed even when it is a
      prefix of the signature: there the padding falls where 'I' or 'M' is
      expected. */
  lemma OpenRejectsShortPrefix(fs: Os.FileSystem, path: string)
    requires path in fs && 0 < |fs[path]| < |Letters|
    ensures Open(fs, path).result == Err(InvalidFormat)
  {
  }

  /** An archive starting with "NOTZIM" yields the format error and no
      handle, and the probe descriptor is released. */
  lemma OpenRejectsNotZim(fs: Os.FileSystem, path: string)
    requires path in fs && |fs[path]| >= |NotZim| && fs[path][..|NotZim|] == NotZim
    ensures Open(fs, path).result == Err(InvalidFormat)
    ensures Open(fs, path).probe.Some? && Open(fs, path).probe.value.closed
  {
    assert fs[path][0] == fs[path][..|NotZim|][0];
  }

  /** A handle fresh from `Open` has no `File`: every `Read` on it fails with
      `os.ErrInvalid` and changes nothing, and closing it is a no-op success. */
  lemma OpenedHandleIsInert(fs: Os.FileSystem, path: string, offset: int64, size: int64)
    requires Open(fs, path).result.Ok?
    ensures Open(fs, path).result.value.file.None?
    ensures Read(Open(fs, path).result.value, offset, size) == Step(Open(fs, path).result.value, Err(ErrInvalid))
    ensures Close(Open(fs, path).result.value) == Step(Open(fs, path).result.value, Ok(()))
  {
  }

  /** Closing twice: the second call always succeeds and changes nothing. */
  lemma CloseTwice(zf: ZimFile)
    ensures Close(Close(zf).zf) == Step(Close(zf).zf, Ok(()))
  {
  }

  /** `Read` seeks before reading, so where an earlier call left the cursor
      has no influence on what it returns. */
  lemma ReadIgnoresCursor(zf: ZimFile, pos: nat, offset: int64, size: int64)
    requires zf.file.Some? && (size >= 0 || zf.file.value.closed || offset < 0)
    ensures Read(zf.(file := Some(zf.file.value.(pos := pos))), offset, size).result
         == Read(zf, offset, size).result
  {
  }

  /** A successful read of `a + b` bytes is a read of the first `a` bytes
      followed by a read of the next `b`, and returns their concatenation.
      Conversely the two reads together imply the long one whenever it stays
      within the per-read cap. */
  lemma ReadSplits(zf: ZimFile, offset: int64, a: int64, b: int64)
    requires a > 0 && b > 0
    requires a as int + b as int < 0x8000_0000_0000_0000
    requires offset as int + a as int + b as int < 0x8000_0000_0000_0000
    ensures var first := Read(zf, offset, a);
            var second := Read(first.zf, offset + a, b);
            var whole := Read(zf, offset, a + b);
            && (whole.result.Ok? ==> first.result.Ok? && second.result.Ok?)
            && (first.result.Ok? && second.result.Ok? && a as int + b as int <= Os.MaxRW ==> whole.result.Ok?)
            && (whole.result.Ok? ==> whole.result.value == first.result.value + second.result.value)
  {
  }
}
