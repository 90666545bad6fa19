# zimgo archive access engine in Dafny

This project models the core of the `zimgo` Go package, a reader for `.zim`
archives, and proves properties of that model. The core consists of:

- `Open`, which checks the magic signature at the start of the file;
- `(*ZimFile).Read`, a bounded read at an offset that rejects short reads;
- `(*ZimFile).Close`, which releases the handle's file and may be called again
  without harm;
- the records `ZimFile`, `ZimHeader` and `ZimIndexEntry`, and the constant
  `zimMagicHeader` (`"ZIM"` followed by eight zero bytes).

The operating system is abstracted as values (module `Os`, file `os.dfy`):

- A filesystem maps paths to immutable byte sequences.
- An open file is its contents, a read cursor and a closed flag.
- `os.Open` fails with a not-exist error for an unknown path.
- A seek relative to the start of the file moves the cursor. It may move past
  the end. A negative offset is rejected and the cursor stays put.
- One `Read` of `k` bytes at cursor `p` delivers `min(k, 1<<30, len - p)`
  bytes, or none when `p` is at or past the end. The `1<<30` cap is Go's
  `maxRW`: `internal/poll` cuts every read of a file descriptor to that size. It reports end of file when it delivers
  nothing into a non-empty buffer, and reports no error for an empty buffer.
- Every operation on a closed file fails with `os.ErrClosed`, and every
  operation on a nil `*os.File` fails with `os.ErrInvalid`.

Each Go method on `*ZimFile` becomes a pure function. It takes the handle as a
value and returns a `Step`: the handle afterwards plus the `(value, error)`
pair. `Open` also returns the descriptor it opened for the signature check,
left in its final (closed) state. Error values are reduced to their kinds:
not-exist, invalid (nil file), closed, invalid seek, EOF, invalid format and
unexpected end of file.

Behaviour of the source that the model keeps:

- `Open` reads once into a zero-initialised 11-byte buffer and does not treat
  a short read as an error. A file shorter than the signature is therefore
  judged on its bytes padded with zeros. Exactly the files whose first three
  bytes are `"ZIM"`, and whose bytes among positions 3 to 10 that exist are
  zero, are accepted. So the 3-byte file `"ZIM"` is accepted. The 1- and
  2-byte files `"Z"` and `"ZI"` are rejected as malformed, although they are
  prefixes of the signature. An empty file fails with EOF.
- `Open` closes its descriptor before returning, and the handle it returns
  carries only `FilePath`. Its `File` is nil, so every `Read` on it fails at
  the seek with `os.ErrInvalid`, and `Close` on it is a no-op.
- A `Read` of zero bytes at any offset that is not negative succeeds with an
  empty buffer, even past the end of the file. The underlying read of an
  empty buffer reports no error.
- `Close` sets `File` to nil even when releasing the descriptor fails.
- A `Read` of more than `1<<30` bytes never succeeds. The single read delivers
  at most `1<<30` bytes, so the short-read check reports the unexpected end of
  file even when the file holds all the requested bytes.

## Model

| member | source | states |
|---|---|---|
| Zimgo.Open | zimgo.go:46-69 | An unknown path gives the not-exist error, no handle and no descriptor. Otherwise the descriptor used for the check ends up closed, with its cursor moved by at most the 11 signature bytes. The call succeeds iff the contents satisfy `AcceptedSignature`, and then the handle is `Unpopulated(path)`. An empty file gives EOF. Any other rejected file gives the invalid-format error. |
| Zimgo.SignatureBufferMatches | zimgo.go:56-65 | For a non-empty file, the zero-padded 11-byte buffer equals `"ZIM"` plus eight zero bytes iff the file holds at least three bytes, starts with `"ZIM"`, and every byte it has among positions 3 to 10 is zero. |
| Zimgo.SignatureBuffer | zimgo.go:56-57 | The buffer compared by `Open` has 11 bytes. It holds the file's first `min(len, 11)` bytes, followed by zeros. |
| Zimgo.Unpopulated | zimgo.go:68-68 | The handle `Open` returns carries the given path. `File` and `FileHandle` are nil, `Index` is nil, `Header` is the zero header, and the two strings are empty. |
| Zimgo.Read | zimgo.go:72-93 | Requires a size that is not negative only when the seek succeeds, because only then does `make` run. A nil `File` gives `os.ErrInvalid` and changes nothing. Succeeds iff `File` is non-nil and open, the offset is not negative, the size is at most `1<<30`, and the size is 0 or `offset + size` lies within the file. On success it returns exactly `size` bytes, equal to `data[offset..offset+size]`, and leaves the cursor at `offset + size`. A closed file gives the closed error. A negative offset gives the seek error and changes nothing. A non-empty read at or past the end gives EOF. A read that starts inside the file and either runs past its end or asks for more than `1<<30` bytes gives the unexpected-end error. Only the cursor of `File` changes. |
| Zimgo.Close | zimgo.go:144-153 | `File` is nil afterwards and every other field is unchanged. With a nil `File` the call is a no-op success. With a non-nil `File` it succeeds iff that descriptor was still open, and otherwise reports the closed error. |
| Common.Zeros | zimgo.go:81-81 | `make([]byte, n)` yields `n` bytes, all zero. |
| ZimgoProperties.OpenAcceptsFullSignature | zimgo.go:56-68 | Every file starting with the whole 11-byte signature is accepted, whatever follows, and the result is the path-only handle. |
| ZimgoProperties.OpenAcceptsBareLetters | zimgo.go:56-65 | The 3-byte file `"ZIM"` is accepted. |
| ZimgoProperties.OpenRejectsShortPrefix | zimgo.go:56-65 | A 1- or 2-byte file is rejected with the invalid-format error, even when it is a prefix of the signature. |
| ZimgoProperties.OpenRejectsNotZim | zimgo.go:62-65 | A file starting with `"NOTZIM"` gets the invalid-format error and no handle, and its descriptor is closed. |
| ZimgoProperties.OpenedHandleIsInert | zimgo.go:67-93 | A handle returned by `Open` has a nil `File`. Every `Read` on it, for any offset and size, fails with `os.ErrInvalid` and changes nothing. Closing it succeeds without changing it. |
| ZimgoProperties.CloseTwice | zimgo.go:144-153 | Whatever the handle, a second `Close` right after the first succeeds and changes nothing. |
| ZimgoProperties.ReadIgnoresCursor | zimgo.go:74-78 | `Read` seeks before reading, so its result does not depend on where earlier calls left the cursor. |
| ZimgoProperties.ReadSplits | zimgo.go:72-93 | For positive `a` and `b`, a successful read of `a + b` bytes means that a read of `a` bytes followed by a read of the next `b` bytes both succeed, and the long read returns the two pieces concatenated. Conversely, the two short reads succeeding imply that the long read succeeds when `a + b` is at most `1<<30`. |

## Left out

- `(*ZimFile).Extract`: every step of it is a call into `archive/zip`, `os.MkdirAll`, `os.Create`, `filepath.Join` or `io.Copy`, library and filesystem behaviour outside this model. Its only logic of its own is "stop at the first error".
- `main.go`: command-line and HTTP wiring. It calls `zimgo.SetupRouter`, which is not part of this model.
- Real `os.File` behaviour: the model omits partial reads that a single read system call may return below the `1<<30` cap (on pipes, sockets or devices), device-specific seek rules, and I/O errors from the medium. The single-read abstraction above stands in for them.
- A cursor shared by concurrent `Read` calls: this is a concurrency concern. The model threads the handle through each call.
- Header decoding, index construction and index lookup: no code in the package fills or reads `Header`, `Index`, `CompressionAlgorithm`, `Checksum` or `FileHandle`. The records exist only as data types.
- Error message text: only the kind of each error is kept.
- The deferred close in `Open` ignores its own error. The model discards it too.
- Go's panics are excluded by preconditions, not modelled as outcomes. These are a negative size in `Read` once the seek has succeeded, and a nil `*ZimFile` receiver.
- ZimgoProperties.ReadSplits: the long read follows from the two short ones only up to `1<<30` bytes. A longer read always fails because of the per-read cap.
- Zimgo.Read: does not model the panic or out-of-memory failure of `make([]byte, size)` when `size` is above the Go runtime's allocation limit (1<<48 on linux/amd64). The model allocates any size up to the `int64` maximum and then reports the short read as an error value. The limit is a property of the runtime, not of the package.
- Zimgo.Open: `os.Open` and the first `Read` can fail in ways the filesystem model has no place for: permission denied, too many open files, or a path naming a directory, which `os.Open` opens but `Read` rejects with EISDIR. Go passes each of these errors through unchanged. The model's filesystem holds only readable regular files, so an unknown path is the only way `os.Open` fails, and success depends on the signature alone.
- Aliasing of descriptors: in Go, `File` and `FileHandle` are `*os.File` pointers. Two handles, or both fields of one handle, can share one descriptor, so closing it through one makes reads through the other fail with `os.ErrClosed`. The value model gives each field its own copy and cannot express this sharing.
- Integer width: Go's `int` is modelled as 64 bits wide. On 32-bit targets such as 386 and arm it is 32 bits, and `size` would be bounded accordingly.
