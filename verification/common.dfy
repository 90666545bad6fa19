/**
  Shared vocabulary of the model: Go's fixed-width integers and bytes, the
  error kinds the package can return, and the Option/Result wrappers that
  stand for Go's nil pointers and `(value, error)` return pairs.
 */
module Common {

  /** Go's `byte`. */
  type byte = bv8

  /** Go's `int64`. Also used for Go's `int`, assuming a 64-bit platform. */
  newtype int64 = x: int | -0x8000_0000_0000_0000 <= x < 0x8000_0000_0000_0000

  /** Go's `uint32`. */
  newtype uint32 = x: int | 0 <= x < 0x1_0000_0000

  /** A Go pointer or map that may be nil. */
  datatype Option<+T> = None | Some(value: T)

  /** The error kinds the package can return. Go's error values are strings
      or wrapped syscall errors; only their kind is kept. */
  datatype Error =
    | NotExist(path: string)  // os.Open on a path that names no file
    | ErrInvalid              // os.ErrInvalid: any operation on a nil *os.File
    | ErrClosed               // any operation on an os.File that is already closed
    | InvalidSeek             // lseek with a negative resulting offset (EINVAL)
    | Eof                     // io.EOF: a read that found no byte at all
    | InvalidFormat           // "invalid zim file format"
    | UnexpectedEof           // "unexpected end of the file": a short read

  /** A Go `(value, error)` pair in which exactly one side is meaningful. */
  datatype Result<+T> = Ok(value: T) | Err(error: Error)

  function Min(a: int, b: int): (m: int)
    ensures m <= a && m <= b
    ensures m == a || m == b
  {
    if a <= b then a else b
  }

  /** Go's `make([]byte, n)`: a fresh buffer of `n` zero bytes. */
  function Zeros(n: nat): (z: seq<byte>)
    ensures |z| == n
    ensures forall i :: 0 <= i < n ==> z[i] == 0
  {
    if n == 0 then [] else Zeros(n - 1) + [0]
  }
}
