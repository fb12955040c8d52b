/** Records and constants shared by the directory-digest pipeline (types.go). */
module Types {

  /** One byte; Go strings and file contents are sequences of these. */
  newtype byte = b: int | 0 <= b < 256

  /** A Go `string` or `[]byte`: Go strings are immutable byte sequences. */
  type Bytes = seq<byte>

  datatype Option<T> = None | Some(value: T)

  /** An `error` value; only whether it is present and its identity matter here. */
  datatype Error = Error(message: Bytes)

  /** Size of the read buffer used while hashing one file (64 KiB). */
  const BufferSize: nat := 64 * 1024

  /** `File`: a file name together with the path of the directory holding it. */
  datatype File = File(path: Bytes, name: Bytes)

  /** `FileHash`: the outcome of hashing one file; `error` is `None` for `nil`. */
  datatype FileHash = FileHash(file: File, hash: Bytes, error: Option<Error>)

  /** A hash algorithm followed by hex encoding: it maps the whole stream written
      into a fresh hasher to the hex digest that `hex.EncodeToString(h.Sum(nil))`
      yields. The algorithms themselves (SHA-256, BLAKE2b-256) are not modelled. */
  type HashAlgorithm = Bytes -> Bytes
}
