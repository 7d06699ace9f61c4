/** Shared vocabulary: Go strings as byte sequences, failure-carrying results and
    the error values the client surfaces. */
module GoBase {

  /** One byte of a Go string. A Go string is a sequence of bytes, and the file-id
      parser splits by byte position, so every element stands for exactly one byte. */
  type Byte = c: char | c as int < 0x100

  /** A Go `string`, byte by byte. */
  type GoString = seq<Byte>

  datatype Option<+T> = None | Some(value: T)

  datatype Result<+T, +E> = Success(value: T) | Failure(error: E)

  /** The `Err` field of a `*strconv.NumError`. */
  datatype NumErrorKind = ErrSyntax | ErrRange

  /** The error values that reach a caller of the client. */
  datatype Error =
    | Text(msg: GoString)                                     // errors.New(msg)
    | NumError(fn: GoString, num: GoString, kind: NumErrorKind)  // *strconv.NumError
    | LocationNotFound                                        // ErrVolumeLocationNotFound
    | Transport(msg: GoString)                                // HTTP or JSON decoding failure

  /** `url.Values` restricted to `Set`: every key carries exactly one value. */
  type Query = map<GoString, GoString>

  /** An HTTP GET to the directory service: the master's address (`Host`), a path
      and its query arguments. The scheme is always `http` and is not kept. */
  datatype Request = Get(host: GoString, path: GoString, query: Query)
}
