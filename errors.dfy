/** The small error vocabulary of the codec and the Go-style "error or nil" result. */
module Errors {

  /** The conventional optional value. */
  datatype Option<+T> = None | Some(value: T)

  /** The kinds of error the codec can report.
      - Eof: the reader ran out of bytes (Go's io.EOF, propagated unchanged).
      - InvalidHeader: ErrInvalidProtocolHeader, alone or wrapped. When the input is
        shorter than the signature, the source wraps io.EOF into the same error; the
        model keeps only this kind.
      - BadNumber: the syntax or range error of strconv.ParseUint.
      - Unimplemented: the panic("TODO") of the version 2 encoder. */
  datatype Error = Eof | InvalidHeader | BadNumber | Unimplemented

  /** A Go `error` value: nil (Pass) or an error of some kind. */
  datatype Outcome = Pass | Fail(error: Error)
}
