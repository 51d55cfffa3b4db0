/** SocketTLS: what a result of the TLS library means for a read, a write or a handshake. */
module TLS {
  // SocketTLS::Code
  datatype TlsCode = TlsMemory | TlsFailure | TlsUnknown | TlsSuccess | TlsRetry | TlsShutdown | WaitIn | WaitOut

  // What SSL_get_error says of a call.
  datatype SslError =
    | ErrorNone
    | ErrorZeroReturn
    | ErrorWantRead
    | ErrorWantWrite
    | ErrorSyscall
    | ErrorSsl
    | ErrorOther

  // Whether bytes were processed and remain, and whether a system call failed in a way that calls for a retry.
  function InterpretLibCode(error: SslError, again: bool, processed: bool, remaining: bool): TlsCode {
    match error
    case ErrorNone => if processed then (if remaining then TlsRetry else TlsSuccess) else TlsShutdown
    case ErrorZeroReturn => TlsShutdown
    case ErrorWantRead => WaitIn
    case ErrorWantWrite => WaitOut
    case ErrorSyscall => if again then TlsRetry else if processed then TlsFailure else TlsShutdown
    case ErrorSsl => TlsFailure
    case ErrorOther => TlsUnknown
  }
}
