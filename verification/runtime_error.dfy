/** The error raised while interpreting: the offending token and a message. */
module RuntimeErrors {
  import opened Tokens

  datatype RuntimeError = RuntimeError(token: Token, message: string)
}
