/** Lexical tokens: the token kinds and the immutable token record. */
module Tokens {
  import opened Values

  datatype TokenType =
    // single-character punctuation
    | LeftParen | RightParen | LeftBrace | RightBrace
    | Comma | Dot | Minus | Plus | Semicolon | Slash | Star
    // one- or two-character operators
    | Bang | BangEqual | Equal | EqualEqual
    | Greater | GreaterEqual | Less | LessEqual
    // literals
    | Identifier | StringLit | NumberLit
    // keywords
    | KwAnd | KwClass | KwElse | KwFalse | KwFun | KwFor | KwIf | KwNil
    | KwOr | KwPrint | KwReturn | KwSuper | KwThis | KwTrue | KwVar | KwWhile
    // end of input
    | Eof

  /** A token: its kind, the exact source slice it was scanned from, the decoded
      literal (nil when there is none) and the line it ends on. */
  datatype Token = Token(kind: TokenType, lexeme: string, literal: Value, line: nat)
}
