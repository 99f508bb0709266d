/** The token type that the lexer produces and every later stage of the SQL source census reads. */
module RustTokens {

  datatype Kind = Punct | Str | Chr | Ident

  datatype Token = Token(kind: Kind, text: string, value: string, line: nat, column: nat)

  /** The token is the one-character punctuation `c`. */
  predicate Is(t: Token, c: char) {
    t.text == [c]
  }

  predicate Opens(t: Token)
    ensures Opens(t) ==> !Closes(t)
  {
    Is(t, '(') || Is(t, '[') || Is(t, '{')
  }

  predicate Closes(t: Token) {
    Is(t, ')') || Is(t, ']') || Is(t, '}')
  }
}
