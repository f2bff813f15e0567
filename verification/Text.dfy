// The text tests of the source's string library that the model needs.
module Text {
  predicate Whitespace(c: char) {
    || '\t' <= c <= '\r'
    || '\U{2000}' <= c <= '\U{200A}'
    || c in [' ', '\U{85}', '\U{A0}', '\U{1680}', '\U{2028}', '\U{2029}', '\U{202F}', '\U{205F}', '\U{3000}']
  }

  // Among ASCII characters these six are white space.
  lemma AsciiWhitespace(c: char)
    requires c < '\U{80}'
    ensures Whitespace(c) <==> c in [' ', '\t', '\n', '\r', '\U{B}', '\U{C}']
  {
  }

  predicate Blank(name: string) {
    forall c :: c in name ==> Whitespace(c)
  }
}
