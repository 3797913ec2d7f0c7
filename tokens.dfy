/** The token vocabulary of the QML lexer (doxyqml/lexer.py). */
module Tokens {

  /** The closed set of token types, one per constant at the top of lexer.py. */
  datatype TokenType =
    | Comment        // "comment"
    | IComment       // "inline_comment"
    | StringLit      // "string"
    | Element        // "element"
    | BlockStart     // "block_start"
    | BlockEnd       // "block_end"
    | ArrayStart     // "array_start"
    | ArrayEnd       // "array_end"
    | Char           // "char"
    | Keyword        // "keyword"
    | Import         // "import"
    | Pragma         // "pragma"
    | Component      // "component"
    | IComponent     // "inline_component"
    | Attribute      // "attribute"
    | Ellipses       // "ellipses"

  /** A token: its type, its text, the offset where its match began and the
      column of that offset. */
  datatype Token = Token(kind: TokenType, value: string, idx: nat, column: nat)

  // PLAIN_COMMENT_RX, `/[/*][^/!*]`, matched at the start of a comment: an
  // ordinary `//` or `/*` comment whose third character is not a doc marker.
  predicate IsPlainComment(value: string) {
    |value| >= 3 && value[0] == '/' && (value[1] == '/' || value[1] == '*')
    && value[2] != '/' && value[2] != '!' && value[2] != '*'
  }

  /** `is_doxy_comment_token`: a COMMENT token that is not plain. */
  predicate IsDoxyCommentToken(t: Token) {
    t.kind == Comment && !IsPlainComment(t.value)
  }

  // For the comments the lexer produces, which open with two slashes or
  // with slash-star, the third character decides: a doc marker ('/', '!' or
  // '*'), or nothing at all, makes a doc comment.  So the empty block comment
  // (slash, star, star, slash) is a doc comment too.  No token of another
  // type is one.
  lemma DoxyCommentMarkers(t: Token)
    ensures t.kind != Comment ==> !IsDoxyCommentToken(t)
    ensures t.kind == Comment && |t.value| >= 2 && t.value[0] == '/' && (t.value[1] == '/' || t.value[1] == '*') ==>
              (IsDoxyCommentToken(t) <==> |t.value| == 2 || t.value[2] in "/!*")
  {
  }
}
