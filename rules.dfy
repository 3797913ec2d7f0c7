/** The lexer's two ordered rule tables (doxyqml/lexer.py:51-78).

    Every regular expression of the source becomes a hand-written matcher that,
    at offset `i`, either fails or returns the span of the token's value: capture
    group 1 when the expression has one, otherwise the whole match.  The value's
    end is where the lexer continues. */
module Rules {
  import opened Text
  import opened Tokens

  /** The span `[start, end)` of a token's value. */
  datatype Lexeme = Lexeme(start: nat, end: nat)

  /** A value span of a match at `i`: it starts at or after `i`, is non-empty
      and lies inside the text. */
  predicate Progresses(t: string, i: nat, r: Option<Lexeme>) {
    r.Some? ==> i <= r.value.start < r.value.end <= |t|
  }

  /** `[-\w\.]` */
  predicate IsNameChar(c: char) {
    c == '-' || c == '.' || IsWordChar(c)
  }

  /** `[\w.<>]` */
  predicate IsElementChar(c: char) {
    c == '.' || c == '<' || c == '>' || IsWordChar(c)
  }

  /** `component ([-\w\.]+)\s*`: the value is the name after "component ". */
  function MatchInlineComponent(t: string, i: nat): (r: Option<Lexeme>)
    requires i <= |t|
    ensures Progresses(t, i, r)
    ensures r.Some? <==> StartsAt(t, i, "component ") && i + 10 < |t| && IsNameChar(t[i + 10])
    ensures r.Some? ==> r.value.start == i + 10
    ensures r.Some? ==> forall k :: r.value.start <= k < r.value.end ==> IsNameChar(t[k])
    ensures r.Some? ==> r.value.end == |t| || !IsNameChar(t[r.value.end])
  {
    if StartsAt(t, i, "component ") && i + 10 < |t| && IsNameChar(t[i + 10]) then
      Some(Lexeme(i + 10, SpanWhile(t, i + 10, IsNameChar)))
    else None
  }

  /** The text at `i` is a name `[i, e)`, whitespace `[e, w)`, then `closer` at `w`. */
  ghost predicate NameThenCloser(t: string, i: nat, e: nat, w: nat, closer: char) {
    i < e <= w < |t| && t[w] == closer
    && (forall k :: i <= k < e ==> IsNameChar(t[k]))
    && (forall k :: e <= k < w ==> IsSpace(t[k]))
  }

  /** `([-\w\.]+)\s*{` (closer '{') and `([-\w\.]+)\s*:` (closer ':'): a name,
      optional whitespace, then the closer; the value is the name. */
  function MatchNameBefore(t: string, i: nat, closer: char): (r: Option<Lexeme>)
    requires i <= |t|
    requires !IsNameChar(closer) && !IsSpace(closer)
    ensures Progresses(t, i, r)
    ensures r.Some? <==> exists e, w :: NameThenCloser(t, i, e, w, closer)
    ensures r.Some? ==> r.value.start == i
                        && NameThenCloser(t, i, r.value.end, SpanWhile(t, r.value.end, IsSpace), closer)
  {
    var e := SpanWhile(t, i, IsNameChar);
    var w := SpanWhile(t, e, IsSpace);
    if e > i && w < |t| && t[w] == closer then
      assert NameThenCloser(t, i, e, w, closer);
      Some(Lexeme(i, e))
    else
      NameThenCloserUnique(t, i, e, w, closer);
      None
  }

  /** Greedy matching of the name and the whitespace is the only way to match. */
  lemma NameThenCloserUnique(t: string, i: nat, e: nat, w: nat, closer: char)
    requires !IsNameChar(closer) && !IsSpace(closer)
    requires i <= e <= w <= |t|
    requires e == SpanWhile(t, i, IsNameChar) && w == SpanWhile(t, e, IsSpace)
    ensures forall e': nat, w': nat :: NameThenCloser(t, i, e', w', closer) ==> e' == e && w' == w
  {
    forall e': nat, w': nat | NameThenCloser(t, i, e', w', closer)
      ensures e' == e && w' == w
    {
      assert !IsNameChar(t[e']);
      SpanWhileIsLongestRun(t, i, IsNameChar, e');
      SpanWhileIsLongestRun(t, e', IsSpace, w');
    }
  }

  // The first offset `p >= from` where "*" "/" occurs (the lazy `.*?\*/`).
  function FindClose(t: string, from: nat): (r: Option<nat>)
    requires from <= |t|
    ensures r.Some? ==> from <= r.value && StartsAt(t, r.value, "*/")
    ensures forall p :: from <= p && (r.None? || p < r.value) ==> !StartsAt(t, p, "*/")
    decreases |t| - from
  {
    if from + 2 > |t| then None
    else if t[from] == '*' && t[from + 1] == '/' then Some(from)
    else FindClose(t, from + 1)
  }

  /** The opener `/\*[!*]<` (inline) or `/\*` at `i`. */
  predicate BlockOpener(t: string, i: nat, inline: bool) {
    StartsAt(t, i, "/*") && (inline ==> i + 3 < |t| && t[i + 2] in "!*" && t[i + 3] == '<')
  }

  function OpenerLength(inline: bool): nat {
    if inline then 4 else 2
  }

  // Inline block comment `/\*[!*]<.*?\*/` (inline) and block comment
  // `/\*.*?\*/`, both with DOTALL: the opener, then everything up to the first
  // closing star-slash after it.
  function MatchBlockComment(t: string, i: nat, inline: bool): (r: Option<Lexeme>)
    requires i <= |t|
    ensures Progresses(t, i, r)
    ensures r.Some? <==> BlockOpener(t, i, inline) && exists p :: i + OpenerLength(inline) <= p && StartsAt(t, p, "*/")
    ensures r.Some? ==> r.value.start == i && r.value.end >= i + OpenerLength(inline) + 2
    ensures r.Some? ==> StartsAt(t, r.value.end - 2, "*/")
    ensures r.Some? ==> forall p :: i + OpenerLength(inline) <= p < r.value.end - 2 ==> !StartsAt(t, p, "*/")
  {
    if BlockOpener(t, i, inline) then
      match FindClose(t, i + OpenerLength(inline))
      case Some(p) => Some(Lexeme(i, p + 2))
      case None => None
    else None
  }

  /** The start of one `//` line of a comment run: "//", and for the inline
      form also `[/!]<`. */
  predicate LineCommentHead(t: string, b: nat, inline: bool) {
    StartsAt(t, b, "//") && (inline ==> b + 3 < |t| && (t[b + 2] == '/' || t[b + 2] == '!') && t[b + 3] == '<')
  }

  function HeadLength(inline: bool): nat {
    if inline then 4 else 2
  }

  // The line after the newline at `e` continues a comment run:
  // `\n[ \t]*//...`.
  predicate Continues(t: string, e: nat, inline: bool)
    requires e <= |t|
  {
    e < |t| && t[e] == '\n' && LineCommentHead(t, SpanWhile(t, e + 1, IsBlank), inline)
  }

  /** No character of a comment line's head is a newline. */
  lemma HeadHasNoNewline(t: string, b: nat, inline: bool)
    requires LineCommentHead(t, b, inline)
    ensures b + HeadLength(inline) <= |t|
    ensures forall k :: b <= k < b + HeadLength(inline) ==> t[k] != '\n'
  {
    assert t[b..b + 2] == "//";
    assert t[b] == t[b..b + 2][0] && t[b + 1] == t[b..b + 2][1];
  }

  // The greedy repetition `(?:\n[ \t]*//[^\n]*)*` starting at a line end `e`:
  // every newline it passes starts a further comment line, and it stops at
  // the first line end that does not.
  function RunEnd(t: string, e: nat, inline: bool): (r: nat)
    requires e <= |t|
    requires e == |t| || t[e] == '\n'
    ensures e <= r <= |t|
    ensures r == |t| || t[r] == '\n'
    ensures !Continues(t, r, inline)
    ensures forall k :: e <= k < r && t[k] == '\n' ==> Continues(t, k, inline)
    decreases |t| - e
  {
    if Continues(t, e, inline) then
      var b := SpanWhile(t, e + 1, IsBlank);
      HeadHasNoNewline(t, b, inline);
      var next := LineEnd(t, b + HeadLength(inline));
      assert forall k :: e < k < next ==> t[k] != '\n' by {
        forall k | e < k < next
          ensures t[k] != '\n'
        {
          if k < b {
            assert IsBlank(t[k]);
          }
        }
      }
      RunEnd(t, next, inline)
    else e
  }

  // Inline line-comment run `//[/!]<[^\n]*(?:\n[ \t]*//[/!]<[^\n]*)*` and
  // line-comment run `//[^\n]*(?:\n[ \t]*//[^\n]*)*`: consecutive comment
  // lines merged into one token, ending at the first line end that no further
  // comment line continues.
  function MatchLineComment(t: string, i: nat, inline: bool): (r: Option<Lexeme>)
    requires i <= |t|
    ensures Progresses(t, i, r)
    ensures r.Some? <==> LineCommentHead(t, i, inline)
    ensures r.Some? ==> r.value.start == i && r.value.end >= i + HeadLength(inline)
    ensures r.Some? ==> r.value.end == |t| || t[r.value.end] == '\n'
    ensures r.Some? ==> !Continues(t, r.value.end, inline)
    ensures r.Some? ==> forall k :: i <= k < r.value.end && t[k] == '\n' ==> Continues(t, k, inline)
  {
    if LineCommentHead(t, i, inline) then
      HeadHasNoNewline(t, i, inline);
      Some(Lexeme(i, RunEnd(t, LineEnd(t, i + HeadLength(inline)), inline)))
    else None
  }

  /** `([^\\q]|(\\.))*` spells `t[j..e]`: characters other than a backslash
      and the quote `q`, or a backslash and any character but a newline. */
  ghost predicate StringBody(t: string, j: nat, e: nat, q: char)
    requires j <= e <= |t|
    decreases e - j
  {
    j == e
    || (t[j] != '\\' && t[j] != q && StringBody(t, j + 1, e, q))
    || (j + 2 <= e && t[j] == '\\' && t[j + 1] != '\n' && StringBody(t, j + 2, e, q))
  }

  /** The body of a string literal from `j` on, and its closing quote: the
      offset after the quote, which is unique, or nothing when no body is
      followed by the quote. */
  function StringEnd(t: string, j: nat, q: char): (r: Option<nat>)
    requires j <= |t|
    requires q != '\\'
    ensures r.Some? ==> j < r.value <= |t| && t[r.value - 1] == q && StringBody(t, j, r.value - 1, q)
    ensures forall e :: j <= e < |t| && t[e] == q && StringBody(t, j, e, q) ==> r == Some(e + 1)
    decreases |t| - j
  {
    if j == |t| then None
    else if t[j] == q then Some(j + 1)
    else if t[j] == '\\' then
      if j + 1 < |t| && t[j + 1] != '\n' then StringEnd(t, j + 2, q) else None
    else StringEnd(t, j + 1, q)
  }

  predicate IsQuote(c: char) {
    c == '"' || c == '\'' || c == '`'
  }

  /** `("([^\\"]|(\\.))*"|'...'|`...`)`: group 1 is the whole literal, closed
      by the same quote character that opened it. */
  function MatchString(t: string, i: nat): (r: Option<Lexeme>)
    requires i <= |t|
    ensures Progresses(t, i, r)
    ensures r.Some? <==> i < |t| && IsQuote(t[i])
                         && exists e :: i + 1 <= e < |t| && t[e] == t[i] && StringBody(t, i + 1, e, t[i])
    ensures r.Some? ==> r.value.start == i && r.value.end >= i + 2
    ensures r.Some? ==> t[r.value.end - 1] == t[i] && StringBody(t, i + 1, r.value.end - 1, t[i])
  {
    if i < |t| && IsQuote(t[i]) then
      match StringEnd(t, i + 1, t[i])
      case Some(e) => Some(Lexeme(i, e))
      case None => None
    else None
  }

  /** A one-character delimiter.  With `guarded`, the character may have a
      single quote neither just before it nor just after it
      (`(?<!')\{(?!')`; the look-behind sees the text before `i`). */
  function MatchDelimiter(t: string, i: nat, c: char, guarded: bool): (r: Option<Lexeme>)
    requires i <= |t|
    ensures Progresses(t, i, r)
    ensures r.Some? <==> i < |t| && t[i] == c
                         && (guarded ==> (i == 0 || t[i - 1] != '\'') && (i + 1 == |t| || t[i + 1] != '\''))
    ensures r.Some? ==> r.value == Lexeme(i, i + 1)
  {
    if i < |t| && t[i] == c
       && (guarded ==> (i == 0 || t[i - 1] != '\'') && (i + 1 == |t| || t[i + 1] != '\''))
    then Some(Lexeme(i, i + 1))
    else None
  }

  /** `import\s+.*` (no `word` argument) and `pragma\s+\w.*` (`word`): the
      keyword, the longest whitespace run after it (which may span lines),
      then the rest of that line.  Giving back whitespace never helps `\w`. */
  function MatchDirective(t: string, i: nat, keyword: string, word: bool): (r: Option<Lexeme>)
    requires i <= |t|
    requires |keyword| > 0
    ensures Progresses(t, i, r)
    ensures r.Some? <==> StartsAt(t, i, keyword) && i + |keyword| < |t| && IsSpace(t[i + |keyword|])
                         && (word ==> var w := SpanWhile(t, i + |keyword|, IsSpace); w < |t| && IsWordChar(t[w]))
    ensures r.Some? ==> r.value == Lexeme(i, LineEnd(t, SpanWhile(t, i + |keyword|, IsSpace)))
    ensures r.Some? ==> r.value.end == |t| || t[r.value.end] == '\n'
  {
    if StartsAt(t, i, keyword) && i + |keyword| < |t| && IsSpace(t[i + |keyword|]) then
      var w := SpanWhile(t, i + |keyword|, IsSpace);
      if word && !(w < |t| && IsWordChar(t[w])) then None
      else Some(Lexeme(i, LineEnd(t, w)))
    else None
  }

  /** `s` is `modifier`, a non-empty whitespace run, then "property". */
  predicate ModifiedText(s: string, modifier: string) {
    |modifier| + 8 < |s| && s[..|modifier|] == modifier && s[|s| - 8..] == "property"
    && forall k :: |modifier| <= k < |s| - 8 ==> IsSpace(s[k])
  }

  /** `s` is spelled by `default\s+property|property|readonly\s+property|signal|enum`. */
  predicate KeywordText(s: string) {
    s == "property" || s == "signal" || s == "enum"
    || ModifiedText(s, "default") || ModifiedText(s, "readonly")
  }

  /** `ModifiedText` of a slice, stated on the text itself. */
  lemma ModifiedTextAt(t: string, i: nat, e: nat, modifier: string)
    requires i <= e <= |t|
    ensures ModifiedText(t[i..e], modifier)
            <==> i + |modifier| + 8 < e && StartsAt(t, i, modifier) && StartsAt(t, e - 8, "property")
                 && forall k :: i + |modifier| <= k < e - 8 ==> IsSpace(t[k])
  {
    var s := t[i..e];
    if i + |modifier| + 8 < e {
      assert s[..|modifier|] == t[i..i + |modifier|];
      assert s[|s| - 8..] == t[e - 8..e];
      assert forall k :: |modifier| <= k < |s| - 8 ==> s[k] == t[i + k];
    }
  }

  /** `modifier\s+property`: the end of the keyword text, which is unique, or
      nothing. */
  function ModifiedProperty(t: string, i: nat, modifier: string): (r: Option<nat>)
    requires i <= |t|
    ensures r.Some? ==> i < r.value <= |t| && ModifiedText(t[i..r.value], modifier)
    ensures forall e :: i <= e <= |t| && ModifiedText(t[i..e], modifier) ==> r == Some(e)
  {
    ModifiedPropertyComplete(t, i, modifier);
    if StartsAt(t, i, modifier) && i + |modifier| < |t| && IsSpace(t[i + |modifier|]) then
      var w := SpanWhile(t, i + |modifier|, IsSpace);
      if StartsAt(t, w, "property") then
        ModifiedTextAt(t, i, w + 8, modifier);
        Some(w + 8)
      else None
    else None
  }

  /** A modified-property text ending at `e` is the one the longest
      whitespace run after the modifier leads to. */
  lemma ModifiedPropertyComplete(t: string, i: nat, modifier: string)
    requires i <= |t|
    ensures forall e :: i <= e <= |t| && ModifiedText(t[i..e], modifier) ==>
              StartsAt(t, i, modifier) && IsSpace(t[i + |modifier|])
              && SpanWhile(t, i + |modifier|, IsSpace) == e - 8 && StartsAt(t, e - 8, "property")
  {
    forall e | i <= e <= |t| && ModifiedText(t[i..e], modifier)
      ensures StartsAt(t, i, modifier) && IsSpace(t[i + |modifier|])
              && SpanWhile(t, i + |modifier|, IsSpace) == e - 8 && StartsAt(t, e - 8, "property")
    {
      ModifiedTextAt(t, i, e, modifier);
      assert t[e - 8] == t[e - 8..e][0];
      SpanWhileIsLongestRun(t, i + |modifier|, IsSpace, e - 8);
    }
  }

  /** Two words that differ in their first character cannot both start at `i`. */
  lemma StartsDiffer(t: string, i: nat, a: string, b: string)
    requires |a| > 0 && |b| > 0 && a[0] != b[0]
    requires StartsAt(t, i, a)
    ensures !StartsAt(t, i, b)
  {
    assert t[i] == t[i..i + |a|][0];
  }

  /** The end of group 1 of
      `(default\s+property|property|readonly\s+property|signal|enum)`: the
      group is the unique keyword text at `i`, or nothing. */
  function DeclKeywordEnd(t: string, i: nat): (r: Option<nat>)
    requires i <= |t|
    ensures r.Some? ==> i < r.value <= |t| && KeywordText(t[i..r.value])
    ensures forall e :: i <= e <= |t| && KeywordText(t[i..e]) ==> r == Some(e)
  {
    forall e | i <= e <= |t| && KeywordText(t[i..e])
      ensures DeclKeywordEndAt(t, i, e)
    {
      DeclKeywordComplete(t, i, e);
    }
    if StartsAt(t, i, "default") then ModifiedProperty(t, i, "default")
    else if StartsAt(t, i, "property") then Some(i + 8)
    else if StartsAt(t, i, "readonly") then ModifiedProperty(t, i, "readonly")
    else if StartsAt(t, i, "signal") then Some(i + 6)
    else if StartsAt(t, i, "enum") then Some(i + 4)
    else None
  }

  /** Which branch of `DeclKeywordEnd` a keyword text ending at `e` takes. */
  predicate DeclKeywordEndAt(t: string, i: nat, e: nat)
    requires i <= e <= |t|
  {
    if StartsAt(t, i, "default") then ModifiedText(t[i..e], "default")
    else if StartsAt(t, i, "property") then e == i + 8
    else if StartsAt(t, i, "readonly") then ModifiedText(t[i..e], "readonly")
    else if StartsAt(t, i, "signal") then e == i + 6
    else StartsAt(t, i, "enum") && e == i + 4
  }

  /** The alternatives of the group start with five different letters, so a
      keyword text is found by the branch for its first letter. */
  lemma DeclKeywordComplete(t: string, i: nat, e: nat)
    requires i <= e <= |t| && KeywordText(t[i..e])
    ensures DeclKeywordEndAt(t, i, e)
  {
    var s := t[i..e];
    assert |s| > 0 && t[i] == s[0];
    if s == "property" {
      assert StartsAt(t, i, "property");
      StartsDiffer(t, i, "property", "default");
    } else if s == "signal" {
      assert StartsAt(t, i, "signal");
      StartsDiffer(t, i, "signal", "default");
      StartsDiffer(t, i, "signal", "property");
      StartsDiffer(t, i, "signal", "readonly");
    } else if s == "enum" {
      assert StartsAt(t, i, "enum");
      StartsDiffer(t, i, "enum", "default");
      StartsDiffer(t, i, "enum", "property");
      StartsDiffer(t, i, "enum", "readonly");
      StartsDiffer(t, i, "enum", "signal");
    } else if ModifiedText(s, "default") {
      assert s[..7] == t[i..i + 7];
    } else {
      assert s[..8] == t[i..i + 8];
      assert StartsAt(t, i, "readonly");
      StartsDiffer(t, i, "readonly", "default");
      StartsDiffer(t, i, "readonly", "property");
    }
  }

  /** `(default\s+property|property|readonly\s+property|signal|enum)\s+`: the
      value is group 1, which must be followed by whitespace; the regex engine
      cannot give back a shorter group that would be followed by whitespace. */
  function MatchDeclKeyword(t: string, i: nat): (r: Option<Lexeme>)
    requires i <= |t|
    ensures Progresses(t, i, r)
    ensures r.Some? ==> r.value.start == i && r.value.end < |t| && IsSpace(t[r.value.end])
    ensures r.Some? ==> KeywordText(t[i..r.value.end])
    ensures forall e :: i <= e < |t| && KeywordText(t[i..e]) && IsSpace(t[e]) ==> r == Some(Lexeme(i, e))
  {
    match DeclKeywordEnd(t, i)
    case Some(e) => if e < |t| && IsSpace(t[e]) then Some(Lexeme(i, e)) else None
    case None => None
  }

  /** `(function)\s+[^(]`: "function", at least one whitespace character, then
      any character that is not an opening parenthesis.  The regex engine may
      give back whitespace, so two whitespace characters before '(' match too. */
  function MatchFunctionKeyword(t: string, i: nat): (r: Option<Lexeme>)
    requires i <= |t|
    ensures Progresses(t, i, r)
    ensures r.Some? ==> r.value == Lexeme(i, i + 8) && t[i..i + 8] == "function"
    ensures r.Some? <==> StartsAt(t, i, "function") && FollowedBySpacesThenNotParen(t, i + 8)
  {
    if StartsAt(t, i, "function") then
      var w := SpanWhile(t, i + 8, IsSpace);
      FunctionTailBacktracks(t, i + 8, w);
      if w > i + 8 && ((w < |t| && t[w] != '(') || w - (i + 8) >= 2) then Some(Lexeme(i, i + 8))
      else None
    else None
  }

  /** `\s+[^(]` matches at `j`: some number `n >= 1` of whitespace characters
      followed by a character other than '('. */
  ghost predicate FollowedBySpacesThenNotParen(t: string, j: nat) {
    exists n :: SpacesThenNotParen(t, j, n)
  }

  ghost predicate SpacesThenNotParen(t: string, j: nat, n: nat) {
    1 <= n && j + n < |t| && (forall k :: j <= k < j + n ==> IsSpace(t[k])) && t[j + n] != '('
  }

  /** The backtracking of `\s+[^(]`: with `w` the end of the longest
      whitespace run at `j`, a match exists iff the run is non-empty and either
      the character at `w` is not '(' or the run has two characters or more. */
  lemma FunctionTailBacktracks(t: string, j: nat, w: nat)
    requires j <= w <= |t|
    requires forall k :: j <= k < w ==> IsSpace(t[k])
    requires w == |t| || !IsSpace(t[w])
    ensures FollowedBySpacesThenNotParen(t, j)
            <==> w > j && ((w < |t| && t[w] != '(') || w - j >= 2)
  {
    if w > j && w < |t| && t[w] != '(' {
      assert SpacesThenNotParen(t, j, w - j);
    } else if w - j >= 2 {
      assert IsSpace(t[w - 1]);
      assert SpacesThenNotParen(t, j, w - j - 1);
    }
  }

  /** `\w[\w.<>]*` */
  function MatchElement(t: string, i: nat): (r: Option<Lexeme>)
    requires i <= |t|
    ensures Progresses(t, i, r)
    ensures r.Some? <==> i < |t| && IsWordChar(t[i])
    ensures r.Some? ==> r.value.start == i
    ensures r.Some? ==> forall k :: i < k < r.value.end ==> IsElementChar(t[k])
    ensures r.Some? ==> r.value.end == |t| || !IsElementChar(t[r.value.end])
  {
    if i < |t| && IsWordChar(t[i]) then Some(Lexeme(i, SpanWhile(t, i + 1, IsElementChar))) else None
  }

  /** `.`: any character but a newline. */
  function MatchAnyChar(t: string, i: nat): (r: Option<Lexeme>)
    requires i <= |t|
    ensures Progresses(t, i, r)
    ensures r.Some? <==> i < |t| && t[i] != '\n'
    ensures r.Some? ==> r.value == Lexeme(i, i + 1)
  {
    if i < |t| && t[i] != '\n' then Some(Lexeme(i, i + 1)) else None
  }

  /** One entry of a rule table. */
  datatype Rule =
    | InlineComponentRule | ComponentRule | AttributeRule
    | InlineBlockCommentRule | InlineLineCommentRule | BlockCommentRule | LineCommentRule
    | StringRule | BlockStartRule | BlockEndRule | ArrayStartRule | ArrayEndRule
    | ImportRule | PragmaRule | DeclKeywordRule | FunctionKeywordRule
    | EllipsesRule | ElementRule | CharRule

  /** The token type each rule emits. */
  function KindOf(rule: Rule): TokenType {
    match rule
    case InlineComponentRule => IComponent
    case ComponentRule => Component
    case AttributeRule => Attribute
    case InlineBlockCommentRule => IComment
    case InlineLineCommentRule => IComment
    case BlockCommentRule => Comment
    case LineCommentRule => Comment
    case StringRule => StringLit
    case BlockStartRule => BlockStart
    case BlockEndRule => BlockEnd
    case ArrayStartRule => ArrayStart
    case ArrayEndRule => ArrayEnd
    case ImportRule => Import
    case PragmaRule => Pragma
    case DeclKeywordRule => Keyword
    case FunctionKeywordRule => Keyword
    case EllipsesRule => Ellipses
    case ElementRule => Element
    case CharRule => Char
  }

  function MatchRule(rule: Rule, t: string, i: nat): (r: Option<Lexeme>)
    requires i <= |t|
    ensures Progresses(t, i, r)
  {
    match rule
    case InlineComponentRule => MatchInlineComponent(t, i)
    case ComponentRule => MatchNameBefore(t, i, '{')
    case AttributeRule => MatchNameBefore(t, i, ':')
    case InlineBlockCommentRule => MatchBlockComment(t, i, true)
    case InlineLineCommentRule => MatchLineComment(t, i, true)
    case BlockCommentRule => MatchBlockComment(t, i, false)
    case LineCommentRule => MatchLineComment(t, i, false)
    case StringRule => MatchString(t, i)
    case BlockStartRule => MatchDelimiter(t, i, '{', true)
    case BlockEndRule => MatchDelimiter(t, i, '}', true)
    case ArrayStartRule => MatchDelimiter(t, i, '[', false)
    case ArrayEndRule => MatchDelimiter(t, i, ']', false)
    case ImportRule => MatchDirective(t, i, "import", false)
    case PragmaRule => MatchDirective(t, i, "pragma", true)
    case DeclKeywordRule => MatchDeclKeyword(t, i)
    case FunctionKeywordRule => MatchFunctionKeyword(t, i)
    case EllipsesRule => if StartsAt(t, i, "...") then Some(Lexeme(i, i + 3)) else None
    case ElementRule => MatchElement(t, i)
    case CharRule => MatchAnyChar(t, i)
  }

  /** `tokenizers_newline`: tried only at the start of a line. */
  const LineStartRules: seq<Rule> := [InlineComponentRule, ComponentRule, AttributeRule]

  /** `tokenizers`, in their order of precedence. */
  const GeneralRules: seq<Rule> := [
    InlineBlockCommentRule, InlineLineCommentRule, BlockCommentRule, LineCommentRule,
    StringRule, BlockStartRule, BlockEndRule, ArrayStartRule, ArrayEndRule,
    ImportRule, PragmaRule, DeclKeywordRule, FunctionKeywordRule,
    EllipsesRule, ElementRule, CharRule
  ]

  /** The table `apply_tokenizers` searches: the line-start rules first, and
      only when the cursor is at the start of a line. */
  function Tokenizers(newline: bool): seq<Rule> {
    (if newline then LineStartRules else []) + GeneralRules
  }

  /** A rule that matched, with its value span. */
  datatype Hit = Hit(rule: Rule, lexeme: Lexeme)

  /** `apply_tokenizers`' search: the earliest rule of `rules` that matches
      at `i` (see `FirstMatchWins`). */
  function FirstMatch(rules: seq<Rule>, t: string, i: nat): (r: Option<Hit>)
    requires i <= |t|
    ensures r.Some? ==> i <= r.value.lexeme.start < r.value.lexeme.end <= |t|
    decreases |rules|
  {
    if rules == [] then None
    else match MatchRule(rules[0], t, i)
      case Some(lx) => Some(Hit(rules[0], lx))
      case None => FirstMatch(rules[1..], t, i)
  }

  /** First match wins: the search finds nothing exactly when no rule
      matches, and otherwise returns a rule that matches, with its span, such
      that no earlier rule of the table matches. */
  lemma {:induction false} FirstMatchWins(rules: seq<Rule>, t: string, i: nat)
    requires i <= |t|
    ensures FirstMatch(rules, t, i).None? <==>
              forall k :: 0 <= k < |rules| ==> MatchRule(rules[k], t, i).None?
    ensures FirstMatch(rules, t, i).Some? ==>
              exists k :: 0 <= k < |rules| && rules[k] == FirstMatch(rules, t, i).value.rule
                          && MatchRule(rules[k], t, i) == Some(FirstMatch(rules, t, i).value.lexeme)
                          && forall j :: 0 <= j < k ==> MatchRule(rules[j], t, i).None?
    decreases |rules|
  {
    if rules != [] && MatchRule(rules[0], t, i).None? {
      FirstMatchWins(rules[1..], t, i);
      assert forall k :: 1 <= k < |rules| ==> rules[k] == rules[1..][k - 1];
      var r := FirstMatch(rules, t, i);
      if r.Some? {
        var k :| 0 <= k < |rules[1..]| && rules[1..][k] == r.value.rule
                 && MatchRule(rules[1..][k], t, i) == Some(r.value.lexeme)
                 && forall j :: 0 <= j < k ==> MatchRule(rules[1..][j], t, i).None?;
        assert rules[k + 1] == r.value.rule;
      }
    }
  }

  /** Searching a concatenated table is searching the first part, then the
      second: the line-start rules are always tried before the general ones. */
  lemma {:induction false} FirstMatchAppend(a: seq<Rule>, b: seq<Rule>, t: string, i: nat)
    requires i <= |t|
    ensures FirstMatch(a + b, t, i)
            == if FirstMatch(a, t, i).Some? then FirstMatch(a, t, i) else FirstMatch(b, t, i)
    decreases |a|
  {
    if a == [] {
      assert a + b == b;
    } else {
      assert (a + b)[0] == a[0];
      assert (a + b)[1..] == a[1..] + b;
      FirstMatchAppend(a[1..], b, t, i);
    }
  }

  /** The rule at `k` matches and none before it does: it is the one that
      wins. */
  lemma FirstMatchIs(rules: seq<Rule>, t: string, i: nat, k: nat)
    requires i <= |t| && k < |rules|
    requires MatchRule(rules[k], t, i).Some?
    requires forall j :: 0 <= j < k ==> MatchRule(rules[j], t, i).None?
    ensures FirstMatch(rules, t, i) == Some(Hit(rules[k], MatchRule(rules[k], t, i).value))
  {
    FirstMatchWins(rules, t, i);
    var r := FirstMatch(rules, t, i);
    var k' :| 0 <= k' < |rules| && rules[k'] == r.value.rule
              && MatchRule(rules[k'], t, i) == Some(r.value.lexeme)
              && forall j :: 0 <= j < k' ==> MatchRule(rules[j], t, i).None?;
    assert k' == k;
  }

  /** The last general rule, `.`, matches any character but a newline, so at a
      non-whitespace character some rule always matches: the lexer's
      "No lexer matched" error cannot follow `advance`. */
  lemma NonSpaceAlwaysMatches(newline: bool, t: string, i: nat)
    requires i < |t| && !IsSpace(t[i])
    ensures FirstMatch(Tokenizers(newline), t, i).Some?
  {
    var rules := Tokenizers(newline);
    FirstMatchWins(rules, t, i);
    assert rules[|rules| - 1] == CharRule;
    assert MatchRule(CharRule, t, i).Some?;
  }
}
