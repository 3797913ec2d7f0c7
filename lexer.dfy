/** The QML lexer (doxyqml/lexer.py:47-204): a cursor that walks the text,
    skips whitespace, lets the first matching rule cut the next token, and at
    the end fixes the token list up.  The class keeps the source's mutable
    state; its methods are proved against the functions `Lex` (the token list
    the cursor produces) and `Fixups.FixupFrom` (what the fixup pass makes of
    it). */
module Lexer {
  import opened Text
  import opened Tokens
  import opened Rules
  import opened Fixups

  // ---------------------------------------------------------------------------
  // Line continuations

  /** The text has no backslash directly before a newline. */
  predicate NoContinuation(s: string) {
    forall k :: 0 <= k < |s| - 1 ==> !(s[k] == '\\' && s[k + 1] == '\n')
  }

  /** `text.replace('\\\n', '\n')`: every backslash-newline pair, taken left
      to right without overlap, becomes a plain newline.  No line is gained or
      lost, and the text is left as it is exactly when it has no such pair. */
  function Collapse(s: string): (r: string)
    ensures CountChar(r, '\n') == CountChar(s, '\n')
    ensures NoContinuation(s) ==> r == s
    ensures |r| == |s| <==> NoContinuation(s)
    ensures |r| <= |s|
    decreases |s|
  {
    if |s| >= 2 && s[0] == '\\' && s[1] == '\n' then
      assert !NoContinuation(s) by { assert s[0] == '\\' && s[0 + 1] == '\n'; }
      "\n" + Collapse(s[2..])
    else if s == [] then []
    else
      var rest := s[1..];
      assert NoContinuation(s) <==> NoContinuation(rest) by {
        if !NoContinuation(rest) {
          var k :| 0 <= k < |rest| - 1 && rest[k] == '\\' && rest[k + 1] == '\n';
          assert s[k + 1] == '\\' && s[k + 1 + 1] == '\n';
        }
        if !NoContinuation(s) {
          var k :| 0 <= k < |s| - 1 && s[k] == '\\' && s[k + 1] == '\n';
          assert k != 0;
          assert rest[k - 1] == '\\' && rest[k - 1 + 1] == '\n';
        }
      }
      [s[0]] + Collapse(rest)
  }

  /** Collapsing distributes over a concatenation, unless a backslash at the
      end of `a` and a newline at the start of `b` form a pair across it. */
  lemma {:induction false} CollapseAppend(a: string, b: string)
    requires a == [] || b == [] || !(a[|a| - 1] == '\\' && b[0] == '\n')
    ensures Collapse(a + b) == Collapse(a) + Collapse(b)
    decreases |a|
  {
    if a == [] {
      assert a + b == b;
    } else if |a| >= 2 && a[0] == '\\' && a[1] == '\n' {
      CollapseAppend(a[2..], b);
      CollapseAppendPair(a, b);
    } else {
      CollapseAppend(a[1..], b);
      CollapseAppendSingle(a, b);
    }
  }

  /** The step of `CollapseAppend` where `a` opens with a pair. */
  lemma CollapseAppendPair(a: string, b: string)
    requires |a| >= 2 && a[0] == '\\' && a[1] == '\n'
    requires Collapse(a[2..] + b) == Collapse(a[2..]) + Collapse(b)
    ensures Collapse(a + b) == Collapse(a) + Collapse(b)
  {
    var s := a + b;
    DropFromAppend(a, b, 2);
    assert Collapse(s) == "\n" + Collapse(s[2..]);
    assert Collapse(a) == "\n" + Collapse(a[2..]);
    ConcatAssoc("\n", Collapse(a[2..]), Collapse(b));
  }

  /** The step of `CollapseAppend` where `a` opens with a single character. */
  lemma CollapseAppendSingle(a: string, b: string)
    requires a != [] && !(|a| >= 2 && a[0] == '\\' && a[1] == '\n')
    requires b == [] || !(a[|a| - 1] == '\\' && b[0] == '\n')
    requires Collapse(a[1..] + b) == Collapse(a[1..]) + Collapse(b)
    ensures Collapse(a + b) == Collapse(a) + Collapse(b)
  {
    var s := a + b;
    DropFromAppend(a, b, 1);
    assert s[0] == a[0];
    assert !(|s| >= 2 && s[0] == '\\' && s[1] == '\n') by {
      if |a| == 1 { assert b == [] || s[1] == b[0]; } else { assert s[1] == a[1]; }
    }
    assert Collapse(s) == [s[0]] + Collapse(s[1..]);
    assert Collapse(a) == [a[0]] + Collapse(a[1..]);
    ConcatAssoc([a[0]], Collapse(a[1..]), Collapse(b));
  }

  lemma CollapsePair(s: string)
    ensures Collapse("\\\n" + s) == "\n" + Collapse(s)
  {
    assert ("\\\n" + s)[2..] == s;
  }

  /** `str.replace` read as split-then-join: pieces without a
      backslash-newline pair, joined with that pair, collapse to the same
      pieces joined with a plain newline. */
  lemma {:induction false} CollapseJoin(parts: seq<string>)
    requires forall k :: 0 <= k < |parts| ==> NoContinuation(parts[k])
    ensures Collapse(Join(parts, "\\\n")) == Join(parts, "\n")
    decreases |parts|
  {
    if |parts| > 1 {
      var p, rest := parts[0], Join(parts[1..], "\\\n");
      calc {
        Collapse(Join(parts, "\\\n"));
        { assert Join(parts, "\\\n") == p + ("\\\n" + rest); }
        Collapse(p + ("\\\n" + rest));
        { CollapseAppend(p, "\\\n" + rest); }
        Collapse(p) + Collapse("\\\n" + rest);
        { CollapsePair(rest); }
        p + ("\n" + Collapse(rest));
        { CollapseJoin(parts[1..]); }
        p + ("\n" + Join(parts[1..], "\n"));
        Join(parts, "\n");
      }
    }
  }

  // ---------------------------------------------------------------------------
  // What the cursor produces

  /** The token a winning rule appends at offset `i` and column `col`. */
  function TokenFor(t: string, h: Hit, i: nat, col: nat): (r: Token)
    requires h.lexeme.start <= h.lexeme.end <= |t|
    ensures r.kind == KindOf(h.rule) && r.idx == i && r.column == col
    ensures |r.value| == h.lexeme.end - h.lexeme.start
  {
    Token(KindOf(h.rule), t[h.lexeme.start..h.lexeme.end], i, col)
  }

  /** The token list the lexing loop appends from offset `i` on: skip
      whitespace (a newline, or the start of the text, enables the line-start
      rules), let the first matching rule cut a token at the first
      non-whitespace offset, and continue after that token's value.  Every
      token sits at a non-whitespace offset with its true column, the offsets
      strictly increase, and the list is empty exactly when only whitespace
      is left. */
  function Lex(t: string, i: nat): (r: seq<Token>)
    requires i <= |t|
    ensures r == [] <==> forall p :: i <= p < |t| ==> IsSpace(t[p])
    decreases |t| - i
  {
    var j := SpanWhile(t, i, IsSpace);
    if j == |t| then []
    else
      var newline := i == 0 || '\n' in t[i..j];
      match FirstMatch(Tokenizers(newline), t, j)
      case Some(h) =>
        assert !IsSpace(t[j]);
        [TokenFor(t, h, j, ColumnAt(t, j))] + Lex(t, h.lexeme.end)
      case None =>
        NonSpaceAlwaysMatches(newline, t, j);
        assert false;
        []
  }

  /** Every token sits at a non-whitespace offset at or after `i`, carries
      the column of that offset and a non-empty value. */
  predicate WellPlaced(t: string, i: nat, r: seq<Token>) {
    forall k :: 0 <= k < |r| ==>
      i <= r[k].idx < |t| && !IsSpace(t[r[k].idx])
      && r[k].column == ColumnAt(t, r[k].idx) && r[k].value != []
  }

  /** The offsets strictly increase. */
  predicate Ascending(r: seq<Token>) {
    forall k, m :: 0 <= k < m < |r| ==> r[k].idx < r[m].idx
  }

  /** The tokens `Lex` produces are well placed and in text order. */
  lemma {:induction false} LexTokensInOrder(t: string, i: nat)
    requires i <= |t|
    ensures WellPlaced(t, i, Lex(t, i)) && Ascending(Lex(t, i))
    decreases |t| - i
  {
    var j := SpanWhile(t, i, IsSpace);
    if j < |t| {
      var newline := i == 0 || '\n' in t[i..j];
      var h := NextHit(t, i, newline);
      var token := TokenFor(t, h, j, ColumnAt(t, j));
      var rest := Lex(t, h.lexeme.end);
      var r := Lex(t, i);
      assert r == [token] + rest by {
        LexUnfold(t, i, newline, h);
      }
      LexTokensInOrder(t, h.lexeme.end);
      ConsInOrder(t, i, token, h.lexeme.end, rest);
    }
  }

  /** Putting a well-placed token before a well-placed, ordered list that
      starts after it keeps the list well placed and ordered. */
  lemma ConsInOrder(t: string, i: nat, token: Token, after: nat, rest: seq<Token>)
    requires i <= token.idx < after && token.idx < |t| && !IsSpace(t[token.idx])
    requires token.column == ColumnAt(t, token.idx) && token.value != []
    requires WellPlaced(t, after, rest) && Ascending(rest)
    ensures WellPlaced(t, i, [token] + rest) && Ascending([token] + rest)
  {
    var r := [token] + rest;
    assert forall k :: 0 < k < |r| ==> r[k] == rest[k - 1];
  }

  /** The hit of the first matching rule after the whitespace at `i`; one
      always exists, since some rule matches any non-whitespace character. */
  function NextHit(t: string, i: nat, newline: bool): (h: Hit)
    requires i <= |t| && SpanWhile(t, i, IsSpace) < |t|
    ensures FirstMatch(Tokenizers(newline), t, SpanWhile(t, i, IsSpace)) == Some(h)
    ensures SpanWhile(t, i, IsSpace) <= h.lexeme.start < h.lexeme.end <= |t|
  {
    var j := SpanWhile(t, i, IsSpace);
    NonSpaceAlwaysMatches(newline, t, j);
    FirstMatch(Tokenizers(newline), t, j).value
  }

  /** One round of the lexing loop: from `i`, the token at the first
      non-whitespace offset, then the rest. */
  lemma LexUnfold(t: string, i: nat, newline: bool, h: Hit)
    requires i <= |t|
    requires SpanWhile(t, i, IsSpace) < |t|
    requires newline <==> i == 0 || '\n' in t[i..SpanWhile(t, i, IsSpace)]
    requires FirstMatch(Tokenizers(newline), t, SpanWhile(t, i, IsSpace)) == Some(h)
    ensures var j := SpanWhile(t, i, IsSpace);
            Lex(t, i) == [TokenFor(t, h, j, ColumnAt(t, j))] + Lex(t, h.lexeme.end)
  {
  }

  lemma AppendAssoc<T>(a: seq<T>, b: seq<T>, c: seq<T>)
    ensures (a + b) + c == a + (b + c)
  {
  }

  // ---------------------------------------------------------------------------
  // The lexer object

  class Lexer {
    /** The source with line continuations collapsed. */
    const text: string
    /** The cursor and its column. */
    var idx: nat
    var column: nat
    /** Whether the last `Advance` crossed a line start. */
    var newline: bool
    var tokens: seq<Token>

    /** The cursor is inside the text and the column is the cursor's. */
    predicate Valid()
      reads this
    {
      idx <= |text| && column == ColumnAt(text, idx)
    }

    constructor(source: string)
      ensures text == Collapse(source)
      ensures idx == 0 && column == 0 && !newline && tokens == []
      ensures Valid()
    {
      text := Collapse(source);
      idx := 0;
      column := 0;
      newline := false;
      tokens := [];
    }

    /** `tokenize`: lex the whole text, then run the fixup pass.  The
        "No lexer matched" error cannot happen; `ok` is false when the fixup
        pass failed, and the tokens are then as the pass left them. */
    method Tokenize() returns (ok: bool)
      requires Valid()
      modifies this`idx, this`column, this`newline, this`tokens
      ensures Valid() && idx == |text|
      ensures Step(tokens, ok) == FixupFrom(old(tokens) + Lex(text, old(idx)), 0)
    {
      while true
        invariant Valid()
        invariant tokens + Lex(text, idx) == old(tokens) + Lex(text, old(idx))
        decreases |text| - idx
      {
        var done := Round();
        if done {
          break;
        }
      }
      assert Lex(text, idx) == [];
      assert tokens + [] == tokens;
      ghost var lexed := tokens;
      assert lexed == old(tokens) + Lex(text, old(idx));
      ok := FixupTokens();
      assert Step(tokens, ok) == FixupFrom(lexed, 0);
    }

    /** One round of the loop in `tokenize`: advance, and unless the text is
        used up, apply the tokenizers.  The tokens appended so far plus what
        `Lex` still has to produce stay the same, and a round that does not
        finish moves the cursor forward. */
    method Round() returns (done: bool)
      requires Valid()
      modifies this`idx, this`column, this`newline, this`tokens
      ensures Valid()
      ensures tokens + Lex(text, idx) == old(tokens) + Lex(text, old(idx))
      ensures done ==> idx == |text|
      ensures !done ==> old(idx) < idx
    {
      ghost var before := idx;
      ghost var pending := Lex(text, before);
      Advance();
      if idx == |text| {
        assert pending == [];
        return true;
      }
      ghost var at := idx;
      assert FirstMatch(Tokenizers(newline), text, at).Some? by {
        NonSpaceAlwaysMatches(newline, text, at);
      }
      ghost var h := FirstMatch(Tokenizers(newline), text, at).value;
      ghost var token := TokenFor(text, h, at, column);
      ghost var rest := Lex(text, h.lexeme.end);
      assert pending == [token] + rest by {
        LexUnfold(text, before, newline, h);
      }
      var matched := ApplyTokenizers();
      assert tokens == old(tokens) + [token];
      AppendAssoc(old(tokens), [token], rest);
      return false;
    }

    /** `advance`: skip whitespace.  The cursor stops at the first
        non-whitespace character or the end; `newline` says whether the start
        of the text or a newline was passed. */
    method Advance()
      requires Valid()
      modifies this`idx, this`column, this`newline
      ensures Valid()
      ensures idx == SpanWhile(text, old(idx), IsSpace)
      ensures newline <==> old(idx) == 0 || '\n' in text[old(idx)..idx]
    {
      newline := false;
      if idx == 0 {
        newline := true;
      }
      ghost var start := idx;
      while idx < |text|
        invariant start <= idx <= |text|
        invariant column == ColumnAt(text, idx)
        invariant forall k :: start <= k < idx ==> IsSpace(text[k])
        invariant newline <==> start == 0 || '\n' in text[start..idx]
        decreases |text| - idx
      {
        assert text[start..idx + 1] == text[start..idx] + [text[idx]];
        if text[idx] == '\n' {
          newline := true;
          idx := idx + 1;
          column := 0;
        } else if IsSpace(text[idx]) {
          idx := idx + 1;
          column := column + 1;
        } else {
          break;
        }
      }
      SpanWhileIsLongestRun(text, start, IsSpace, idx);
    }

    /** `apply_tokenizers`: the first rule of the table for the current
        `newline` that matches at the cursor appends its token and moves the
        cursor past the token's value; `ok` is false when no rule matched
        (the source raises "No lexer matched"). */
    method ApplyTokenizers() returns (ok: bool)
      requires Valid()
      modifies this`idx, this`column, this`tokens
      ensures Valid()
      ensures var m := FirstMatch(Tokenizers(newline), text, old(idx));
              && ok == m.Some?
              && (ok ==> tokens == old(tokens) + [TokenFor(text, m.value, old(idx), old(column))]
                         && idx == m.value.lexeme.end)
              && (!ok ==> tokens == old(tokens) && idx == old(idx))
    {
      var head: seq<Rule> := if newline then LineStartRules else [];
      FirstMatchAppend(head, GeneralRules, text, idx);
      if newline {
        ok := TryRules(LineStartRules);
        if ok {
          return;
        }
      }
      ok := TryRules(GeneralRules);
    }

    /** One of the two loops of `apply_tokenizers`: try the rules of a table
        in order and apply the first that matches. */
    method TryRules(rules: seq<Rule>) returns (ok: bool)
      requires Valid()
      modifies this`idx, this`column, this`tokens
      ensures Valid()
      ensures var m := FirstMatch(rules, text, old(idx));
              && ok == m.Some?
              && (ok ==> tokens == old(tokens) + [TokenFor(text, m.value, old(idx), old(column))]
                         && idx == m.value.lexeme.end)
              && (!ok ==> tokens == old(tokens) && idx == old(idx) && column == old(column))
    {
      for k := 0 to |rules|
        invariant idx == old(idx) && column == old(column) && tokens == old(tokens)
        invariant forall j :: 0 <= j < k ==> MatchRule(rules[j], text, idx).None?
      {
        var m := MatchRule(rules[k], text, idx);
        if m.Some? {
          FirstMatchIs(rules, text, idx, k);
          AppendToken(KindOf(rules[k]), text[m.value.start..m.value.end]);
          SetPosition(m.value.end);
          return true;
        }
      }
      FirstMatchWins(rules, text, idx);
      return false;
    }

    /** `append_token`: the token starts at the cursor. */
    method AppendToken(kind: TokenType, value: string)
      modifies this`tokens
      ensures tokens == old(tokens) + [Token(kind, value, idx, column)]
    {
      tokens := tokens + [Token(kind, value, idx, column)];
    }

    /** `set_position`: move the cursor and recompute the column from the
        last newline before it. */
    method SetPosition(i: nat)
      requires i <= |text|
      modifies this`idx, this`column
      ensures idx == i && Valid()
    {
      idx := i;
      var nl := RFind(text, '\n', 0, i);
      if nl == -1 {
        column := i;
      } else {
        column := i - nl - 1;
      }
      ColumnFromLastNewline(text, i);
    }

    /** `fixup_tokens`: one pass over the list, each index looked at once,
        on the list as the earlier iterations left it.  `ok` is false when
        hoisting an inline comment failed, which ends the pass. */
    method FixupTokens() returns (ok: bool)
      modifies this`tokens
      ensures Step(tokens, ok) == FixupFrom(old(tokens), 0)
    {
      var i := 0;
      while i < |tokens|
        invariant i <= |tokens|
        invariant FixupFrom(tokens, i) == FixupFrom(old(tokens), 0)
        decreases |tokens| - i
      {
        ok := FixupIteration(i);
        if !ok {
          return;
        }
        i := i + 1;
      }
      ok := true;
    }

    /** The body of the loop in `fixup_tokens` at index `i`: reclassify,
        left-shift a comment, hoist an inline comment. */
    method FixupIteration(i: nat) returns (ok: bool)
      requires i < |tokens|
      modifies this`tokens
      ensures Step(tokens, ok) == FixupAt(old(tokens), i)
    {
      ghost var before := tokens;
      var token := tokens[i];
      if token.kind == Keyword && token.value == "property" && i > 1
         && tokens[i - 1].kind == Element
         && tokens[i - 2].kind == Keyword && EndsWith(tokens[i - 2].value, "property")
      {
        tokens := tokens[i := Token(Element, token.value, token.idx, token.column)];
      }
      assert tokens == Reclassify(before, i);
      if token.kind == Comment || token.kind == IComment {
        LeftShiftComment(i);
      }
      ghost var shifted := ShiftComment(Reclassify(before, i), i);
      assert tokens == shifted && (shifted[i].kind == IComment <==> token.kind == IComment);
      if token.kind == IComment && i > 1 {
        ok := MoveInlineComments(i);
      } else {
        ok := true;
      }
    }

    /** `left_shift_comment`: the token at `i` de-indented by its column. */
    method LeftShiftComment(i: nat)
      requires i < |tokens|
      modifies this`tokens
      ensures tokens == old(tokens)[i := LeftShifted(old(tokens)[i])]
    {
      var token := tokens[i];
      if token.column < 1 {
        return;
      }
      var shifted := Dedent(token.value, token.column);
      tokens := tokens[i := Token(token.kind, shifted, token.idx, token.column)];
    }

    /** `move_inline_comments`: search back from `start` (at most 19 tokens,
        never reaching index 0) for the declaration keyword, stop at a
        comment, import or pragma, and move the comment in front of the
        keyword unless the token before the keyword already documents it.
        `ok` is false when the window holds neither (the source then reads
        an unbound variable). */
    method MoveInlineComments(start: nat) returns (ok: bool)
      requires 1 < start < |tokens|
      modifies this`tokens
      ensures match HoistDecision(old(tokens), start)
              case HoistTo(at) => ok && tokens == Rotate(old(tokens), at, start)
              case Stay => ok && tokens == old(tokens)
              case Unbound => !ok && tokens == old(tokens)
    {
      var toks := tokens;
      var floor := ScanFloor(start);
      ghost var n := NearestStop(toks, start - 1, floor);
      var j := start - 1;
      var found := false;
      while j > floor
        invariant floor <= j <= start - 1 && !found
        invariant n == NearestStop(toks, j, floor)
        decreases j
      {
        var token := toks[j];
        if token.kind == Keyword {
          found := true;
          break;
        }
        if token.kind == Comment || token.kind == IComment || token.kind == Import || token.kind == Pragma {
          assert n == Some(j) && Blocks(toks[j]);
          return true;
        }
        j := j - 1;
      }
      if !found {
        assert n == None;
        return false;
      }
      assert n == Some(j) && !Blocks(toks[j]);
      var previous := toks[j - 1];
      if previous.kind == IComment || IsDoxyCommentToken(previous) {
        assert AlreadyDocumented(toks[j - 1]);
        return true;
      }
      tokens := Rotate(toks, j, start);
      return true;
    }
  }
}
