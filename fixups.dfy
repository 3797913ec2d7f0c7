/** What `Lexer.fixup_tokens` does to the finished token list
    (doxyqml/lexer.py:144-193), as functions on token sequences.  The methods of
    `Lexer.Lexer` that edit the list in place are proved against these. */
module Fixups {
  import opened Text
  import opened Tokens

  // ---------------------------------------------------------------------------
  // A property literally named "property"

  /** `property <type> property: ...`: the token at `i` is the keyword
      "property", the one before it an ELEMENT and the one before that a
      KEYWORD ending in "property". */
  predicate NamesPropertyProperty(toks: seq<Token>, i: nat)
    requires i < |toks|
  {
    toks[i].kind == Keyword && toks[i].value == "property" && i > 1
    && toks[i - 1].kind == Element
    && toks[i - 2].kind == Keyword && EndsWith(toks[i - 2].value, "property")
  }

  /** The token at `i` turned into an ELEMENT with the same value, offset and
      column. */
  function AsElement(t: Token): (r: Token)
    ensures r.kind == Element && r.value == t.value && r.idx == t.idx && r.column == t.column
  {
    Token(Element, t.value, t.idx, t.column)
  }

  // ---------------------------------------------------------------------------
  // De-indenting comments

  /** The line starts with `n` spaces or tabs (`[ \t]{n}`). */
  predicate BlankPrefix(s: string, n: nat) {
    n <= |s| && forall k :: 0 <= k < n ==> IsBlank(s[k])
  }

  /** `re.sub(r"^[ \t]{n}", "", s, flags=re.MULTILINE)`, scanning left to
      right: at the start of the text and after every newline, exactly `n`
      leading spaces or tabs are removed when they are there.  Only blanks
      are removed: the result is no longer, and every other character (the
      newlines included, so no line is lost) occurs as often as before. */
  function StripIndent(s: string, n: nat, atLineStart: bool): (r: string)
    requires n >= 1
    ensures |r| <= |s|
    ensures forall c :: !IsBlank(c) ==> CountChar(r, c) == CountChar(s, c)
    decreases |s|, if atLineStart then 1 else 0
  {
    if atLineStart && BlankPrefix(s, n) then
      BlankPrefixUncounted(s, n);
      StripIndent(s[n..], n, false)
    else if s == [] then []
    else
      CountCons(s);
      var rest := StripIndent(s[1..], n, s[0] == '\n');
      CountCons([s[0]] + rest);
      assert ([s[0]] + rest)[1..] == rest;
      [s[0]] + rest
  }

  /** A leading run of blanks adds to no other character's count. */
  lemma BlankPrefixUncounted(s: string, n: nat)
    requires BlankPrefix(s, n)
    ensures forall c :: !IsBlank(c) ==> CountChar(s, c) == CountChar(s[n..], c)
  {
    assert s == s[..n] + s[n..];
    forall c | !IsBlank(c)
      ensures CountChar(s, c) == CountChar(s[n..], c)
    {
      CountCharAbsent(s[..n], c);
      CountCharAppend(s[..n], s[n..], c);
    }
  }

  /** Counting over a non-empty text: its first character, then the rest. */
  lemma CountCons(s: string)
    requires s != []
    ensures forall c :: CountChar(s, c) == (if s[0] == c then 1 else 0) + CountChar(s[1..], c)
  {
  }

  /** The whole substitution, from the start of the text (which is a line
      start); `DedentByLines` shows it de-indents line by line. */
  function Dedent(s: string, n: nat): (r: string)
    requires n >= 1
    ensures |r| <= |s|
    ensures forall c :: !IsBlank(c) ==> CountChar(r, c) == CountChar(s, c)
  {
    StripIndent(s, n, true)
  }

  /** One line with its first `n` blanks removed, if it has that many. */
  function DedentLine(line: string, n: nat): string {
    if BlankPrefix(line, n) then line[n..] else line
  }

  function DedentLines(lines: seq<string>, n: nat): (r: seq<string>)
    ensures |r| == |lines|
    ensures forall k :: 0 <= k < |lines| ==> r[k] == DedentLine(lines[k], n)
  {
    if lines == [] then [] else [DedentLine(lines[0], n)] + DedentLines(lines[1..], n)
  }

  /** Inside a line, the scanner copies characters up to the newline. */
  lemma {:induction false} StripInsideLine(a: string, tail: string, n: nat)
    requires n >= 1
    requires '\n' !in a
    ensures StripIndent(a + tail, n, false) == a + StripIndent(tail, n, false)
    decreases |a|
  {
    if a != [] {
      assert (a + tail)[0] == a[0];
      assert (a + tail)[1..] == a[1..] + tail;
      StripInsideLine(a[1..], tail, n);
    } else {
      assert a + tail == tail;
    }
  }

  /** The first line of a text with a newline is de-indented on its own. */
  lemma DedentFirstLine(line: string, rest: string, n: nat)
    requires n >= 1
    requires '\n' !in line
    ensures Dedent(line + "\n" + rest, n) == DedentLine(line, n) + "\n" + Dedent(rest, n)
  {
    var s := line + "\n" + rest;
    assert s == line + ("\n" + rest);
    assert BlankPrefix(s, n) == BlankPrefix(line, n) by {
      assert forall k :: 0 <= k < |line| ==> s[k] == line[k];
      if n > |line| {
        assert !IsBlank(s[|line|]);
      }
    }
    assert StripIndent("\n" + rest, n, false) == "\n" + StripIndent(rest, n, true) by {
      assert ("\n" + rest)[0] == '\n' && ("\n" + rest)[1..] == rest;
    }
    var tail := "\n" + rest;
    var kept := DedentLine(line, n);
    if BlankPrefix(line, n) {
      assert Dedent(s, n) == StripIndent(s[n..], n, false);
      DropFromAppend(line, tail, n);
      StripInsideLine(line[n..], tail, n);
    } else {
      assert Dedent(s, n) == StripIndent(s, n, false);
      StripInsideLine(line, tail, n);
    }
    assert Dedent(s, n) == kept + StripIndent(tail, n, false);
    ConcatAssoc(kept, "\n", Dedent(rest, n));
  }

  /** A text without a newline is one line. */
  lemma DedentOneLine(s: string, n: nat)
    requires n >= 1
    requires '\n' !in s
    ensures Dedent(s, n) == DedentLine(s, n)
  {
    if BlankPrefix(s, n) {
      StripInsideLine(s[n..], [], n);
      assert s[n..] + [] == s[n..];
    } else {
      StripInsideLine(s, [], n);
      assert s + [] == s;
    }
  }

  /** The regex substitution is the same as de-indenting line by line: the
      text's lines (split at '\n') each lose their first `n` spaces or tabs
      when they have at least `n` of them, and are kept whole otherwise. */
  lemma {:induction false} DedentByLines(s: string, n: nat)
    requires n >= 1
    ensures Dedent(s, n) == Join(DedentLines(Split(s, '\n'), n), "\n")
    decreases |s|
  {
    var k := Find(s, '\n', 0);
    if k == -1 {
      DedentOneLine(s, n);
      assert DedentLines([s], n) == [DedentLine(s, n)];
    } else {
      var line := s[..k];
      var rest := s[k + 1..];
      assert s == line + "\n" + rest;
      DedentFirstLine(line, rest, n);
      DedentByLines(rest, n);
      var tail := DedentLines(Split(rest, '\n'), n);
      assert Split(s, '\n') == [line] + Split(rest, '\n');
      assert DedentLines(Split(s, '\n'), n) == [DedentLine(line, n)] + tail;
      assert ([DedentLine(line, n)] + tail)[1..] == tail;
    }
  }

  /** `left_shift_comment`: a token at column 0 is kept; any other keeps its
      type, offset and column and has its text de-indented by its column. */
  function LeftShifted(t: Token): (r: Token)
    ensures r.kind == t.kind && r.idx == t.idx && r.column == t.column
    ensures t.column == 0 ==> r == t
    ensures t.column > 0 ==> r.value == Join(DedentLines(Split(t.value, '\n'), t.column), "\n")
  {
    if t.column < 1 then t
    else
      DedentByLines(t.value, t.column);
      Token(t.kind, Dedent(t.value, t.column), t.idx, t.column)
  }

  // ---------------------------------------------------------------------------
  // Hoisting inline comments in front of their declaration keyword

  /** Tokens that end the backward search without a move. */
  predicate Blocks(t: Token) {
    t.kind == Comment || t.kind == IComment || t.kind == Import || t.kind == Pragma
  }

  /** Tokens at which the backward search stops. */
  predicate Stops(t: Token) {
    t.kind == Keyword || Blocks(t)
  }

  /** `max(start - 20, 0)`: the search looks at indices above this one only. */
  function ScanFloor(start: nat): (r: nat)
    ensures r <= start && start - r <= 20
    ensures r > 0 ==> start - r == 20
  {
    if start >= 20 then start - 20 else 0
  }

  /** The highest index in `(floor, j]` where the search stops, if any. */
  function NearestStop(toks: seq<Token>, j: nat, floor: nat): (r: Option<nat>)
    requires floor <= j < |toks|
    ensures r.Some? ==> floor < r.value <= j && Stops(toks[r.value])
    ensures r.Some? ==> forall m :: r.value < m <= j ==> !Stops(toks[m])
    ensures r.None? ==> forall m :: floor < m <= j ==> !Stops(toks[m])
    decreases j
  {
    if j == floor then None
    else if Stops(toks[j]) then Some(j)
    else NearestStop(toks, j - 1, floor)
  }

  /** A token that already documents the declaration: an inline comment or a
      doc comment right before the insertion point. */
  predicate AlreadyDocumented(t: Token) {
    t.kind == IComment || IsDoxyCommentToken(t)
  }

  /** The outcome of `move_inline_comments`: move the comment to `at`, leave
      the list alone, or fail because no keyword and no blocking token lies in
      the window (the source then reads the unbound `ins_idx` and raises). */
  datatype Hoist = HoistTo(at: nat) | Stay | Unbound

  /** `start` is an index whose token is looked at by the backward search. */
  predicate InWindow(start: nat, m: nat) {
    ScanFloor(start) < m < start
  }

  /** `move_inline_comments(start)`: the decision (see `HoistDecisionMeaning`). */
  function HoistDecision(toks: seq<Token>, start: nat): (r: Hoist)
    requires 1 < start < |toks|
    ensures r.HoistTo? ==> InWindow(start, r.at)
  {
    var floor := ScanFloor(start);
    match NearestStop(toks, start - 1, floor)
    case None => Unbound
    case Some(j) =>
      if Blocks(toks[j]) || AlreadyDocumented(toks[j - 1]) then Stay else HoistTo(j)
  }

  /** The comment is moved only to the nearest keyword of the window with
      nothing blocking in between, and only when the token before that
      keyword does not already document it; it stays when a blocking token
      comes first or the keyword is already documented; and the search fails
      exactly when nothing in the window stops it. */
  lemma HoistDecisionMeaning(toks: seq<Token>, start: nat)
    requires 1 < start < |toks|
    ensures HoistDecision(toks, start).HoistTo? ==>
              var at := HoistDecision(toks, start).at;
              at >= 1 && toks[at].kind == Keyword && !AlreadyDocumented(toks[at - 1])
              && forall m :: at < m < start ==> !Stops(toks[m])
    ensures HoistDecision(toks, start).Unbound? <==>
              forall m: nat :: InWindow(start, m) ==> !Stops(toks[m])
    ensures HoistDecision(toks, start).Stay? <==>
              exists j: nat :: InWindow(start, j) && Stops(toks[j])
                               && (forall m :: j < m < start ==> !Stops(toks[m]))
                               && (Blocks(toks[j]) || AlreadyDocumented(toks[j - 1]))
  {
    HoistToMeaning(toks, start);
    UnboundMeaning(toks, start);
    StayMeaning(toks, start);
  }

  lemma HoistToMeaning(toks: seq<Token>, start: nat)
    requires 1 < start < |toks|
    ensures HoistDecision(toks, start).HoistTo? ==>
              var at := HoistDecision(toks, start).at;
              at >= 1 && toks[at].kind == Keyword && !AlreadyDocumented(toks[at - 1])
              && forall m :: at < m < start ==> !Stops(toks[m])
  {
  }

  lemma UnboundMeaning(toks: seq<Token>, start: nat)
    requires 1 < start < |toks|
    ensures HoistDecision(toks, start).Unbound? <==>
              forall m: nat :: InWindow(start, m) ==> !Stops(toks[m])
  {
    var n := NearestStop(toks, start - 1, ScanFloor(start));
    if n.Some? {
      assert InWindow(start, n.value) && Stops(toks[n.value]);
    }
  }

  lemma StayMeaning(toks: seq<Token>, start: nat)
    requires 1 < start < |toks|
    ensures HoistDecision(toks, start).Stay? <==>
              exists j: nat :: InWindow(start, j) && Stops(toks[j])
                               && (forall m :: j < m < start ==> !Stops(toks[m]))
                               && (Blocks(toks[j]) || AlreadyDocumented(toks[j - 1]))
  {
    var n := NearestStop(toks, start - 1, ScanFloor(start));
    if n.Some? {
      HoistUnique(toks, start, n.value);
    }
  }

  /** Only one index can be the nearest stop of the window. */
  lemma HoistUnique(toks: seq<Token>, start: nat, j: nat)
    requires 1 < start < |toks|
    requires InWindow(start, j) && Stops(toks[j]) && forall m :: j < m < start ==> !Stops(toks[m])
    ensures forall j': nat :: (InWindow(start, j') && Stops(toks[j'])
                              && forall m :: j' < m < start ==> !Stops(toks[m])) ==> j' == j
  {
  }

  /** `tokens.insert(at, tokens.pop(start))` for `at < start`: the token at
      `start` moves to `at` and those in between shift right by one. */
  function Rotate<T>(s: seq<T>, at: nat, start: nat): (r: seq<T>)
    requires at <= start < |s|
    ensures |r| == |s|
    ensures r[at] == s[start]
    ensures forall k :: 0 <= k < at ==> r[k] == s[k]
    ensures forall k :: at < k <= start ==> r[k] == s[k - 1]
    ensures forall k :: start < k < |s| ==> r[k] == s[k]
  {
    s[..at] + [s[start]] + s[at..start] + s[start + 1..]
  }

  /** The move neither loses nor duplicates a token. */
  lemma RotateIsPermutation<T>(s: seq<T>, at: nat, start: nat)
    requires at <= start < |s|
    ensures multiset(Rotate(s, at, start)) == multiset(s)
  {
    assert s == s[..at] + s[at..start] + [s[start]] + s[start + 1..];
  }

  // ---------------------------------------------------------------------------
  // The whole pass

  /** The state after one fixup step, and whether it completed. */
  datatype Step = Step(tokens: seq<Token>, ok: bool)

  /** The first part of an iteration: the keyword "property" that names a
      property becomes an ELEMENT. */
  function Reclassify(toks: seq<Token>, i: nat): (r: seq<Token>)
    requires i < |toks|
    ensures |r| == |toks|
    ensures forall k :: 0 <= k < |toks| && k != i ==> r[k] == toks[k]
    ensures r[i].value == toks[i].value && r[i].idx == toks[i].idx && r[i].column == toks[i].column
    ensures r != toks <==> NamesPropertyProperty(toks, i)
    ensures r != toks ==> r[i].kind == Element
  {
    if NamesPropertyProperty(toks, i) then toks[i := AsElement(toks[i])] else toks
  }

  /** The second part: a comment token is left-shifted. */
  function ShiftComment(toks: seq<Token>, i: nat): (r: seq<Token>)
    requires i < |toks|
    ensures |r| == |toks|
  {
    if toks[i].kind == Comment || toks[i].kind == IComment then toks[i := LeftShifted(toks[i])] else toks
  }

  /** The third part: an inline comment past index 1 is hoisted. */
  function HoistStep(toks: seq<Token>, i: nat): (r: Step)
    requires i < |toks|
    ensures |r.tokens| == |toks|
  {
    if toks[i].kind == IComment && i > 1 then
      match HoistDecision(toks, i)
      case HoistTo(at) => Step(Rotate(toks, at, i), true)
      case Stay => Step(toks, true)
      case Unbound => Step(toks, false)
    else Step(toks, true)
  }

  /** One iteration of the loop in `fixup_tokens`, on the list as it is when
      the loop reaches index `i`.  The later parts look at the token type the
      iteration started with; reclassifying only ever changes a KEYWORD into
      an ELEMENT, neither of which the later parts act on. */
  function FixupAt(toks: seq<Token>, i: nat): (r: Step)
    requires i < |toks|
    ensures |r.tokens| == |toks|
  {
    HoistStep(ShiftComment(Reclassify(toks, i), i), i)
  }

  /** `fixup_tokens` from index `i` on; it stops at the first failure. */
  function FixupFrom(toks: seq<Token>, i: nat): (r: Step)
    ensures |r.tokens| == |toks|
    decreases |toks| - i
  {
    if i >= |toks| then Step(toks, true)
    else
      var s := FixupAt(toks, i);
      if s.ok then FixupFrom(s.tokens, i + 1) else s
  }

  /** The offsets of a token list, in order. */
  function Offsets(toks: seq<Token>): (r: seq<nat>)
    ensures |r| == |toks|
    ensures forall k :: 0 <= k < |toks| ==> r[k] == toks[k].idx
  {
    seq(|toks|, k requires 0 <= k < |toks| => toks[k].idx)
  }

  /** Replacing a token by one with the same offset keeps the offsets. */
  lemma OffsetsUpdate(toks: seq<Token>, i: nat, t: Token)
    requires i < |toks| && t.idx == toks[i].idx
    ensures Offsets(toks[i := t]) == Offsets(toks)
  {
  }

  /** Moving a token moves its offset the same way. */
  lemma OffsetsRotate(toks: seq<Token>, at: nat, start: nat)
    requires at <= start < |toks|
    ensures Offsets(Rotate(toks, at, start)) == Rotate(Offsets(toks), at, start)
  {
    var a, b := Offsets(Rotate(toks, at, start)), Rotate(Offsets(toks), at, start);
    assert forall k :: 0 <= k < |a| ==> a[k] == b[k];
  }

  /** Moving a token keeps the multiset of offsets. */
  lemma RotateKeepsOffsets(toks: seq<Token>, at: nat, start: nat)
    requires at <= start < |toks|
    ensures multiset(Offsets(Rotate(toks, at, start))) == multiset(Offsets(toks))
  {
    OffsetsRotate(toks, at, start);
    RotateIsPermutation(Offsets(toks), at, start);
  }

  /** One fixup step keeps the multiset of token offsets: reclassifying and
      de-indenting keep each token's offset, and hoisting only reorders. */
  lemma FixupAtKeepsOffsets(toks: seq<Token>, i: nat)
    requires i < |toks|
    ensures multiset(Offsets(FixupAt(toks, i).tokens)) == multiset(Offsets(toks))
  {
    var t1 := Reclassify(toks, i);
    if NamesPropertyProperty(toks, i) {
      OffsetsUpdate(toks, i, AsElement(toks[i]));
    }
    var t2 := ShiftComment(t1, i);
    if t1[i].kind == Comment || t1[i].kind == IComment {
      OffsetsUpdate(t1, i, LeftShifted(t1[i]));
    }
    assert Offsets(t2) == Offsets(toks);
    HoistStepKeepsOffsets(t2, i);
  }

  lemma HoistStepKeepsOffsets(toks: seq<Token>, i: nat)
    requires i < |toks|
    ensures multiset(Offsets(HoistStep(toks, i).tokens)) == multiset(Offsets(toks))
  {
    if toks[i].kind == IComment && i > 1 {
      var d := HoistDecision(toks, i);
      if d.HoistTo? {
        RotateKeepsOffsets(toks, d.at, i);
      }
    }
  }

  /** The whole pass keeps the multiset of token offsets: no token is lost,
      duplicated or invented, whether the pass completes or fails. */
  lemma {:induction false} FixupKeepsOffsets(toks: seq<Token>, i: nat)
    ensures multiset(Offsets(FixupFrom(toks, i).tokens)) == multiset(Offsets(toks))
    decreases |toks| - i
  {
    if i < |toks| {
      FixupAtKeepsOffsets(toks, i);
      var s := FixupAt(toks, i);
      if s.ok {
        FixupKeepsOffsets(s.tokens, i + 1);
      }
    }
  }
}
