/** The error-position helpers of doxyqml/main.py: they turn an offset into
    the text into a 1-based row and column and a two-line snippet with a
    caret under the offending character. */
module ErrorInfo {
  import opened Text

  /** Python slicing clamps an offset past the end to the end. */
  function Clamp(text: string, idx: nat): (i: nat)
    ensures i <= |text|
  {
    if idx <= |text| then idx else |text|
  }

  datatype Coord = Coord(row: nat, col: nat)

  /** `coord_for_idx`: `text[:idx].rpartition("\n")`; the row counts the
      newlines of the head plus the one found, the column the characters of
      the tail. */
  function CoordForIdx(text: string, idx: nat): (r: Coord)
    ensures r.row == 1 + CountChar(text[..Clamp(text, idx)], '\n')
    ensures r.col == 1 + ColumnAt(text, Clamp(text, idx))
  {
    var i := Clamp(text, idx);
    var nl := RFind(text, '\n', 0, i);
    ColumnFromLastNewline(text, i);
    if nl != -1 then
      CountThroughLastNewline(text, nl, i);
      Coord(CountChar(text[..nl], '\n') + 2, i - nl)
    else
      CountCharAbsent(text[..i], '\n');
      Coord(1, i + 1)
  }

  /** The newlines before `i` are those before the last of them, and that one. */
  lemma CountThroughLastNewline(text: string, nl: nat, i: nat)
    requires nl < i <= |text| && text[nl] == '\n'
    requires forall k :: nl < k < i ==> text[k] != '\n'
    ensures CountChar(text[..i], '\n') == CountChar(text[..nl], '\n') + 1
  {
    var head, tail := text[..nl], text[nl + 1..i];
    assert text[..i] == head + ("\n" + tail);
    CountCharAppend(head, "\n" + tail, '\n');
    CountCharAppend("\n", tail, '\n');
    CountCharAbsent(tail, '\n');
  }

  /** `line_for_idx`: from the last newline before the offset (kept) or the
      start of the text, to the first newline at or after it.  With no later
      newline, `find` gives -1 and the slice drops the last character. */
  function LineForIdx(text: string, idx: nat): (r: string)
    ensures |r| <= |text|
  {
    var i := Clamp(text, idx);
    var b := RFind(text, '\n', 0, i);
    var bol := if b == -1 then 0 else b;
    var eol := Find(text, '\n', i);
    var stop := if eol != -1 then eol else if |text| > 0 then |text| - 1 else 0;
    if bol <= stop then text[bol..stop] else ""
  }

  /** The line of `i` as it would be read: the newline that ends the
      previous line, if any, then the characters from the line's start to
      its end. */
  function LineOf(text: string, i: nat): string
    requires i <= |text|
  {
    var start := i - ColumnAt(text, i);
    (if start > 0 then "\n" else "") + text[start..LineEnd(text, i)]
  }

  /** `line_for_idx` gives the line of the offset, except that when no
      newline follows it the last character of the text is lost. */
  lemma LineForIdxIsLine(text: string, idx: nat)
    ensures LineEnd(text, Clamp(text, idx)) < |text| ==> LineForIdx(text, idx) == LineOf(text, Clamp(text, idx))
    ensures LineEnd(text, Clamp(text, idx)) == |text| && |text| > 0 ==>
              LineForIdx(text, idx) + [text[|text| - 1]] == LineOf(text, Clamp(text, idx))
    ensures |text| == 0 ==> LineForIdx(text, idx) == []
  {
    var i := Clamp(text, idx);
    var start, end := i - ColumnAt(text, i), LineEnd(text, i);
    LastNewlineIsLineStart(text, i);
    FirstNewlineIsLineEnd(text, i);
    var stop := if end < |text| then end else if |text| > 0 then |text| - 1 else 0;
    var bol := if start > 0 then start - 1 else 0;
    assert LineForIdx(text, idx) == text[bol..stop];
    if end < |text| {
      if start > 0 { NewlineThenSlice(text, start, stop); }
    } else if |text| > 0 {
      if start > 0 {
        NewlineSliceDropLast(text, start);
      } else {
        DropLast(text, start);
      }
    }
  }

  /** From just after a newline to the end, less the last character, then
      that character: the newline and the rest of the text. */
  lemma NewlineSliceDropLast(s: string, p: nat)
    requires 0 < p <= |s| && s[p - 1] == '\n'
    ensures s[p - 1..|s| - 1] + [s[|s| - 1]] == "\n" + s[p..]
  {
    if p < |s| {
      NewlineThenSlice(s, p, |s| - 1);
      DropLast(s, p);
      assert ("\n" + s[p..|s| - 1]) + [s[|s| - 1]] == "\n" + (s[p..|s| - 1] + [s[|s| - 1]]);
    }
  }

  lemma NewlineThenSlice(s: string, p: nat, q: nat)
    requires 0 < p <= q <= |s| && s[p - 1] == '\n'
    ensures s[p - 1..q] == "\n" + s[p..q]
  {
  }

  lemma DropLast(s: string, p: nat)
    requires p < |s|
    ensures s[p..|s| - 1] + [s[|s| - 1]] == s[p..]
  {
  }

  /** `text.rfind("\n", 0, i)` is one before the start of the line of `i`
      (so -1 on the first line). */
  lemma LastNewlineIsLineStart(text: string, i: nat)
    requires i <= |text|
    ensures RFind(text, '\n', 0, i) == i - ColumnAt(text, i) - 1
    ensures i - ColumnAt(text, i) > 0 ==> text[i - ColumnAt(text, i) - 1] == '\n'
  {
    ColumnFromLastNewline(text, i);
  }

  /** `text.find("\n", i)` is the end of the line of `i`, or -1 on the last line. */
  lemma FirstNewlineIsLineEnd(text: string, i: nat)
    requires i <= |text|
    ensures Find(text, '\n', i) == if LineEnd(text, i) == |text| then -1 else LineEnd(text, i)
  {
    var f, e := Find(text, '\n', i), LineEnd(text, i);
    if f != -1 && e < |text| {
      assert !(f < e) && !(e < f);
    }
  }

  /** `(col - 1)` dashes and a caret. */
  function CaretLine(col: nat): (r: string)
    requires col >= 1
    ensures |r| == col && r[col - 1] == '^'
    ensures forall k :: 0 <= k < col - 1 ==> r[k] == '-'
  {
    Repeat('-', col - 1) + "^"
  }

  /** `info_for_error_at`: the row, and the line followed by a caret line
      whose caret stands in the column of the offset. */
  function InfoForErrorAt(text: string, idx: nat): (r: (nat, string))
    ensures r.0 == CoordForIdx(text, idx).row
    ensures |r.1| > |LineForIdx(text, idx)|
    ensures r.1[..|LineForIdx(text, idx)|] == LineForIdx(text, idx) && r.1[|LineForIdx(text, idx)|] == '\n'
    ensures r.1[|LineForIdx(text, idx)| + 1..] == CaretLine(1 + ColumnAt(text, Clamp(text, idx)))
  {
    var c := CoordForIdx(text, idx);
    var line := LineForIdx(text, idx);
    var msg := line + "\n" + CaretLine(c.col);
    assert msg[|line| + 1..] == CaretLine(c.col);
    (c.row, msg)
  }

  /** At offset 0 the position is row 1, column 1 and the caret line is a
      bare caret. */
  lemma AtStart(text: string)
    ensures CoordForIdx(text, 0) == Coord(1, 1)
    ensures InfoForErrorAt(text, 0) == (1, LineForIdx(text, 0) + "\n^")
  {
    assert text[..0] == [];
    assert CaretLine(1) == "^";
    assert LineForIdx(text, 0) + "\n" + "^" == LineForIdx(text, 0) + "\n^";
  }
}
