/** String helpers shared by the lexer, the class model and the error reporter.

    Character classes are the ASCII parts of Python's `str.isspace()` (also the
    regex class `\s`) and of the regex class `\w`.  The searching functions follow
    Python's `str.find`, `str.rfind`, `str.split` and `str.join`, including their
    `-1` result for "not found". */
module Text {

  datatype Option<T> = None | Some(value: T)

  /** `c.isspace()` / `\s`: space, `\t`, `\n`, `\v`, `\f`, `\r` and the four
      information separators `\x1c`..`\x1f`. */
  predicate IsSpace(c: char) {
    c == ' ' || (9 <= c as int <= 13) || (28 <= c as int <= 31)
  }

  predicate NotSpace(c: char) {
    !IsSpace(c)
  }

  /** `[ \t]` */
  predicate IsBlank(c: char) {
    c == ' ' || c == '\t'
  }

  /** `\w` */
  predicate IsWordChar(c: char) {
    ('a' <= c <= 'z') || ('A' <= c <= 'Z') || ('0' <= c <= '9') || c == '_'
  }

  predicate NotNewline(c: char) {
    c != '\n'
  }

  /** `s` occurs in `t` at offset `i`. */
  predicate StartsAt(t: string, i: nat, s: string) {
    i + |s| <= |t| && t[i..i + |s|] == s
  }

  predicate StartsWith(t: string, s: string) {
    StartsAt(t, 0, s)
  }

  predicate EndsWith(t: string, s: string) {
    |s| <= |t| && t[|t| - |s|..] == s
  }

  /** A concatenation starts with its left part and ends with its right part. */
  lemma AppendEnds(x: string, y: string)
    ensures StartsWith(x + y, x) && EndsWith(x + y, y)
  {
    assert (x + y)[0..|x|] == x;
    assert (x + y)[|x + y| - |y|..] == y;
  }

  /** End of the longest run of characters satisfying `p` that starts at `i`
      (what a greedy `[...]*` reaches). */
  function SpanWhile(t: string, i: nat, p: char -> bool): (j: nat)
    requires i <= |t|
    ensures i <= j <= |t|
    ensures forall k :: i <= k < j ==> p(t[k])
    ensures j == |t| || !p(t[j])
    decreases |t| - i
  {
    if i == |t| || !p(t[i]) then i else SpanWhile(t, i + 1, p)
  }

  /** A run of `p` characters from `i` that stops at `j` is the longest one. */
  lemma {:induction false} SpanWhileIsLongestRun(t: string, i: nat, p: char -> bool, j: nat)
    requires i <= j <= |t|
    requires forall k :: i <= k < j ==> p(t[k])
    requires j == |t| || !p(t[j])
    ensures SpanWhile(t, i, p) == j
    decreases j - i
  {
    if i < j {
      SpanWhileIsLongestRun(t, i + 1, p, j);
    }
  }

  /** Offset of the `\n` ending the line that contains `i`, or `|t|`
      (what `[^\n]*` reaches). */
  function LineEnd(t: string, i: nat): (j: nat)
    requires i <= |t|
    ensures i <= j <= |t|
    ensures forall k :: i <= k < j ==> t[k] != '\n'
    ensures j == |t| || t[j] == '\n'
  {
    SpanWhile(t, i, NotNewline)
  }

  /** `t.rfind(c, lo, hi)`: the last offset in `[lo, hi)` holding `c`, or -1. */
  function RFind(t: string, c: char, lo: nat, hi: nat): (r: int)
    requires lo <= hi <= |t|
    ensures r == -1 || (lo <= r < hi && t[r] == c)
    ensures r == -1 ==> forall k :: lo <= k < hi ==> t[k] != c
    ensures r != -1 ==> forall k :: r < k < hi ==> t[k] != c
    decreases hi - lo
  {
    if hi == lo then -1 else if t[hi - 1] == c then hi - 1 else RFind(t, c, lo, hi - 1)
  }

  /** `t.find(c, lo)`: the first offset at or after `lo` holding `c`, or -1. */
  function Find(t: string, c: char, lo: nat): (r: int)
    requires lo <= |t|
    ensures r == -1 || (lo <= r < |t| && t[r] == c)
    ensures r == -1 ==> forall k :: lo <= k < |t| ==> t[k] != c
    ensures r != -1 ==> forall k :: lo <= k < r ==> t[k] != c
    decreases |t| - lo
  {
    if lo == |t| then -1 else if t[lo] == c then lo else Find(t, c, lo + 1)
  }

  /** `s.count(c)` for a single character: at most one per character, and
      none exactly when `c` does not occur. */
  function CountChar(s: string, c: char): (r: nat)
    ensures r <= |s|
    ensures r == 0 <==> c !in s
  {
    if s == [] then 0
    else
      assert s == [s[0]] + s[1..];
      (if s[0] == c then 1 else 0) + CountChar(s[1..], c)
  }

  lemma {:induction false} CountCharAppend(a: string, b: string, c: char)
    ensures CountChar(a + b, c) == CountChar(a, c) + CountChar(b, c)
    decreases |a|
  {
    if a == [] {
      assert a + b == b;
    } else {
      assert (a + b)[1..] == a[1..] + b;
      CountCharAppend(a[1..], b, c);
    }
  }

  lemma {:induction false} CountCharAbsent(s: string, c: char)
    requires forall k :: 0 <= k < |s| ==> s[k] != c
    ensures CountChar(s, c) == 0
    decreases |s|
  {
    if s != [] {
      CountCharAbsent(s[1..], c);
    }
  }

  /** The column of offset `i`: the number of characters between the last `\n`
      before `i` and `i`.  Every character, a tab included, counts as one. */
  function ColumnAt(t: string, i: nat): (r: nat)
    requires i <= |t|
    ensures r <= i
  {
    if i == 0 then 0 else if t[i - 1] == '\n' then 0 else ColumnAt(t, i - 1) + 1
  }

  /** The column counts back to the start of the line: the characters it
      covers hold no newline, and the one before them, if any, is a newline. */
  lemma {:induction false} ColumnIsLineOffset(t: string, i: nat)
    requires i <= |t|
    ensures forall k :: i - ColumnAt(t, i) <= k < i ==> t[k] != '\n'
    ensures ColumnAt(t, i) < i ==> t[i - ColumnAt(t, i) - 1] == '\n'
    decreases i
  {
    if i > 0 && t[i - 1] != '\n' {
      ColumnIsLineOffset(t, i - 1);
    }
  }

  /** The column is `i` minus the position of the last newline before `i` minus
      one, or `i` itself on the first line (the formula of `Lexer.set_position`). */
  lemma {:induction false} ColumnFromLastNewline(t: string, i: nat)
    requires i <= |t|
    ensures var nl := RFind(t, '\n', 0, i);
            ColumnAt(t, i) == if nl == -1 then i else i - nl - 1
    decreases i
  {
    if i > 0 && t[i - 1] != '\n' {
      ColumnFromLastNewline(t, i - 1);
    }
  }

  /** `s.split(c)`: the pieces between occurrences of `c`; never empty. */
  function Split(s: string, c: char): (r: seq<string>)
    ensures |r| == CountChar(s, c) + 1
    ensures forall k :: 0 <= k < |r| ==> c !in r[k]
    decreases |s|
  {
    var k := Find(s, c, 0);
    if k == -1 then
      CountCharAbsent(s, c);
      [s]
    else
      var rest := Split(s[k + 1..], c);
      assert s == s[..k] + ([c] + s[k + 1..]);
      CountCharAbsent(s[..k], c);
      CountCharAppend(s[..k], [c] + s[k + 1..], c);
      CountCharAppend([c], s[k + 1..], c);
      assert CountChar([c], c) == 1 by {
        assert [c][1..] == [];
      }
      [s[..k]] + rest
  }

  /** `sep.join(parts)` */
  function Join(parts: seq<string>, sep: string): string {
    if |parts| == 0 then ""
    else if |parts| == 1 then parts[0]
    else parts[0] + sep + Join(parts[1..], sep)
  }

  /** Splitting at `c` and joining again with `c` gives back the string. */
  lemma {:induction false} JoinSplit(s: string, c: char)
    ensures Join(Split(s, c), [c]) == s
    decreases |s|
  {
    var k := Find(s, c, 0);
    if k != -1 {
      JoinSplit(s[k + 1..], c);
      assert s == s[..k] + [c] + s[k + 1..];
    }
  }

  /** Joining pieces free of `c` with `c` and splitting again gives back the pieces. */
  lemma {:induction false} SplitJoin(parts: seq<string>, c: char)
    requires |parts| >= 1
    requires forall k :: 0 <= k < |parts| ==> c !in parts[k]
    ensures Split(Join(parts, [c]), c) == parts
    decreases |parts|
  {
    var s := Join(parts, [c]);
    if |parts| == 1 {
      assert Find(s, c, 0) == -1;
    } else {
      var p := parts[0];
      assert s == p + [c] + Join(parts[1..], [c]);
      assert s[|p|] == c;
      assert Find(s, c, 0) == |p|;
      assert s[..|p|] == p;
      assert s[|p| + 1..] == Join(parts[1..], [c]);
      SplitJoin(parts[1..], c);
    }
  }

  /** `s.replace(c, rep)` for a single-character pattern. */
  function ReplaceChar(s: string, c: char, rep: string): string {
    if s == [] then "" else (if s[0] == c then rep else [s[0]]) + ReplaceChar(s[1..], c, rep)
  }

  /** Replacing every `c` is the same as splitting at `c` and joining with the
      replacement: `m.replace('.', '::')` and `'::'.join(m.split('.'))` agree. */
  lemma {:induction false} ReplaceIsSplitJoin(s: string, c: char, rep: string)
    ensures ReplaceChar(s, c, rep) == Join(Split(s, c), rep)
    decreases |s|
  {
    var k := Find(s, c, 0);
    if k == -1 {
      ReplaceAbsent(s, c, rep);
    } else {
      var rest := Split(s[k + 1..], c);
      ReplaceIsSplitJoin(s[k + 1..], c, rep);
      ReplaceAtFirst(s, c, rep, k);
      JoinCons(s[..k], rest, rep);
    }
  }

  /** Replacing around the first `c`, at `k`. */
  lemma ReplaceAtFirst(s: string, c: char, rep: string, k: nat)
    requires k < |s| && s[k] == c && forall j :: 0 <= j < k ==> s[j] != c
    ensures ReplaceChar(s, c, rep) == s[..k] + rep + ReplaceChar(s[k + 1..], c, rep)
  {
    assert s == s[..k] + s[k..];
    ReplaceAppend(s[..k], s[k..], c, rep);
    ReplaceAbsent(s[..k], c, rep);
    assert s[k..][1..] == s[k + 1..];
  }

  lemma JoinCons(x: string, rest: seq<string>, sep: string)
    requires |rest| >= 1
    ensures Join([x] + rest, sep) == x + sep + Join(rest, sep)
  {
    assert ([x] + rest)[1..] == rest;
  }

  lemma {:induction false} ReplaceAbsent(s: string, c: char, rep: string)
    requires forall k :: 0 <= k < |s| ==> s[k] != c
    ensures ReplaceChar(s, c, rep) == s
    decreases |s|
  {
    if s != [] {
      ReplaceAbsent(s[1..], c, rep);
    }
  }

  lemma {:induction false} ReplaceAppend(a: string, b: string, c: char, rep: string)
    ensures ReplaceChar(a + b, c, rep) == ReplaceChar(a, c, rep) + ReplaceChar(b, c, rep)
    decreases |a|
  {
    if a == [] {
      assert a + b == b;
    } else {
      assert (a + b)[1..] == a[1..] + b;
      ReplaceAppend(a[1..], b, c, rep);
    }
  }

  /** `s.split()` with no argument: the maximal runs of non-whitespace, in
      order (see `WordsLeadingSpace`, `WordsCons` and `WordsJoin`); none
      exactly when `s` is all whitespace. */
  function Words(s: string): (r: seq<string>)
    ensures forall k :: 0 <= k < |r| ==> r[k] != []
    ensures forall k, j :: 0 <= k < |r| && 0 <= j < |r[k]| ==> !IsSpace(r[k][j])
    ensures r == [] <==> forall k :: 0 <= k < |s| ==> IsSpace(s[k])
    decreases |s|
  {
    if s == [] then []
    else if IsSpace(s[0]) then Words(s[1..])
    else
      var e := SpanWhile(s, 0, NotSpace);
      [s[..e]] + Words(s[e..])
  }

  /** Leading whitespace does not change the words. */
  lemma {:induction false} WordsLeadingSpace(sp: string, s: string)
    requires forall k :: 0 <= k < |sp| ==> IsSpace(sp[k])
    ensures Words(sp + s) == Words(s)
    decreases |sp|
  {
    if sp == [] {
      assert sp + s == s;
    } else {
      assert (sp + s)[1..] == sp[1..] + s;
      WordsLeadingSpace(sp[1..], s);
    }
  }

  /** A word followed by whitespace (or by nothing) is the first word. */
  lemma WordsCons(w: string, sp: string, s: string)
    requires w != [] && forall k :: 0 <= k < |w| ==> !IsSpace(w[k])
    requires forall k :: 0 <= k < |sp| ==> IsSpace(sp[k])
    requires sp != [] || s == []
    ensures Words(w + sp + s) == [w] + Words(s)
  {
    var t := w + sp + s;
    SpanWhileIsLongestRun(t, 0, NotSpace, |w|);
    assert t[..|w|] == w;
    assert t[|w|..] == sp + s;
    WordsLeadingSpace(sp, s);
  }

  /** Words joined by single spaces split back into the same words. */
  lemma {:induction false} WordsJoin(ws: seq<string>)
    requires forall k :: 0 <= k < |ws| ==> ws[k] != []
    requires forall k, j :: 0 <= k < |ws| && 0 <= j < |ws[k]| ==> !IsSpace(ws[k][j])
    ensures Words(Join(ws, " ")) == ws
    decreases |ws|
  {
    if |ws| == 1 {
      WordsCons(ws[0], "", "");
      assert ws[0] + "" + "" == ws[0];
    } else if |ws| > 1 {
      var rest := ws[1..];
      assert forall k :: 0 <= k < |rest| ==> rest[k] == ws[k + 1];
      WordsJoin(rest);
      assert Join(ws, " ") == ws[0] + " " + Join(rest, " ");
      WordsCons(ws[0], " ", Join(rest, " "));
    }
  }

  /** `s.strip()`: `s` without its leading and trailing whitespace; what is
      kept starts and ends with non-whitespace. */
  function StripSpace(s: string): (r: string)
    ensures r == [] || (NotSpace(r[0]) && NotSpace(r[|r| - 1]))
    ensures exists a, b :: 0 <= a <= b <= |s| && r == s[a..b]
                           && (forall k :: 0 <= k < a ==> IsSpace(s[k]))
                           && (forall k :: b <= k < |s| ==> IsSpace(s[k]))
  {
    var a := SpanWhile(s, 0, IsSpace);
    var b := LastNonSpace(s, |s|);
    if b <= a then
      assert a == |s|;
      assert s[0..0] == [];
      []
    else s[a..b]
  }

  /** One past the last non-whitespace character in `s[..hi]`, or 0. */
  function LastNonSpace(s: string, hi: nat): (b: nat)
    requires hi <= |s|
    ensures b <= hi
    ensures b > 0 ==> NotSpace(s[b - 1])
    ensures forall k :: b <= k < hi ==> IsSpace(s[k])
  {
    if hi == 0 || NotSpace(s[hi - 1]) then hi else LastNonSpace(s, hi - 1)
  }

  /** `s.lower()` on ASCII letters. */
  function Lower(s: string): (r: string)
    ensures |r| == |s|
    ensures forall k :: 0 <= k < |s| ==> r[k] == LowerChar(s[k])
  {
    if s == [] then "" else [LowerChar(s[0])] + Lower(s[1..])
  }

  function LowerChar(c: char): char {
    if 'A' <= c <= 'Z' then (c as int + 32) as char else c
  }

  /** `"x" * n` */
  function Repeat(c: char, n: nat): (r: string)
    ensures |r| == n
    ensures forall k :: 0 <= k < n ==> r[k] == c
  {
    if n == 0 then "" else [c] + Repeat(c, n - 1)
  }

  /** The text before and after the last `c` of `s`, or `("", s)` when `s`
      holds no `c`. */
  function SplitAtLast(s: string, c: char): (r: (string, string))
    ensures c !in r.1
    ensures (r.0 == [] && r.1 == s) || r.0 + [c] + r.1 == s
  {
    var k := RFind(s, c, 0, |s|);
    if k == -1 then ("", s)
    else
      assert s == s[..k] + [c] + s[k + 1..];
      (s[..k], s[k + 1..])
  }

  /** The last `c` of `a + [c] + b` is the one between them when `b` has none. */
  lemma SplitAtLastOf(a: string, c: char, b: string)
    requires c !in b
    ensures SplitAtLast(a + [c] + b, c) == (a, b)
  {
    var s := a + [c] + b;
    var k := RFind(s, c, 0, |s|);
    assert s[|a|] == c;
    assert k == |a|;
    assert s[..k] == a && s[k + 1..] == b;
  }

  /** Splitting at an occurrence of `c` splits the two sides separately. */
  lemma {:induction false} SplitAround(a: string, c: char, b: string)
    ensures Split(a + [c] + b, c) == Split(a, c) + Split(b, c)
    decreases |a|
  {
    var k := Find(a, c, 0);
    if k == -1 {
      SplitAroundAbsent(a, c, b);
    } else {
      SplitAround(a[k + 1..], c, b);
      SplitAroundStep(a, c, b, k);
    }
  }

  lemma SplitAroundAbsent(a: string, c: char, b: string)
    requires forall j :: 0 <= j < |a| ==> a[j] != c
    ensures Split(a + [c] + b, c) == Split(a, c) + Split(b, c)
  {
    var s := a + [c] + b;
    assert forall j :: 0 <= j < |a| ==> s[j] == a[j];
    SplitAtFirst(s, c, |a|);
    assert s[..|a|] == a && s[|a| + 1..] == b;
    SplitAbsent(a, c);
  }

  lemma SplitAroundStep(a: string, c: char, b: string, k: nat)
    requires k < |a| && a[k] == c && forall j :: 0 <= j < k ==> a[j] != c
    requires Split(a[k + 1..] + [c] + b, c) == Split(a[k + 1..], c) + Split(b, c)
    ensures Split(a + [c] + b, c) == Split(a, c) + Split(b, c)
  {
    var s, tail := a + [c] + b, a[k + 1..];
    assert forall j :: 0 <= j < |a| ==> s[j] == a[j];
    SplitAtFirst(s, c, k);
    SlicesAround(a, c, b, k);
    SplitAtFirst(a, c, k);
    ConcatAssoc([a[..k]], Split(tail, c), Split(b, c));
  }

  lemma SlicesAround(a: string, c: char, b: string, k: nat)
    requires k < |a|
    ensures (a + [c] + b)[..k] == a[..k]
    ensures (a + [c] + b)[k + 1..] == a[k + 1..] + [c] + b
  {
  }

  /** Dropping a prefix of `x` from `x + y` leaves the rest of `x`, then `y`. */
  lemma DropFromAppend<T>(x: seq<T>, y: seq<T>, n: nat)
    requires n <= |x|
    ensures (x + y)[n..] == x[n..] + y
  {
  }

  lemma ConcatAssoc<T>(x: seq<T>, y: seq<T>, z: seq<T>)
    ensures x + (y + z) == (x + y) + z
  {
  }

  /** With its first `c` at `k`, a string splits into the part before `k`
      and the pieces of the part after it. */
  lemma SplitAtFirst(s: string, c: char, k: nat)
    requires k < |s| && s[k] == c && forall j :: 0 <= j < k ==> s[j] != c
    ensures Split(s, c) == [s[..k]] + Split(s[k + 1..], c)
  {
    assert Find(s, c, 0) == k;
  }

  /** A string without `c` is its own single piece. */
  lemma SplitAbsent(s: string, c: char)
    requires c !in s
    ensures Split(s, c) == [s]
  {
    assert Find(s, c, 0) == -1;
  }

  /** The last offset in `[lo, hi)` where `P` holds, or nothing. */
  function LastWhere(P: nat -> bool, lo: nat, hi: nat): (r: Option<nat>)
    requires lo <= hi
    ensures r.None? <==> forall q :: lo <= q < hi ==> !P(q)
    ensures r.Some? ==> lo <= r.value < hi && P(r.value) && forall q :: r.value < q < hi ==> !P(q)
    decreases hi - lo
  {
    if hi == lo then None else if P(hi - 1) then Some(hi - 1) else LastWhere(P, lo, hi - 1)
  }

  /** An offset where `P` holds and after which it never does is the last. */
  lemma LastWhereIs(P: nat -> bool, lo: nat, hi: nat, q: nat)
    requires lo <= q < hi && P(q)
    requires forall q' :: q < q' < hi ==> !P(q')
    ensures LastWhere(P, lo, hi) == Some(q)
  {
    assert LastWhere(P, lo, hi).Some?;
  }

  /** Moving the start of the search from `p` to `next`, past offsets where
      `P` fails, and switching to a `Q` that agrees with `P` from `next` on:
      the last offset is found after `next`, or else it is `p` itself. */
  lemma LastWhereStep(P: nat -> bool, Q: nat -> bool, p: nat, next: nat, hi: nat)
    requires p < next <= hi
    requires forall q :: next <= q < hi ==> Q(q) == P(q)
    requires forall q :: p < q < next ==> !P(q)
    ensures LastWhere(P, p, hi) == match LastWhere(Q, next, hi)
                                   case Some(q) => Some(q)
                                   case None => if P(p) then Some(p) else None
  {
    var later := LastWhere(Q, next, hi);
    if later.Some? {
      LastWhereIs(P, p, hi, later.value);
    } else if P(p) {
      LastWhereIs(P, p, hi, p);
    } else {
      forall q | p <= q < hi
        ensures !P(q)
      {
        if next <= q {
          assert !Q(q);
        }
      }
    }
  }

  /** `f(lo) + f(lo + 1) + ... + f(hi - 1)`. */
  function JoinRange<T>(f: nat -> seq<T>, lo: nat, hi: nat): seq<T>
    decreases hi - lo
  {
    if lo >= hi then [] else f(lo) + JoinRange(f, lo + 1, hi)
  }

  /** Offsets whose part is empty can be skipped. */
  lemma {:induction false} JoinRangeSkip<T>(f: nat -> seq<T>, lo: nat, mid: nat, hi: nat)
    requires lo <= mid
    requires forall q :: lo <= q < mid ==> f(q) == []
    ensures JoinRange(f, lo, hi) == JoinRange(f, mid, hi)
    decreases mid - lo
  {
    if lo < mid {
      JoinRangeSkip(f, lo + 1, mid, hi);
      if lo < hi {
        assert JoinRange(f, lo, hi) == f(lo) + JoinRange(f, lo + 1, hi);
      }
    }
  }
}
