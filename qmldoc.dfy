/** Type annotations inside doc comments (doxyqml/qmlclass.py:4-11, 178-217):
    a doc comment may carry `type:T` after a property's doc, after `@return`,
    or in `@param type:T name`; the annotation is cut out of the comment and
    becomes the member's type.  Each regular expression is matched by hand. */
module QmlDoc {
  import opened Text

  /** `[\w.<>|]`, a character of a type name. */
  predicate IsTypeChar(c: char) {
    IsWordChar(c) || c == '.' || c == '<' || c == '>' || c == '|'
  }

  /** A match of `TYPE_RX` or of `[@\\]returns?` + `TYPE_RX`: where the match
      begins, where its `prefix` group (the whitespace) begins, and the span
      of its `type` group. */
  datatype TypeMatch = TypeMatch(at: nat, prefix: nat, typeStart: nat, typeEnd: nat)

  /** `\s+type:[\w.<>|]+` spells `t[p..e]`, with `type:` at `q`. */
  ghost predicate TypeShape(t: string, p: nat, q: nat, e: nat) {
    p < q && q + 5 < e <= |t| && (forall k :: p <= k < q ==> IsSpace(t[k]))
    && StartsAt(t, q, "type:") && forall k :: q + 5 <= k < e ==> IsTypeChar(t[k])
  }

  /** `TYPE_RX` = `(?P<prefix>\s+type:)(?P<type>[\w.<>|]+)` matched at `p`:
      the greedy `\s+` must be followed by `type:`, and the type name is the
      longest run of type characters after it, which must not be empty.  The
      regex matches exactly when some `TypeShape` does, and the match is the
      longest one. */
  function TypeSuffixAt(t: string, p: nat): (r: Option<TypeMatch>)
    requires p <= |t|
    ensures r.Some? ==> r.value.at == p && r.value.prefix == p
    ensures r.Some? ==> p + 5 < r.value.typeStart < r.value.typeEnd <= |t|
    ensures r.Some? ==> t[r.value.typeStart - 5..r.value.typeStart] == "type:"
    ensures r.Some? ==> forall k :: p <= k < r.value.typeStart - 5 ==> IsSpace(t[k])
    ensures r.Some? ==> forall k :: r.value.typeStart <= k < r.value.typeEnd ==> IsTypeChar(t[k])
    ensures r.Some? ==> r.value.typeEnd == |t| || !IsTypeChar(t[r.value.typeEnd])
    ensures r.Some? ==> TypeShape(t, p, r.value.typeStart - 5, r.value.typeEnd)
    ensures forall q: nat, e: nat :: TypeShape(t, p, q, e) ==> r.Some? && r.value.typeStart == q + 5 && e <= r.value.typeEnd
  {
    var q := SpanWhile(t, p, IsSpace);
    forall q': nat, e: nat | TypeShape(t, p, q', e)
      ensures q' == q
    {
      assert t[q'] == t[q'..q' + 5][0];
      SpanWhileIsLongestRun(t, p, IsSpace, q');
    }
    if q > p && StartsAt(t, q, "type:") then
      var e := SpanWhile(t, q + 5, IsTypeChar);
      if e > q + 5 then Some(TypeMatch(p, p, q + 5, e)) else None
    else None
  }

  /** The two annotation patterns: a property's `TYPE_RX` and a function's
      `return_rx`. */
  datatype Pattern = PropertyType | ReturnType

  /** `@` or a backslash followed by `word`, at `p`. */
  predicate CommandAt(t: string, p: nat, word: string) {
    p < |t| && (t[p] == '@' || t[p] == '\\') && StartsAt(t, p + 1, word)
  }

  /** The pattern spells `t[p..e]` with `type:` at `q`: for `[@\\]returns?`,
      the command, an optional `s`, then a `TypeShape`. */
  ghost predicate PatternShape(pat: Pattern, t: string, p: nat, q: nat, e: nat) {
    match pat
    case PropertyType => TypeShape(t, p, q, e)
    case ReturnType =>
      CommandAt(t, p, "return")
      && (TypeShape(t, p + 7, q, e) || (p + 7 < |t| && t[p + 7] == 's' && TypeShape(t, p + 8, q, e)))
  }

  /** A match of the pattern that begins at `p`: there is one exactly when
      some `PatternShape` spells a prefix of `t[p..]`, and its type name is
      the longest.  For `[@\\]returns?` the optional `s` is taken when present:
      dropping it would leave an `s` where `\s+` needs whitespace. */
  function PatternAt(pat: Pattern, t: string, p: nat): (r: Option<TypeMatch>)
    requires p <= |t|
    ensures r.Some? ==> r.value.at == p <= r.value.prefix && r.value.prefix + 5 < r.value.typeStart
                        && r.value.typeStart < r.value.typeEnd <= |t|
    ensures r.Some? ==> t[r.value.typeStart - 5..r.value.typeStart] == "type:"
    ensures r.Some? ==> PatternShape(pat, t, p, r.value.typeStart - 5, r.value.typeEnd)
                        && (r.value.typeEnd == |t| || !IsTypeChar(t[r.value.typeEnd]))
    ensures forall q: nat, e: nat :: PatternShape(pat, t, p, q, e) ==> r.Some? && r.value.typeStart == q + 5 && e <= r.value.typeEnd
  {
    match pat
    case PropertyType => TypeSuffixAt(t, p)
    case ReturnType => ReturnTypeAt(t, p)
  }

  /** `return_rx` = `[@\\]returns?` + `TYPE_RX` matched at `p`: there is a
      match exactly when the command with or without the `s` is followed by
      a `TypeShape`, and its type name is the longest. */
  function ReturnTypeAt(t: string, p: nat): (r: Option<TypeMatch>)
    requires p <= |t|
    ensures r.Some? ==> r.value.at == p <= r.value.prefix && r.value.prefix + 5 < r.value.typeStart
                        && r.value.typeStart < r.value.typeEnd <= |t|
    ensures r.Some? ==> t[r.value.typeStart - 5..r.value.typeStart] == "type:"
    ensures r.Some? ==> PatternShape(ReturnType, t, p, r.value.typeStart - 5, r.value.typeEnd)
                        && (r.value.typeEnd == |t| || !IsTypeChar(t[r.value.typeEnd]))
    ensures forall q: nat, e: nat :: PatternShape(ReturnType, t, p, q, e) ==> r.Some? && r.value.typeStart == q + 5 && e <= r.value.typeEnd
  {
    if CommandAt(t, p, "return") then
      var r := p + 7;
      var s := if r < |t| && t[r] == 's' then r + 1 else r;
      ReturnShapesAfter(t, p, s);
      match TypeSuffixAt(t, s)
      case Some(m) => Some(TypeMatch(p, m.prefix, m.typeStart, m.typeEnd))
      case None => None
    else None
  }

  /** After `@return`, the optional `s` is part of the command whenever it is
      there: every spelling of `[@\\]returns?` + `TYPE_RX` has its
      `TypeShape` from `s` on. */
  lemma ReturnShapesAfter(t: string, p: nat, s: nat)
    requires CommandAt(t, p, "return")
    requires s == if p + 7 < |t| && t[p + 7] == 's' then p + 8 else p + 7
    ensures forall q: nat, e: nat :: PatternShape(ReturnType, t, p, q, e) ==> TypeShape(t, s, q, e)
  {
    forall q: nat, e: nat | PatternShape(ReturnType, t, p, q, e)
      ensures TypeShape(t, s, q, e)
    {
      if TypeShape(t, p + 7, q, e) {
        assert IsSpace(t[p + 7]);
      }
    }
  }

  /** In a match, whitespace runs from the prefix to `type:`, and the type
      is made of type characters. */
  lemma PatternAtSpans(pat: Pattern, t: string, p: nat)
    requires p <= |t| && PatternAt(pat, t, p).Some?
    ensures var m := PatternAt(pat, t, p).value;
            (forall k :: m.prefix <= k < m.typeStart - 5 ==> IsSpace(t[k]))
            && forall k :: m.typeStart <= k < m.typeEnd ==> IsTypeChar(t[k])
  {
  }

  /** `rx.search(t)` from `from` (see `SearchNoneIffNoMatch` and `SearchFindsLeftmost`). */
  function Search(pat: Pattern, t: string, from: nat): (r: Option<TypeMatch>)
    requires from <= |t|
    ensures r.Some? ==> from <= r.value.at <= |t| && PatternAt(pat, t, r.value.at) == r
    decreases |t| - from
  {
    match PatternAt(pat, t, from)
    case Some(m) => Some(m)
    case None => if from == |t| then None else Search(pat, t, from + 1)
  }

  /** The search finds nothing exactly when no position matches. */
  lemma SearchNoneIffNoMatch(pat: Pattern, t: string, from: nat)
    requires from <= |t|
    ensures Search(pat, t, from).None? <==> forall p :: from <= p <= |t| ==> PatternAt(pat, t, p).None?
  {
    SearchNoneMeansNoMatch(pat, t, from);
    var s := Search(pat, t, from);
    if s.Some? {
      assert PatternAt(pat, t, s.value.at).Some?;
    }
  }

  /** No position from `from` on matches. */
  ghost predicate NoMatchFrom(pat: Pattern, t: string, from: nat)
    requires from <= |t|
  {
    forall p :: from <= p <= |t| ==> PatternAt(pat, t, p).None?
  }

  lemma {:induction false} SearchNoneMeansNoMatch(pat: Pattern, t: string, from: nat)
    requires from <= |t|
    ensures Search(pat, t, from).None? ==> NoMatchFrom(pat, t, from)
    decreases |t| - from
  {
    if PatternAt(pat, t, from).None? {
      if from < |t| {
        SearchNoneMeansNoMatch(pat, t, from + 1);
        NoMatchStep(pat, t, from);
      } else {
        NoMatchAtEnd(pat, t);
      }
    }
  }

  lemma NoMatchStep(pat: Pattern, t: string, from: nat)
    requires from < |t| && PatternAt(pat, t, from).None?
    requires Search(pat, t, from + 1).None? ==> NoMatchFrom(pat, t, from + 1)
    ensures Search(pat, t, from).None? ==> NoMatchFrom(pat, t, from)
  {
    assert Search(pat, t, from) == Search(pat, t, from + 1);
  }

  lemma NoMatchAtEnd(pat: Pattern, t: string)
    requires PatternAt(pat, t, |t|).None?
    ensures NoMatchFrom(pat, t, |t|)
  {
  }

  /** A match the search finds is the leftmost one. */
  lemma {:induction false} SearchFindsLeftmost(pat: Pattern, t: string, from: nat)
    requires from <= |t|
    ensures Search(pat, t, from).Some? ==>
              forall p :: from <= p < Search(pat, t, from).value.at ==> PatternAt(pat, t, p).None?
    decreases |t| - from
  {
    var here := PatternAt(pat, t, from);
    if here.None? && from < |t| {
      var s := Search(pat, t, from + 1);
      assert Search(pat, t, from) == s;
      SearchFindsLeftmost(pat, t, from + 1);
      if s.Some? {
        forall p | from <= p < s.value.at
          ensures PatternAt(pat, t, p).None?
        {
          if p == from {
            assert PatternAt(pat, t, p) == here;
          }
        }
      }
    }
  }

  /** A doc comment and a type after post-processing. */
  datatype Processed = Processed(text: string, typeName: string)

  /** `post_process_type`: with no match both are returned unchanged;
      otherwise the type is the leftmost match's type name and the match's
      span from the whitespace through the type name is cut from the text. */
  function PostProcessType(pat: Pattern, text: string, typeName: string): (r: Processed)
    ensures Search(pat, text, 0).None? ==> r == Processed(text, typeName)
    ensures Search(pat, text, 0).Some? ==> |r.text| < |text|
  {
    match Search(pat, text, 0)
    case None => Processed(text, typeName)
    case Some(m) => Processed(text[..m.prefix] + text[m.typeEnd..], text[m.typeStart..m.typeEnd])
  }

  /** The inverse of the cut: `r.text` with `<gap>type:<r.typeName>`
      inserted at `p`. */
  function Reinsert(r: Processed, p: nat, gap: string): string
    requires p <= |r.text|
  {
    r.text[..p] + gap + "type:" + r.typeName + r.text[p..]
  }

  /** What was cut can be put back: the original text is the result with
      `<whitespace>type:<the new type>` reinserted where the cut was. */
  lemma PostProcessTypeRestores(pat: Pattern, text: string, typeName: string, m: TypeMatch)
    requires Search(pat, text, 0) == Some(m)
    ensures m.prefix < m.typeStart - 5 <= |text| && m.prefix <= |PostProcessType(pat, text, typeName).text|
    ensures text == Reinsert(PostProcessType(pat, text, typeName), m.prefix, text[m.prefix..m.typeStart - 5])
  {
    Reassemble(text, m.prefix, m.typeStart, m.typeEnd, PostProcessType(pat, text, typeName));
  }

  /** The new type is a non-empty run of type characters, and the
      whitespace cut before `type:` is not empty. */
  lemma PostProcessTypeFindsType(pat: Pattern, text: string, typeName: string, m: TypeMatch)
    requires Search(pat, text, 0) == Some(m)
    ensures m.prefix < m.typeStart - 5 <= |text|
    ensures forall k :: m.prefix <= k < m.typeStart - 5 ==> IsSpace(text[k])
    ensures PostProcessType(pat, text, typeName).typeName != []
    ensures forall k :: 0 <= k < |PostProcessType(pat, text, typeName).typeName| ==>
              IsTypeChar(PostProcessType(pat, text, typeName).typeName[k])
  {
    var r := PostProcessType(pat, text, typeName);
    PatternAtSpans(pat, text, m.at);
    assert r.typeName == text[m.typeStart..m.typeEnd];
  }

  /** Cutting `s[p..te]` out of `s` and putting its pieces back gives `s`. */
  lemma Reassemble(s: string, p: nat, ts: nat, te: nat, r: Processed)
    requires p + 5 <= ts <= te <= |s| && s[ts - 5..ts] == "type:"
    requires r == Processed(s[..p] + s[te..], s[ts..te])
    ensures p <= |r.text| && s == Reinsert(r, p, s[p..ts - 5])
  {
    var a, b := s[..p], s[te..];
    assert r.text[..p] == a && r.text[p..] == b;
    assert s == a + s[p..ts - 5] + s[ts - 5..ts] + s[ts..te] + b;
  }

  /** The text is left as it is exactly when it holds no annotation. */
  lemma PostProcessTypeChangesIffAnnotated(pat: Pattern, text: string, typeName: string)
    ensures PostProcessType(pat, text, typeName).text == text
            <==> forall p :: 0 <= p <= |text| ==> PatternAt(pat, text, p).None?
  {
    SearchNoneIffNoMatch(pat, text, 0);
  }

  // ---------------------------------------------------------------------------
  // Typed @param lines

  /** An argument of a QML function or signal; the type is empty unless a
      doc comment gives one. */
  datatype Argument = Argument(name: string, typeName: string)

  /** A match of `doc_arg_rx` = `[@\\]param` + `TYPE_RX` + `\s+(?P<name>\w+)`:
      its end and the spans of the type and the name. */
  datatype ParamMatch = ParamMatch(end: nat, typeStart: nat, typeEnd: nat, nameStart: nat, nameEnd: nat)

  /** `doc_arg_rx` spells `t[p..ne]`: the command, a `TypeShape` with `type:`
      at `q` ending at `te`, whitespace up to `ns`, and a name `t[ns..ne]`. */
  ghost predicate ParamShape(t: string, p: nat, q: nat, te: nat, ns: nat, ne: nat) {
    CommandAt(t, p, "param") && TypeShape(t, p + 6, q, te) && te < ns < ne <= |t|
    && (forall k :: te <= k < ns ==> IsSpace(t[k])) && forall k :: ns <= k < ne ==> IsWordChar(t[k])
  }

  /** `doc_arg_rx` matched at `p`.  Both `[\w.<>|]+` and `\s+` are greedy and
      the next part cannot start with a character they take, so no
      backtracking changes the match (see `ParamAtMatches` and
      `ParamAtComplete`). */
  function ParamAt(t: string, p: nat): (r: Option<ParamMatch>)
    requires p <= |t|
    ensures r.Some? ==> p < r.value.typeStart < r.value.typeEnd < r.value.nameStart
                        < r.value.nameEnd == r.value.end <= |t|
    ensures r.Some? ==> forall k :: r.value.nameStart <= k < r.value.nameEnd ==> IsWordChar(t[k])
  {
    if CommandAt(t, p, "param") then
      match TypeSuffixAt(t, p + 6)
      case Some(m) =>
        var w := SpanWhile(t, m.typeEnd, IsSpace);
        var n := SpanWhile(t, w, IsWordChar);
        if w > m.typeEnd && n > w then Some(ParamMatch(n, m.typeStart, m.typeEnd, w, n)) else None
      case None => None
    else None
  }

  /** A match spells a `ParamShape`, and its name is the longest run of word
      characters. */
  lemma ParamAtMatches(t: string, p: nat)
    requires p <= |t| && ParamAt(t, p).Some?
    ensures var m := ParamAt(t, p).value;
            m.typeStart >= p + 11 && ParamShape(t, p, m.typeStart - 5, m.typeEnd, m.nameStart, m.nameEnd)
            && (m.nameEnd == |t| || !IsWordChar(t[m.nameEnd]))
  {
  }

  /** Every `ParamShape` at `p` is found: the regex matches there, with the
      shape's type, the start of its name, and a name at least as long. */
  lemma ParamAtComplete(t: string, p: nat, q: nat, te: nat, ns: nat, ne: nat)
    requires p <= |t| && ParamShape(t, p, q, te, ns, ne)
    ensures var r := ParamAt(t, p);
            r.Some? && r.value.typeStart == q + 5 && r.value.typeEnd == te
            && r.value.nameStart == ns && ne <= r.value.nameEnd
  {
    var m := TypeSuffixAt(t, p + 6).value;
    assert IsSpace(t[te]);
    SpanWhileIsLongestRun(t, te, IsSpace, ns);
  }

  /** The first argument called `name`, if any. */
  function FirstArgNamed(args: seq<Argument>, name: string): (r: Option<nat>)
    ensures r.None? <==> forall k :: 0 <= k < |args| ==> args[k].name != name
    ensures r.Some? ==> r.value < |args| && args[r.value].name == name
    ensures r.Some? ==> forall k :: 0 <= k < r.value ==> args[k].name != name
  {
    if args == [] then None
    else if args[0].name == name then Some(0)
    else match FirstArgNamed(args[1..], name)
      case None => None
      case Some(k) => Some(k + 1)
  }

  /** The `for ... else` loop of `repl`: the first argument called `name`
      gets the type; `found` is false (and the source logs a warning) when
      there is none. */
  datatype Assigned = Assigned(args: seq<Argument>, found: bool)

  function AssignArgType(args: seq<Argument>, name: string, typeName: string): (r: Assigned)
    ensures |r.args| == |args|
    ensures forall k :: 0 <= k < |args| ==> r.args[k].name == args[k].name
    ensures r.found <==> exists k :: 0 <= k < |args| && args[k].name == name
    ensures forall k :: 0 <= k < |args| ==>
              r.args[k].typeName == (if FirstArgNamed(args, name) == Some(k) then typeName else args[k].typeName)
  {
    match FirstArgNamed(args, name)
    case None => Assigned(args, false)
    case Some(k) => Assigned(args[k := Argument(args[k].name, typeName)], true)
  }

  /** The result of `doc_arg_rx.sub(repl, doc)`: the rewritten text, the
      arguments as `repl` left them, and the names it warned about. */
  datatype Substituted = Substituted(text: string, args: seq<Argument>, unknown: seq<string>)

  /** One step of `re.sub` at offset `p`: where the scan resumes, the
      arguments after it, the text it emits and the names it warns about. */
  datatype Step = Step(next: nat, args: seq<Argument>, text: string, unknown: seq<string>)

  /** A match at `p` is replaced by `@param name` (and `repl` gives its type
      to the first argument of that name, or warns); otherwise the character
      at `p` is copied.  The scan moves forward and keeps the arguments'
      names and number. */
  function SubStep(doc: string, p: nat, args: seq<Argument>): (r: Step)
    requires p < |doc|
    ensures p < r.next <= |doc|
    ensures |r.args| == |args| && forall k :: 0 <= k < |args| ==> r.args[k].name == args[k].name
  {
    match ParamAt(doc, p)
    case Some(m) =>
      var name := doc[m.nameStart..m.nameEnd];
      var a := AssignArgType(args, name, doc[m.typeStart..m.typeEnd]);
      Step(m.end, a.args, "@param " + name, if a.found then [] else [name])
    case None => Step(p + 1, args, [doc[p]], [])
  }

  /** `re.sub` from offset `p`: the steps from `p` to the end, left to
      right.  Arguments keep their names and number. */
  function SubParams(doc: string, p: nat, args: seq<Argument>): (r: Substituted)
    requires p <= |doc|
    ensures |r.args| == |args|
    ensures forall k :: 0 <= k < |args| ==> r.args[k].name == args[k].name
    decreases |doc| - p
  {
    if p == |doc| then Substituted([], args, [])
    else
      var st := SubStep(doc, p, args);
      var rest := SubParams(doc, st.next, st.args);
      Substituted(st.text + rest.text, rest.args, st.unknown + rest.unknown)
  }

  /** A doc comment without a typed `@param` is copied unchanged and changes
      no argument. */
  lemma {:induction false} SubParamsWithoutAnnotation(doc: string, p: nat, args: seq<Argument>)
    requires p <= |doc|
    requires forall q :: p <= q < |doc| ==> ParamAt(doc, q).None?
    ensures SubParams(doc, p, args) == Substituted(doc[p..], args, [])
    decreases |doc| - p
  {
    if p < |doc| {
      assert SubStep(doc, p, args) == Step(p + 1, args, [doc[p]], []);
      SubParamsWithoutAnnotation(doc, p + 1, args);
      assert doc[p..] == [doc[p]] + doc[p + 1..];
    }
  }

  /** At `q` the doc has `@param type:T name` with these `name` and `T`. */
  ghost predicate AnnotatedAt(doc: string, q: nat, name: string, typeName: string) {
    q <= |doc| && ParamAt(doc, q).Some?
    && doc[ParamAt(doc, q).value.nameStart..ParamAt(doc, q).value.nameEnd] == name
    && doc[ParamAt(doc, q).value.typeStart..ParamAt(doc, q).value.typeEnd] == typeName
  }

  /** Every type in `out` is the type in `args` or one a `@param`
      annotation at or after `p` gives to that argument's name. */
  ghost predicate TypesFromDoc(doc: string, p: nat, args: seq<Argument>, out: seq<Argument>)
    requires |out| == |args|
  {
    forall k :: 0 <= k < |args| ==>
      out[k].typeName == args[k].typeName
      || exists q :: p <= q < |doc| && AnnotatedAt(doc, q, args[k].name, out[k].typeName)
  }

  /** No type is invented: after the substitution every argument has its old
      type or the type some `@param` annotation of the doc gives to its
      name. */
  lemma {:induction false} SubParamsTypesFromDoc(doc: string, p: nat, args: seq<Argument>)
    requires p <= |doc|
    ensures TypesFromDoc(doc, p, args, SubParams(doc, p, args).args)
    decreases |doc| - p
  {
    if p < |doc| {
      var st := SubStep(doc, p, args);
      SubParamsTypesFromDoc(doc, st.next, st.args);
      StepTypesFromDoc(doc, p, args, SubParams(doc, st.next, st.args).args);
    }
  }

  /** A step brings in no type but the one of the annotation at `p`. */
  lemma StepTypesFromDoc(doc: string, p: nat, args: seq<Argument>, out: seq<Argument>)
    requires p < |doc| && |out| == |args|
    requires TypesFromDoc(doc, SubStep(doc, p, args).next, SubStep(doc, p, args).args, out)
    ensures TypesFromDoc(doc, p, args, out)
  {
    var st := SubStep(doc, p, args);
    forall k | 0 <= k < |args|
      ensures out[k].typeName == args[k].typeName
              || exists q :: p <= q < |doc| && AnnotatedAt(doc, q, args[k].name, out[k].typeName)
    {
      if out[k].typeName != st.args[k].typeName {
        var q :| st.next <= q < |doc| && AnnotatedAt(doc, q, st.args[k].name, out[k].typeName);
        assert p <= q;
      } else if st.args[k].typeName != args[k].typeName {
        var m := ParamAt(doc, p).value;
        assert FirstArgNamed(args, doc[m.nameStart..m.nameEnd]) == Some(k);
        assert AnnotatedAt(doc, p, args[k].name, out[k].typeName);
      }
    }
  }

  /** No name in `names` is the name of an argument. */
  predicate NoArgNamed(args: seq<Argument>, names: seq<string>) {
    forall j, k :: 0 <= j < |names| && 0 <= k < |args| ==> args[k].name != names[j]
  }

  /** Two lists of names that name no argument concatenate to one. */
  lemma NoArgNamedAppend(args: seq<Argument>, a: seq<string>, b: seq<string>)
    requires NoArgNamed(args, a) && NoArgNamed(args, b)
    ensures NoArgNamed(args, a + b)
  {
    forall j, k | 0 <= j < |a + b| && 0 <= k < |args|
      ensures args[k].name != (a + b)[j]
    {
      if j >= |a| {
        assert (a + b)[j] == b[j - |a|];
      }
    }
  }

  /** Every name reported as unknown belongs to no argument. */
  lemma {:induction false} SubParamsUnknownAreNotArgs(doc: string, p: nat, args: seq<Argument>)
    requires p <= |doc|
    ensures NoArgNamed(args, SubParams(doc, p, args).unknown)
    decreases |doc| - p
  {
    if p < |doc| {
      var st := SubStep(doc, p, args);
      SubParamsUnknownAreNotArgs(doc, st.next, st.args);
      StepUnknownAreNotArgs(doc, p, args, SubParams(doc, st.next, st.args).unknown);
    }
  }

  /** A step warns only about a name no argument has. */
  lemma StepUnknownAreNotArgs(doc: string, p: nat, args: seq<Argument>, rest: seq<string>)
    requires p < |doc|
    requires NoArgNamed(SubStep(doc, p, args).args, rest)
    ensures NoArgNamed(args, SubStep(doc, p, args).unknown + rest)
  {
    var st := SubStep(doc, p, args);
    var all := st.unknown + rest;
    forall j, k | 0 <= j < |all| && 0 <= k < |args|
      ensures args[k].name != all[j]
    {
      if j >= |st.unknown| {
        assert all[j] == rest[j - |st.unknown|];
        assert st.args[k].name == args[k].name;
      }
    }
  }

  // ---------------------------------------------------------------------------
  // The substitution over the whole doc comment, position by position

  /** The name of the `@param` annotation at `q`. */
  function ParamName(doc: string, q: nat): string
    requires q <= |doc| && ParamAt(doc, q).Some?
  {
    doc[ParamAt(doc, q).value.nameStart..ParamAt(doc, q).value.nameEnd]
  }

  /** The type of the `@param` annotation at `q`. */
  function ParamType(doc: string, q: nat): string
    requires q <= |doc| && ParamAt(doc, q).Some?
  {
    doc[ParamAt(doc, q).value.typeStart..ParamAt(doc, q).value.typeEnd]
  }

  /** Annotations cannot overlap: after its first character an annotation
      holds neither '@' nor a backslash, so none starts inside another. */
  lemma ParamsDoNotOverlap(doc: string, q: nat, q': nat)
    requires q <= |doc| && ParamAt(doc, q).Some?
    requires q < q' < ParamAt(doc, q).value.end
    ensures ParamAt(doc, q').None?
  {
    NoCommandInsideParam(doc, q, q');
    NoParamWithoutCommand(doc, q');
  }

  /** Past its first character, an annotation holds neither '@' nor a
      backslash. */
  lemma NoCommandInsideParam(doc: string, q: nat, q': nat)
    requires q <= |doc| && ParamAt(doc, q).Some?
    requires q < q' < ParamAt(doc, q).value.end
    ensures doc[q'] != '@' && doc[q'] != '\\'
  {
    var m := ParamAt(doc, q).value;
    ParamAtMatches(doc, q);
    var tq := m.typeStart - 5;
    if q' < q + 6 {
      assert doc[q'] == doc[q + 1..q + 6][q' - q - 1];
    } else if tq <= q' < tq + 5 {
      assert doc[q'] == doc[tq..tq + 5][q' - tq];
    }
  }

  /** No annotation starts where there is no '@' or backslash. */
  lemma NoParamWithoutCommand(doc: string, q: nat)
    requires q < |doc| && doc[q] != '@' && doc[q] != '\\'
    ensures ParamAt(doc, q).None?
  {
  }

  /** Two argument lists with the same names have the same first argument
      of each name. */
  lemma FirstArgNamedSameNames(a: seq<Argument>, b: seq<Argument>, name: string)
    requires |a| == |b| && forall k :: 0 <= k < |a| ==> a[k].name == b[k].name
    ensures FirstArgNamed(a, name) == FirstArgNamed(b, name)
  {
    var ra, rb := FirstArgNamed(a, name), FirstArgNamed(b, name);
    if ra.Some? && rb.Some? {
      assert a[rb.value].name == name && b[ra.value].name == name;
    }
  }

  /** The annotation at `q` gives its type to the argument at `k`: it names
      `k`, and no earlier argument has that name. */
  predicate GivesType(doc: string, q: nat, args: seq<Argument>, k: nat) {
    q < |doc| && ParamAt(doc, q).Some? && FirstArgNamed(args, ParamName(doc, q)) == Some(k)
  }

  function Givers(doc: string, args: seq<Argument>, k: nat): nat -> bool {
    (q: nat) => GivesType(doc, q, args, k)
  }

  /** The type the argument at `k` ends up with after the substitution from
      `p`: the type of the last annotation that gives it one, or its own. */
  function FinalType(doc: string, p: nat, args: seq<Argument>, k: nat): string
    requires p <= |doc| && k < |args|
  {
    match LastWhere(Givers(doc, args, k), p, |doc|)
    case None => args[k].typeName
    case Some(q) => ParamType(doc, q)
  }

  /** The name an annotation starting at `q` is warned about: its own, when
      it names no argument; nothing otherwise, or when none starts there. */
  function UnknownAt(doc: string, q: nat, args: seq<Argument>): (r: seq<string>)
    requires q < |doc|
    ensures NoArgNamed(args, r)
  {
    if ParamAt(doc, q).Some? && FirstArgNamed(args, ParamName(doc, q)).None? then [ParamName(doc, q)] else []
  }

  /** The names of the annotations from `p` on that name no argument, in the
      order they occur. */
  function UnknownNames(doc: string, p: nat, args: seq<Argument>): (r: seq<string>)
    requires p <= |doc|
    ensures NoArgNamed(args, r)
    decreases |doc| - p
  {
    if p == |doc| then []
    else
      var here, rest := UnknownAt(doc, p, args), UnknownNames(doc, p + 1, args);
      NoArgNamedAppend(args, here, rest);
      here + rest
  }

  /** Where the annotation at `q` ends, or `q` when none starts there. */
  function ParamEnd(doc: string, q: nat): nat
    requires q <= |doc|
  {
    match ParamAt(doc, q)
    case Some(m) => m.end
    case None => q
  }

  /** Offset `q` lies strictly inside an annotation that starts before it. */
  ghost predicate InsideParam(doc: string, q: nat) {
    q <= |doc| && exists q0: nat :: q0 < q && q < ParamEnd(doc, q0)
  }

  /** What offset `q` contributes to the rewritten doc: an annotation that
      starts there becomes `@param name`, the rest of an annotation
      contributes nothing, and any other character is kept. */
  ghost function Emitted(doc: string, q: nat): string {
    if q >= |doc| then []
    else if ParamAt(doc, q).Some? then "@param " + ParamName(doc, q)
    else if InsideParam(doc, q) then []
    else [doc[q]]
  }

  ghost function EmitFn(doc: string): nat -> string {
    (q: nat) => Emitted(doc, q)
  }

  /** The contributions of the offsets from `p` on, in order. */
  ghost function Rewritten(doc: string, p: nat): string {
    JoinRange(EmitFn(doc), p, |doc|)
  }

  /** `re.sub` over the whole doc comment: the text is the doc with every
      annotation replaced by `@param name`; the argument at `k` gets the type
      of the last annotation that names it first among the arguments, and
      keeps its own when there is none; and the names warned about are those
      of the annotations that name no argument, in order. */
  lemma SubParamsMeaning(doc: string, args: seq<Argument>)
    ensures SubParams(doc, 0, args).text == Rewritten(doc, 0)
    ensures forall k :: 0 <= k < |args| ==> SubParams(doc, 0, args).args[k].typeName == FinalType(doc, 0, args, k)
    ensures SubParams(doc, 0, args).unknown == UnknownNames(doc, 0, args)
  {
    SubParamsRewrites(doc, 0, args);
    SubParamsFinalTypes(doc, 0, args);
    SubParamsUnknown(doc, 0, args);
  }

  /** The last annotation that names an argument first decides its type; an
      argument no annotation names keeps its own. */
  lemma SubParamsLastAnnotationWins(doc: string, args: seq<Argument>)
    ensures forall k: nat, q: nat ::
              (k < |args| && GivesType(doc, q, args, k) && forall q' :: q < q' < |doc| ==> !GivesType(doc, q', args, k))
              ==> SubParams(doc, 0, args).args[k].typeName == ParamType(doc, q)
    ensures forall k :: 0 <= k < |args| && (forall q :: 0 <= q < |doc| ==> !GivesType(doc, q, args, k)) ==>
              SubParams(doc, 0, args).args[k].typeName == args[k].typeName
  {
    SubParamsFinalTypes(doc, 0, args);
    forall k: nat, q: nat | k < |args| && GivesType(doc, q, args, k)
                  && (forall q' :: q < q' < |doc| ==> !GivesType(doc, q', args, k))
      ensures FinalType(doc, 0, args, k) == ParamType(doc, q)
    {
      LastWhereIs(Givers(doc, args, k), 0, |doc|, q);
    }
    forall k | 0 <= k < |args| && (forall q :: 0 <= q < |doc| ==> !GivesType(doc, q, args, k))
      ensures FinalType(doc, 0, args, k) == args[k].typeName
    {
      assert LastWhere(Givers(doc, args, k), 0, |doc|).None?;
    }
  }

  lemma {:induction false} SubParamsRewrites(doc: string, p: nat, args: seq<Argument>)
    requires p <= |doc| && !InsideParam(doc, p)
    ensures SubParams(doc, p, args).text == Rewritten(doc, p)
    decreases |doc| - p
  {
    if p < |doc| {
      var st := SubStep(doc, p, args);
      if ParamAt(doc, p).Some? {
        RewrittenAtParam(doc, p);
      } else {
        RewrittenAtChar(doc, p);
      }
      SubParamsRewrites(doc, st.next, st.args);
    }
  }

  /** At an annotation the rewritten doc is `@param name`, then the rest from
      the end of the annotation, which lies inside no annotation. */
  lemma RewrittenAtParam(doc: string, p: nat)
    requires p < |doc| && ParamAt(doc, p).Some? && !InsideParam(doc, p)
    ensures Rewritten(doc, p) == "@param " + ParamName(doc, p) + Rewritten(doc, ParamEnd(doc, p))
    ensures !InsideParam(doc, ParamEnd(doc, p))
  {
    var e := ParamEnd(doc, p);
    forall q | p + 1 <= q < e
      ensures EmitFn(doc)(q) == []
    {
      ParamsDoNotOverlap(doc, p, q);
      assert q < ParamEnd(doc, p);
    }
    JoinRangeSkip(EmitFn(doc), p + 1, e, |doc|);
    forall q0: nat | q0 < e
      ensures ParamEnd(doc, q0) <= e
    {
      if p < q0 {
        ParamsDoNotOverlap(doc, p, q0);
      }
    }
  }

  /** Elsewhere the rewritten doc keeps the character and goes on. */
  lemma RewrittenAtChar(doc: string, p: nat)
    requires p < |doc| && ParamAt(doc, p).None? && !InsideParam(doc, p)
    ensures Rewritten(doc, p) == [doc[p]] + Rewritten(doc, p + 1)
    ensures !InsideParam(doc, p + 1)
  {
    assert EmitFn(doc)(p) == [doc[p]];
  }

  lemma {:induction false} SubParamsFinalTypes(doc: string, p: nat, args: seq<Argument>)
    requires p <= |doc|
    ensures forall k :: 0 <= k < |args| ==> SubParams(doc, p, args).args[k].typeName == FinalType(doc, p, args, k)
    decreases |doc| - p
  {
    if p < |doc| {
      var st := SubStep(doc, p, args);
      SubParamsFinalTypes(doc, st.next, st.args);
      forall k | 0 <= k < |args|
        ensures FinalType(doc, st.next, st.args, k) == FinalType(doc, p, args, k)
      {
        StepFinalType(doc, p, args, k);
      }
    }
  }

  /** A step hands on the type the argument at `k` ends up with. */
  lemma StepFinalType(doc: string, p: nat, args: seq<Argument>, k: nat)
    requires p < |doc| && k < |args|
    ensures FinalType(doc, SubStep(doc, p, args).next, SubStep(doc, p, args).args, k) == FinalType(doc, p, args, k)
  {
    var st := SubStep(doc, p, args);
    StepSkipsGivers(doc, p, args, k);
    StepTypeAt(doc, p, args, k);
    FinalTypeStep(doc, p, st.next, args, st.args, k);
  }

  /** Moving from `p` to `next` with the arguments `args2` keeps the final
      type when no annotation starts strictly between, and `args2` holds
      the type the annotation at `p` gives. */
  lemma FinalTypeStep(doc: string, p: nat, next: nat, args: seq<Argument>, args2: seq<Argument>, k: nat)
    requires p < next <= |doc| && k < |args| == |args2|
    requires forall j :: 0 <= j < |args| ==> args2[j].name == args[j].name
    requires forall q :: p < q < next ==> !Givers(doc, args, k)(q)
    requires args2[k].typeName == if GivesType(doc, p, args, k) then ParamType(doc, p) else args[k].typeName
    ensures FinalType(doc, next, args2, k) == FinalType(doc, p, args, k)
  {
    GiversAgree(doc, args2, args, k, next);
    LastWhereStep(Givers(doc, args, k), Givers(doc, args2, k), p, next, |doc|);
  }

  /** A step gives the argument at `k` the type of the annotation at `p`
      when that annotation names it first, and leaves it alone otherwise. */
  lemma StepTypeAt(doc: string, p: nat, args: seq<Argument>, k: nat)
    requires p < |doc| && k < |args|
    ensures SubStep(doc, p, args).args[k].typeName
            == if GivesType(doc, p, args, k) then ParamType(doc, p) else args[k].typeName
  {
  }

  /** Two argument lists with the same names are given types by the same
      annotations. */
  lemma GiversAgree(doc: string, a: seq<Argument>, b: seq<Argument>, k: nat, from: nat)
    requires |a| == |b| && forall j :: 0 <= j < |a| ==> a[j].name == b[j].name
    ensures forall q :: from <= q < |doc| ==> Givers(doc, a, k)(q) == Givers(doc, b, k)(q)
  {
    forall q | from <= q < |doc|
      ensures GivesType(doc, q, a, k) == GivesType(doc, q, b, k)
    {
      if ParamAt(doc, q).Some? {
        FirstArgNamedSameNames(a, b, ParamName(doc, q));
      }
    }
  }

  /** No annotation starts at an offset a step passes over. */
  lemma StepSkipsGivers(doc: string, p: nat, args: seq<Argument>, k: nat)
    requires p < |doc|
    ensures forall q :: p < q < SubStep(doc, p, args).next ==> !Givers(doc, args, k)(q)
  {
    forall q | p < q < SubStep(doc, p, args).next
      ensures ParamAt(doc, q).None?
    {
      ParamsDoNotOverlap(doc, p, q);
    }
  }

  lemma {:induction false} SubParamsUnknown(doc: string, p: nat, args: seq<Argument>)
    requires p <= |doc|
    ensures SubParams(doc, p, args).unknown == UnknownNames(doc, p, args)
    decreases |doc| - p
  {
    if p < |doc| {
      var st := SubStep(doc, p, args);
      SubParamsUnknown(doc, st.next, st.args);
      UnknownNamesSameNames(doc, st.next, st.args, args);
      var rest := SubParams(doc, st.next, st.args).unknown;
      assert SubParams(doc, p, args).unknown == st.unknown + rest;
      assert rest == UnknownNames(doc, st.next, args);
      StepUnknownIsUnknownAt(doc, p, args);
      UnknownNamesStep(doc, p, args);
    }
  }

  /** The names warned about from `p` on: those of the offset `p`, then
      those from where one step of the substitution resumes. */
  lemma UnknownNamesStep(doc: string, p: nat, args: seq<Argument>)
    requires p < |doc|
    ensures UnknownNames(doc, p, args) == UnknownAt(doc, p, args) + UnknownNames(doc, SubStep(doc, p, args).next, args)
  {
    StepUnknownIsUnknownAt(doc, p, args);
    if ParamAt(doc, p).Some? {
      UnknownNamesAtParam(doc, p, args);
    }
  }

  /** One step warns about the name `UnknownAt` gives. */
  lemma StepUnknownIsUnknownAt(doc: string, p: nat, args: seq<Argument>)
    requires p < |doc|
    ensures SubStep(doc, p, args).unknown == UnknownAt(doc, p, args)
    ensures ParamAt(doc, p).None? ==> SubStep(doc, p, args).next == p + 1 && UnknownAt(doc, p, args) == []
    ensures ParamAt(doc, p).Some? ==> SubStep(doc, p, args).next == ParamEnd(doc, p)
  {
  }

  /** At an annotation the names warned about are its own, when it names no
      argument, then those from the end of the annotation on. */
  lemma UnknownNamesAtParam(doc: string, p: nat, args: seq<Argument>)
    requires p < |doc| && ParamAt(doc, p).Some?
    ensures UnknownNames(doc, p, args) == UnknownAt(doc, p, args) + UnknownNames(doc, ParamEnd(doc, p), args)
  {
    forall q | p + 1 <= q < ParamEnd(doc, p)
      ensures ParamAt(doc, q).None?
    {
      ParamsDoNotOverlap(doc, p, q);
    }
    UnknownNamesSkip(doc, p + 1, ParamEnd(doc, p), args);
  }

  /** Offsets where no annotation starts add no name. */
  lemma {:induction false} UnknownNamesSkip(doc: string, p: nat, e: nat, args: seq<Argument>)
    requires p <= e <= |doc|
    requires forall q :: p <= q < e ==> ParamAt(doc, q).None?
    ensures UnknownNames(doc, p, args) == UnknownNames(doc, e, args)
    decreases e - p
  {
    if p < e {
      UnknownNamesSkip(doc, p + 1, e, args);
      assert UnknownAt(doc, p, args) == [];
      assert UnknownNames(doc, p, args) == [] + UnknownNames(doc, p + 1, args);
    }
  }

  /** Only the names of the arguments matter. */
  lemma {:induction false} UnknownNamesSameNames(doc: string, p: nat, a: seq<Argument>, b: seq<Argument>)
    requires p <= |doc|
    requires |a| == |b| && forall k :: 0 <= k < |a| ==> a[k].name == b[k].name
    ensures UnknownNames(doc, p, a) == UnknownNames(doc, p, b)
    decreases |doc| - p
  {
    if p < |doc| {
      UnknownNamesSameNames(doc, p + 1, a, b);
      assert UnknownAt(doc, p, a) == UnknownAt(doc, p, b) by {
        if ParamAt(doc, p).Some? {
          FirstArgNamedSameNames(a, b, ParamName(doc, p));
        }
      }
    }
  }
}
