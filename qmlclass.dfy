/** The class model of doxyqml/qmlclass.py: the members a QML component
    declares, each rendered as a pseudo-C++ declaration for Doxygen, and the
    `QmlClass` builder that collects them and renders the whole component. */
module QmlModel {
  import opened Text
  import opened QmlDoc

  const SingletonComment := "/** @remark This component is a singleton */"
  const DefaultPropertyComment := "/** @remark This is the default property */"
  const ReadonlyPropertyComment := "/** @remark This property is read-only */"

  /** `VERSION_COMMENT % version` */
  function VersionComment(version: string): string {
    "/** @since " + version + " */"
  }

  // ---------------------------------------------------------------------------
  // Members

  /** `QmlAttribute`: a `name: value` binding; the type is "var" unless the
      parser sets another one. */
  datatype Attribute = Attribute(name: string, value: string, typeName: string, doc: string)

  /** `QmlProperty` */
  datatype Property = Property(typeName: string, isDefault: bool, isReadonly: bool,
                               name: string, doc: string, docIsInline: bool)

  /** `QmlFunction`; the return type is "void" unless the doc says otherwise. */
  datatype Function = Function(typeName: string, name: string, doc: string,
                               docIsInline: bool, args: seq<Argument>)

  /** `QmlSignal` */
  datatype Signal = Signal(name: string, doc: string, docIsInline: bool, args: seq<Argument>)

  /** A member rendered by its `__str__`, together with the member as the
      rendering left it (properties and functions rewrite their doc and type). */
  datatype Rendered<T> = Rendered(member: T, text: string)

  /** `QmlArgument.__str__`: the bare name when no type is known. */
  function ArgumentText(a: Argument): (r: string)
    ensures EndsWith(r, a.name)
    ensures r == a.name <==> a.typeName == []
  {
    if a.typeName == [] then a.name else a.typeName + " " + a.name
  }

  /** Reading an argument back from its text: the name follows the last space. */
  function ParseArgument(s: string): Argument {
    var (typeName, name) := SplitAtLast(s, ' ');
    Argument(name, typeName)
  }

  /** An argument whose name has no space is read back from its text. */
  lemma ArgumentTextRoundTrip(a: Argument)
    requires ' ' !in a.name
    ensures ParseArgument(ArgumentText(a)) == a
  {
    if a.typeName == [] {
      assert SplitAtLast(a.name, ' ') == ("", a.name);
    } else {
      SplitAtLastOf(a.typeName, ' ', a.name);
    }
  }

  /** `", ".join(str(x) for x in args)` */
  function ArgList(args: seq<Argument>): string {
    Join(ArgTexts(args), ", ")
  }

  function ArgTexts(args: seq<Argument>): (r: seq<string>)
    ensures |r| == |args|
    ensures forall k :: 0 <= k < |args| ==> r[k] == ArgumentText(args[k])
  {
    if args == [] then [] else [ArgumentText(args[0])] + ArgTexts(args[1..])
  }

  /** Arguments whose texts hold no comma are separated by exactly
      `|args| - 1` commas, so the list splits back into one piece each. */
  lemma {:induction false} ArgListPieces(args: seq<Argument>)
    requires |args| >= 1
    requires forall k :: 0 <= k < |args| ==> ',' !in ArgumentText(args[k])
    ensures CountChar(ArgList(args), ',') == |args| - 1
    ensures |Split(ArgList(args), ',')| == |args|
    decreases |args|
  {
    CountCharAbsent(ArgumentText(args[0]), ',');
    if |args| > 1 {
      ArgListPieces(args[1..]);
      assert ArgTexts(args)[1..] == ArgTexts(args[1..]);
      var head, rest := ArgumentText(args[0]), ArgList(args[1..]);
      assert ArgList(args) == head + ", " + rest;
      CountCharAppend(head + ", ", rest, ',');
      CountCharAppend(head, ", ", ',');
      assert CountChar(", ", ',') == 1 by {
        assert ", "[1..] == " ";
        assert " "[1..] == [];
      }
    }
  }

  /** `QmlAttribute.__str__`: nothing for the `id` binding, otherwise the doc
      (when there is one) on the line above `type name;`. */
  function AttributeText(a: Attribute): (r: string)
    ensures r == [] <==> a.name == "id"
    ensures a.name != "id" ==> EndsWith(r, a.typeName + " " + a.name + ";")
  {
    if a.name != "id" then
      var decl := a.typeName + " " + a.name + ";";
      var above := if |a.doc| > 0 then a.doc + "\n" else "";
      AppendEnds(above, decl);
      above + decl
    else ""
  }

  /** The doc and the declaration are read back from an attribute's text: the
      declaration is its last line and the doc is everything above it. */
  lemma AttributeTextRoundTrip(a: Attribute)
    requires a.name != "id" && '\n' !in a.typeName && '\n' !in a.name
    ensures SplitAtLast(AttributeText(a), '\n') == (a.doc, a.typeName + " " + a.name + ";")
  {
    var decl := a.typeName + " " + a.name + ";";
    assert '\n' !in decl by {
      var line := a.typeName + " " + a.name;
      assert decl == line + ";";
      assert forall k :: 0 <= k < |line| ==>
               (k < |a.typeName| && line[k] == a.typeName[k]) || (k == |a.typeName| && line[k] == ' ')
               || (k > |a.typeName| && line[k] == a.name[k - |a.typeName| - 1]);
    }
    if |a.doc| > 0 {
      assert AttributeText(a) == a.doc + ['\n'] + decl;
      SplitAtLastOf(a.doc, '\n', decl);
    }
  }

  /** Where a doc goes: on the line above the declaration, or after it on the
      same line when the doc was written inline. */
  function Placed(doc: string, inline: bool, decl: string): (r: string)
    ensures inline ==> StartsWith(r, decl) && EndsWith(r, " " + doc)
    ensures !inline ==> StartsWith(r, doc + "\n") && EndsWith(r, decl)
    ensures |r| == |doc| + |decl| + 1
  {
    if inline then
      AppendEnds(decl, " " + doc);
      decl + (" " + doc)
    else
      AppendEnds(doc + "\n", decl);
      doc + "\n" + decl
  }

  /** The remark line of a property: the default remark wins over the
      read-only one. */
  function PropertyRemark(p: Property): (r: string)
    ensures p.isDefault ==> r == DefaultPropertyComment + "\n"
    ensures !p.isDefault && p.isReadonly ==> r == ReadonlyPropertyComment + "\n"
    ensures r == [] <==> !p.isDefault && !p.isReadonly
  {
    if p.isDefault then DefaultPropertyComment + "\n"
    else if p.isReadonly then ReadonlyPropertyComment + "\n"
    else ""
  }

  /** `QmlProperty.__str__`: `post_process_doc` moves a `type:T` annotation of
      the doc into the type, then the doc, the remark and `Q_PROPERTY(type name)`
      are laid out. */
  function RenderProperty(p: Property): (r: Rendered<Property>)
    ensures r.member.name == p.name && r.member.isDefault == p.isDefault
            && r.member.isReadonly == p.isReadonly && r.member.docIsInline == p.docIsInline
  {
    var pp := PostProcessType(PropertyType, p.doc, p.typeName);
    var q := p.(doc := pp.text, typeName := pp.typeName);
    Rendered(q, Placed(q.doc, q.docIsInline, PropertyRemark(q) + "Q_PROPERTY(" + q.typeName + " " + q.name + ")"))
  }

  /** A property whose doc has no annotation keeps its doc and type. */
  lemma RenderPropertyUnannotated(p: Property)
    requires forall q :: 0 <= q <= |p.doc| ==> PatternAt(PropertyType, p.doc, q).None?
    ensures RenderProperty(p).member == p
    ensures RenderProperty(p).text
            == Placed(p.doc, p.docIsInline, PropertyRemark(p) + "Q_PROPERTY(" + p.typeName + " " + p.name + ")")
  {
    PostProcessTypeChangesIffAnnotated(PropertyType, p.doc, p.typeName);
    SearchNoneIffNoMatch(PropertyType, p.doc, 0);
  }

  /** An annotated property takes the type of the leftmost annotation, and
      its original doc is the new doc with the annotation put back. */
  lemma RenderPropertyAnnotated(p: Property, m: TypeMatch)
    requires Search(PropertyType, p.doc, 0) == Some(m)
    ensures RenderProperty(p).member.typeName == p.doc[m.typeStart..m.typeEnd] != []
    ensures m.prefix <= |RenderProperty(p).member.doc|
    ensures p.doc == Reinsert(Processed(RenderProperty(p).member.doc, RenderProperty(p).member.typeName),
                              m.prefix, p.doc[m.prefix..m.typeStart - 5])
  {
    PostProcessTypeRestores(PropertyType, p.doc, p.typeName, m);
    PostProcessTypeFindsType(PropertyType, p.doc, p.typeName, m);
  }

  /** Rendering a second time gives the same text unless the doc held a
      second annotation, which the second rendering would consume. */
  lemma RenderPropertyTwice(p: Property)
    requires forall q :: 0 <= q <= |RenderProperty(p).member.doc| ==>
               PatternAt(PropertyType, RenderProperty(p).member.doc, q).None?
    ensures RenderProperty(RenderProperty(p).member) == RenderProperty(p)
  {
    RenderPropertyUnannotated(RenderProperty(p).member);
  }

  /** What `QmlFunction.__str__` returns, the function as `post_process_doc`
      left it, and the names of the `@param` lines that matched no argument
      (the source logs a warning for each). */
  datatype FunctionOut = FunctionOut(member: Function, text: string, unknown: seq<string>)

  /** `QmlFunction.__str__`: each typed `@param` line gives its type to the
      argument of that name and loses it, a typed `@return` gives the return
      type, then the doc is placed around `type name(args);`. */
  function RenderFunction(f: Function): (r: FunctionOut)
    ensures r.member.name == f.name && r.member.docIsInline == f.docIsInline
    ensures |r.member.args| == |f.args|
    ensures forall k :: 0 <= k < |f.args| ==> r.member.args[k].name == f.args[k].name
  {
    var s := SubParams(f.doc, 0, f.args);
    var pp := PostProcessType(ReturnType, s.text, f.typeName);
    var g := f.(doc := pp.text, typeName := pp.typeName, args := s.args);
    FunctionOut(g, Placed(g.doc, g.docIsInline, g.typeName + " " + g.name + "(" + ArgList(g.args) + ");"),
                s.unknown)
  }

  /** Each argument takes the type of the last typed `@param` line of the doc
      that names it first among the arguments, or keeps its own; the reported
      names are exactly those of the typed `@param` lines that name no
      argument, in order; the doc is the original with every typed `@param`
      line replaced by `@param name`, then its leftmost typed `@return` cut
      out and made the return type (the type is kept when there is none).
      Hence no argument type is invented and no reported name is an
      argument's. */
  lemma RenderFunctionTypes(f: Function)
    ensures forall k :: 0 <= k < |f.args| ==>
              RenderFunction(f).member.args[k].typeName == FinalType(f.doc, 0, f.args, k)
    ensures RenderFunction(f).unknown == UnknownNames(f.doc, 0, f.args)
    ensures RenderFunction(f).member.doc == PostProcessType(ReturnType, Rewritten(f.doc, 0), f.typeName).text
    ensures match Search(ReturnType, Rewritten(f.doc, 0), 0)
            case None => RenderFunction(f).member.typeName == f.typeName
            case Some(m) => RenderFunction(f).member.typeName == Rewritten(f.doc, 0)[m.typeStart..m.typeEnd]
    ensures TypesFromDoc(f.doc, 0, f.args, RenderFunction(f).member.args)
    ensures NoArgNamed(f.args, RenderFunction(f).unknown)
  {
    var s := SubParams(f.doc, 0, f.args);
    assert RenderFunction(f).member.args == s.args && RenderFunction(f).unknown == s.unknown;
    SubParamsMeaning(f.doc, f.args);
    SubParamsTypesFromDoc(f.doc, 0, f.args);
    SubParamsUnknownAreNotArgs(f.doc, 0, f.args);
  }

  /** The last typed `@param` line that names an argument first gives it its
      type; an argument no such line names keeps its own. */
  lemma RenderFunctionLastAnnotationWins(f: Function)
    ensures forall k: nat, q: nat ::
              (k < |f.args| && GivesType(f.doc, q, f.args, k)
               && forall q' :: q < q' < |f.doc| ==> !GivesType(f.doc, q', f.args, k))
              ==> RenderFunction(f).member.args[k].typeName == ParamType(f.doc, q)
    ensures forall k :: 0 <= k < |f.args| && (forall q :: 0 <= q < |f.doc| ==> !GivesType(f.doc, q, f.args, k)) ==>
              RenderFunction(f).member.args[k].typeName == f.args[k].typeName
  {
    assert RenderFunction(f).member.args == SubParams(f.doc, 0, f.args).args;
    SubParamsLastAnnotationWins(f.doc, f.args);
  }

  /** A doc without typed `@param` or `@return` lines changes nothing and
      reports nothing. */
  lemma RenderFunctionUnannotated(f: Function)
    requires forall q :: 0 <= q < |f.doc| ==> ParamAt(f.doc, q).None?
    requires forall q :: 0 <= q <= |f.doc| ==> PatternAt(ReturnType, f.doc, q).None?
    ensures RenderFunction(f).member == f && RenderFunction(f).unknown == []
    ensures RenderFunction(f).text
            == Placed(f.doc, f.docIsInline, f.typeName + " " + f.name + "(" + ArgList(f.args) + ");")
  {
    SubParamsWithoutAnnotation(f.doc, 0, f.args);
    assert f.doc[0..] == f.doc;
    SearchNoneIffNoMatch(ReturnType, f.doc, 0);
  }

  /** `QmlSignal.__str__`: a `Q_SIGNALS:` declaration, always followed by
      `public:` so that later functions are not taken for signals. */
  function SignalText(s: Signal): (r: string)
    ensures EndsWith(r, "public:")
    ensures !s.docIsInline ==> StartsWith(r, s.doc + "\n")
    ensures s.docIsInline ==> StartsWith(r, "Q_SIGNALS: void " + s.name + "(")
  {
    var decl := "Q_SIGNALS: void " + s.name + "(" + ArgList(s.args) + "); ";
    var above := if s.docIsInline then "" else s.doc + "\n";
    var body := above + decl + (if s.docIsInline then s.doc + "\n" else "");
    AppendEnds(body, "public:");
    AppendEnds(above, decl + (if s.docIsInline then s.doc + "\n" else ""));
    body + "public:"
  }

  // ---------------------------------------------------------------------------
  // Components

  /** An element of a component: a member or a nested component, held by value. */
  datatype Element =
    | AttributeEl(attr: Attribute)
    | PropertyEl(prop: Property)
    | FunctionEl(fn: Function)
    | SignalEl(sig: Signal)
    | ClassEl(cls: ClassValue)

  /** The fields of a `QmlClass`.  `comment` is set from outside (by the
      parser) and read only for a nested component with an id. */
  datatype ClassValue = ClassValue(name: string, baseName: string, headerComments: seq<string>,
                                   footerComments: seq<string>, elements: seq<Element>,
                                   imports: seq<string>, topLevel: bool, comment: Option<string>)

  /** `get_attributes`: the attributes among the elements, in order. */
  function Attributes(es: seq<Element>): (r: seq<Attribute>)
  {
    if es == [] then []
    else Attributes(es[..|es| - 1]) + (if es[|es| - 1].AttributeEl? then [es[|es| - 1].attr] else [])
  }

  /** `get_properties` */
  function Properties(es: seq<Element>): (r: seq<Property>)
  {
    if es == [] then []
    else Properties(es[..|es| - 1]) + (if es[|es| - 1].PropertyEl? then [es[|es| - 1].prop] else [])
  }

  /** `get_functions` */
  function Functions(es: seq<Element>): (r: seq<Function>)
  {
    if es == [] then []
    else Functions(es[..|es| - 1]) + (if es[|es| - 1].FunctionEl? then [es[|es| - 1].fn] else [])
  }

  /** `get_signals` */
  function Signals(es: seq<Element>): (r: seq<Signal>)
  {
    if es == [] then []
    else Signals(es[..|es| - 1]) + (if es[|es| - 1].SignalEl? then [es[|es| - 1].sig] else [])
  }

  /** Each filter keeps exactly the elements of its kind. */
  lemma {:induction false} FiltersKeepMembers(es: seq<Element>)
    ensures forall a :: a in Attributes(es) <==> AttributeEl(a) in es
    ensures forall p :: p in Properties(es) <==> PropertyEl(p) in es
    ensures forall f :: f in Functions(es) <==> FunctionEl(f) in es
    ensures forall g :: g in Signals(es) <==> SignalEl(g) in es
    decreases |es|
  {
    if es != [] {
      var n := |es| - 1;
      FiltersKeepMembers(es[..n]);
      assert es == es[..n] + [es[n]];
    }
  }

  /** The filters keep the order: filtering a concatenation concatenates the
      filtered parts. */
  lemma {:induction false} AttributesAppend(a: seq<Element>, b: seq<Element>)
    ensures Attributes(a + b) == Attributes(a) + Attributes(b)
    decreases |b|
  {
    if b == [] {
      assert a + b == a;
    } else {
      AttributesAppend(a, b[..|b| - 1]);
      assert (a + b)[..|a + b| - 1] == a + b[..|b| - 1];
    }
  }

  lemma {:induction false} PropertiesAppend(a: seq<Element>, b: seq<Element>)
    ensures Properties(a + b) == Properties(a) + Properties(b)
    decreases |b|
  {
    if b == [] {
      assert a + b == a;
    } else {
      PropertiesAppend(a, b[..|b| - 1]);
      assert (a + b)[..|a + b| - 1] == a + b[..|b| - 1];
    }
  }

  lemma {:induction false} FunctionsAppend(a: seq<Element>, b: seq<Element>)
    ensures Functions(a + b) == Functions(a) + Functions(b)
    decreases |b|
  {
    if b == [] {
      assert a + b == a;
    } else {
      FunctionsAppend(a, b[..|b| - 1]);
      assert (a + b)[..|a + b| - 1] == a + b[..|b| - 1];
    }
  }

  lemma {:induction false} SignalsAppend(a: seq<Element>, b: seq<Element>)
    ensures Signals(a + b) == Signals(a) + Signals(b)
    decreases |b|
  {
    if b == [] {
      assert a + b == a;
    } else {
      SignalsAppend(a, b[..|b| - 1]);
      assert (a + b)[..|a + b| - 1] == a + b[..|b| - 1];
    }
  }

  /** The value of the first attribute called `id`, if any. */
  function FirstId(attrs: seq<Attribute>): Option<string> {
    if attrs == [] then None
    else if attrs[0].name == "id" then Some(attrs[0].value)
    else FirstId(attrs[1..])
  }

  /** There is no `id` exactly when no attribute is called `id`; otherwise
      it is the value of the first one so called. */
  lemma {:induction false} FirstIdMeaning(attrs: seq<Attribute>)
    ensures FirstId(attrs).None? <==> forall k :: 0 <= k < |attrs| ==> attrs[k].name != "id"
    ensures FirstId(attrs).Some? ==>
              exists k :: 0 <= k < |attrs| && attrs[k].name == "id" && attrs[k].value == FirstId(attrs).value
                          && forall j :: 0 <= j < k ==> attrs[j].name != "id"
  {
    if attrs != [] && attrs[0].name != "id" {
      FirstIdMeaning(attrs[1..]);
      assert forall j :: 1 <= j < |attrs| ==> attrs[1..][j - 1] == attrs[j];
      if FirstId(attrs).Some? {
        var k :| 0 <= k < |attrs[1..]| && attrs[1..][k].name == "id" && attrs[1..][k].value == FirstId(attrs).value
                 && forall j :: 0 <= j < k ==> attrs[1..][j].name != "id";
        assert attrs[k + 1].name == "id" && forall j :: 0 <= j < k + 1 ==> attrs[j].name != "id";
      }
    } else if attrs != [] {
      assert attrs[0].name == "id";
    }
  }

  /** Which elements a pass over a component's elements renders. */
  datatype Sel = Nothing | MembersOnly | ClassesOnly | Any

  predicate Selects(sel: Sel, e: Element) {
    match sel
    case Nothing => false
    case MembersOnly => !e.ClassEl?
    case ClassesOnly => e.ClassEl?
    case Any => true
  }

  /** The elements after a pass, the texts of those rendered inside the class
      block and the texts of those rendered after it, each in order. */
  datatype PassOut = PassOut(elements: seq<Element>, inside: seq<string>, after: seq<string>)

  /** `str(x)` of an element: the element as the rendering left it, and its text. */
  function RenderElement(e: Element): (r: Rendered<Element>)
    ensures r.member.ClassEl? == e.ClassEl?
    decreases e
  {
    match e
    case AttributeEl(a) => Rendered(e, AttributeText(a))
    case PropertyEl(p) =>
      var o := RenderProperty(p);
      Rendered(PropertyEl(o.member), o.text)
    case FunctionEl(f) =>
      var o := RenderFunction(f);
      Rendered(FunctionEl(o.member), o.text)
    case SignalEl(g) => Rendered(e, SignalText(g))
    case ClassEl(c) =>
      var o := RenderClass(c);
      Rendered(ClassEl(o.cls), Join(o.lines, "\n"))
  }

  /** The renderings of all the elements, in order. */
  function RenderAll(es: seq<Element>): (r: seq<Rendered<Element>>)
    ensures |r| == |es|
    decreases es, 0
  {
    seq(|es|, k requires 0 <= k < |es| => RenderElement(es[k]))
  }

  /** A pass over elements `es` whose renderings are `rs`: the elements
      `inside` selects go into the class block and, of the others, those
      `after` selects after it; the rest are left as they are. */
  function PassWith(es: seq<Element>, rs: seq<Rendered<Element>>, inside: Sel, after: Sel): (r: PassOut)
    requires |rs| == |es|
    ensures |r.elements| == |es|
  {
    if es == [] then PassOut([], [], [])
    else
      var n := |es| - 1;
      var rest := PassWith(es[..n], rs[..n], inside, after);
      if Selects(inside, es[n]) then
        PassOut(rest.elements + [rs[n].member], rest.inside + [rs[n].text], rest.after)
      else if Selects(after, es[n]) then
        PassOut(rest.elements + [rs[n].member], rest.inside, rest.after + [rs[n].text])
      else PassOut(rest.elements + [es[n]], rest.inside, rest.after)
  }

  /** The pass over the first `i + 1` elements extends the pass over the
      first `i` by what element `i` contributes. */
  lemma PassWithPrefix(es: seq<Element>, rs: seq<Rendered<Element>>, i: nat, inside: Sel, after: Sel)
    requires |rs| == |es| && i < |es|
    ensures var rest := PassWith(es[..i], rs[..i], inside, after);
            PassWith(es[..i + 1], rs[..i + 1], inside, after)
            == if Selects(inside, es[i]) then PassOut(rest.elements + [rs[i].member], rest.inside + [rs[i].text], rest.after)
               else if Selects(after, es[i]) then PassOut(rest.elements + [rs[i].member], rest.inside, rest.after + [rs[i].text])
               else PassOut(rest.elements + [es[i]], rest.inside, rest.after)
  {
    assert es[..i + 1][..i] == es[..i] && rs[..i + 1][..i] == rs[..i];
  }

  /** One loop of `__str__` over a component's elements, rendering those the
      two selections pick. */
  function RenderPass(es: seq<Element>, inside: Sel, after: Sel): (r: PassOut)
    ensures |r.elements| == |es|
    decreases es, 1
  {
    PassWith(es, RenderAll(es), inside, after)
  }

  /** A component rendered: the component as the rendering left it, and the
      lines that `__str__` joins with newlines. */
  datatype ClassOut = ClassOut(cls: ClassValue, lines: seq<string>)

  /** `using namespace A::B;` for an import `A.B`: the segments of the
      dotted import joined with `::`. */
  function UsingLine(imp: string): (r: string)
    ensures r == "using namespace " + Join(Split(imp, '.'), "::") + ";"
  {
    ReplaceIsSplitJoin(imp, '.', "::");
    "using namespace " + ReplaceChar(imp, '.', "::") + ";"
  }

  function UsingLines(imports: seq<string>): (r: seq<string>)
    ensures |r| == |imports|
    ensures forall k :: 0 <= k < |imports| ==> r[k] == UsingLine(imports[k])
  {
    if imports == [] then [] else UsingLines(imports[..|imports| - 1]) + [UsingLine(imports[|imports| - 1])]
  }

  /** `namespace A::B {` for a component named `A.B.C`. */
  function NamespaceOpen(name: seq<string>): string
    requires |name| > 1
  {
    "namespace " + Join(name[..|name| - 1], "::") + " {"
  }

  /** The line opening the class block. */
  function ClassDecl(last: string, baseName: string): (r: string)
    ensures baseName == [] <==> r == "class " + last + " {"
  {
    var r := "class " + last + (if |baseName| > 0 then " : public " + baseName else "") + " {";
    assert |baseName| > 0 ==> |r| > |"class " + last + " {"|;
    r
  }

  /** The lines before the header comments: the imports and the namespace,
      for the top-level component only. */
  function Opening(c: ClassValue, name: seq<string>): seq<string> {
    if c.topLevel then UsingLines(c.imports) + (if |name| > 1 then [NamespaceOpen(name)] else []) else []
  }

  /** What introduces a nested component that has an id: its comment, if
      any, then a declaration of the object. */
  function IdLines(c: ClassValue, last: string, id: Option<string>): seq<string> {
    if !c.topLevel && id.Some? then
      (if c.comment.Some? then [c.comment.value] else []) + [last + " " + id.value + ";"]
    else []
  }

  /** `QmlClass.__str__`.  The last segment of the dotted name is the class
      name.  A nested component is shown only when it has an `id`; its
      nested components are rendered after its block (flattening the
      nesting), and its members are left alone when it is not shown. */
  function RenderClass(c: ClassValue): (r: ClassOut)
    ensures r.cls == c.(elements := r.cls.elements) && |r.cls.elements| == |c.elements|
    decreases c
  {
    ClassWith(c, Split(c.name, '.'), FirstId(Attributes(c.elements)), RenderAll(c.elements))
  }

  /** `RenderClass` with the segments `name` of the dotted name, the `id`
      and the renderings `rs` of the elements given. */
  function ClassWith(c: ClassValue, name: seq<string>, id: Option<string>, rs: seq<Rendered<Element>>): (r: ClassOut)
    requires |name| > 0 && |rs| == |c.elements|
    ensures r.cls == c.(elements := r.cls.elements) && |r.cls.elements| == |c.elements|
  {
    var last := name[|name| - 1];
    var show := c.topLevel || id.Some?;
    var pass := PassWith(c.elements, rs, InsideSel(c.topLevel, show), AfterSel(c.topLevel));
    ClassOut(c.(elements := pass.elements), ClassLines(c, name, last, id, show, pass))
  }

  /** The lines of a component: the opening lines, the header comments, the
      id lines, the class block when shown, what the pass renders after the
      block, the footer comments and the end of the namespace. */
  function ClassLines(c: ClassValue, name: seq<string>, last: string, id: Option<string>, show: bool,
                      pass: PassOut): seq<string>
  {
    Opening(c, name) + c.headerComments + IdLines(c, last, id)
    + (if show then Block(last, c.baseName, pass.inside) else [])
    + pass.after + c.footerComments
    + (if c.topLevel && |name| > 1 then ["}"] else [])
  }

  lemma ClassLinesParts(c: ClassValue, name: seq<string>, last: string, id: Option<string>, show: bool,
                        pass: PassOut)
    ensures ClassLines(c, name, last, id, show, pass)
            == Opening(c, name) + c.headerComments + IdLines(c, last, id)
               + (if show then Block(last, c.baseName, pass.inside) else [])
               + pass.after + c.footerComments
               + (if c.topLevel && |name| > 1 then ["}"] else [])
  {
  }

  /** What a component's pass renders into its block: everything at top
      level, the members of a shown nested component, nothing otherwise. */
  function InsideSel(topLevel: bool, show: bool): Sel {
    if topLevel then Any else if show then MembersOnly else Nothing
  }

  /** What a component's pass renders after its block: the nested
      components of a nested component. */
  function AfterSel(topLevel: bool): Sel {
    if topLevel then Nothing else ClassesOnly
  }

  /** `RenderClass` in terms of its pieces. */
  lemma RenderClassLines(c: ClassValue, name: seq<string>, last: string, show: bool, pass: PassOut)
    requires name == Split(c.name, '.') && last == name[|name| - 1]
    requires show == (c.topLevel || FirstId(Attributes(c.elements)).Some?)
    requires pass == RenderPass(c.elements, InsideSel(c.topLevel, show), AfterSel(c.topLevel))
    ensures RenderClass(c).cls == c.(elements := pass.elements)
    ensures RenderClass(c).lines == ClassLines(c, name, last, FirstId(Attributes(c.elements)), show, pass)
  {
    var rs := RenderAll(c.elements);
    var id := FirstId(Attributes(c.elements));
    assert RenderClass(c) == ClassWith(c, name, id, rs);
    ClassWithLines(c, name, id, rs);
  }

  lemma ClassWithLines(c: ClassValue, name: seq<string>, id: Option<string>, rs: seq<Rendered<Element>>)
    requires |name| > 0 && |rs| == |c.elements|
    ensures var show := c.topLevel || id.Some?;
            var pass := PassWith(c.elements, rs, InsideSel(c.topLevel, show), AfterSel(c.topLevel));
            ClassWith(c, name, id, rs).cls == c.(elements := pass.elements)
            && ClassWith(c, name, id, rs).lines == ClassLines(c, name, name[|name| - 1], id, show, pass)
  {
  }

  /** The class block: its declaration line, `public:`, the rendered
      elements and the closing `};`. */
  function Block(last: string, baseName: string, inside: seq<string>): (r: seq<string>)
    ensures |r| == |inside| + 3 && r[0] == ClassDecl(last, baseName) && r[|r| - 1] == "};"
  {
    [ClassDecl(last, baseName), "public:"] + inside + ["};"]
  }

  /** A pass with renderings `rs` replaces exactly the selected elements by
      their rendered forms. */
  lemma {:induction false} PassWithElements(es: seq<Element>, rs: seq<Rendered<Element>>, inside: Sel, after: Sel)
    requires |rs| == |es|
    ensures forall k :: 0 <= k < |es| ==>
              PassWith(es, rs, inside, after).elements[k]
              == if Selects(inside, es[k]) || Selects(after, es[k]) then rs[k].member else es[k]
    decreases |es|
  {
    if es != [] {
      PassWithElements(es[..|es| - 1], rs[..|rs| - 1], inside, after);
    }
  }

  /** Each element after a pass is the element as its rendering left it when
      the pass renders it, and the element itself otherwise. */
  lemma RenderPassElements(es: seq<Element>, inside: Sel, after: Sel)
    ensures forall k :: 0 <= k < |es| ==>
              RenderPass(es, inside, after).elements[k]
              == if Selects(inside, es[k]) || Selects(after, es[k]) then RenderElement(es[k]).member else es[k]
  {
    PassWithElements(es, RenderAll(es), inside, after);
  }

  lemma {:induction false} PassWithAnyNothing(es: seq<Element>, rs: seq<Rendered<Element>>)
    requires |rs| == |es|
    ensures |PassWith(es, rs, Any, Nothing).inside| == |es| && PassWith(es, rs, Any, Nothing).after == []
    ensures PassWith(es, rs, Nothing, Nothing) == PassOut(es, [], [])
    decreases |es|
  {
    if es != [] {
      PassWithAnyNothing(es[..|es| - 1], rs[..|rs| - 1]);
    }
  }

  /** A pass that selects everything renders every element inside the block,
      and one that selects nothing changes nothing. */
  lemma RenderPassAnyNothing(es: seq<Element>)
    ensures |RenderPass(es, Any, Nothing).inside| == |es| && RenderPass(es, Any, Nothing).after == []
    ensures RenderPass(es, Nothing, Nothing) == PassOut(es, [], [])
  {
    PassWithAnyNothing(es, RenderAll(es));
  }

  /** A first pass that renders no nested component, then a second pass over
      its result that renders the nested components with the same renderings
      as before, make up the single pass that renders both. */
  lemma {:induction false} PassWithTwice(es: seq<Element>, rs: seq<Rendered<Element>>, inside: Sel,
                                         rs2: seq<Rendered<Element>>)
    requires inside == MembersOnly || inside == Nothing
    requires |rs| == |es| && |rs2| == |es|
    requires forall k :: 0 <= k < |es| ==> rs[k].member.ClassEl? == es[k].ClassEl?
    requires forall k :: 0 <= k < |es| && es[k].ClassEl? ==> rs2[k] == rs[k]
    ensures PassWith(PassWith(es, rs, inside, Nothing).elements, rs2, ClassesOnly, Nothing).elements
            == PassWith(es, rs, inside, ClassesOnly).elements
    ensures PassWith(PassWith(es, rs, inside, Nothing).elements, rs2, ClassesOnly, Nothing).inside
            == PassWith(es, rs, inside, ClassesOnly).after
    ensures PassWith(es, rs, inside, Nothing).inside == PassWith(es, rs, inside, ClassesOnly).inside
    decreases |es|
  {
    if es != [] {
      var n := |es| - 1;
      PassWithTwice(es[..n], rs[..n], inside, rs2[..n]);
      var first := PassWith(es, rs, inside, Nothing).elements;
      assert first[..n] == PassWith(es[..n], rs[..n], inside, Nothing).elements;
      assert first[n].ClassEl? == es[n].ClassEl?;
    }
  }

  /** `__str__` of a nested component goes over its elements twice, first
      rendering the members, then the nested components; since the two
      passes touch different elements, this is the single pass that renders
      members into the block and nested components after it. */
  lemma TwoPasses(es: seq<Element>, inside: Sel)
    requires inside == MembersOnly || inside == Nothing
    ensures RenderPass(RenderPass(es, inside, Nothing).elements, ClassesOnly, Nothing).elements
            == RenderPass(es, inside, ClassesOnly).elements
    ensures RenderPass(RenderPass(es, inside, Nothing).elements, ClassesOnly, Nothing).inside
            == RenderPass(es, inside, ClassesOnly).after
    ensures RenderPass(es, inside, Nothing).inside == RenderPass(es, inside, ClassesOnly).inside
  {
    var rs := RenderAll(es);
    var first := PassWith(es, rs, inside, Nothing).elements;
    PassWithElements(es, rs, inside, Nothing);
    PassWithTwice(es, rs, inside, RenderAll(first));
  }

  /** `name.split('.')[-1]`: the text after the last dot. */
  function LastSegment(name: string): string {
    SplitAtLast(name, '.').1
  }

  /** The namespace line of a dotted name: the part before the last dot with
      every dot written `::`. */
  function NamespaceLines(name: string): seq<string> {
    if '.' in name then ["namespace " + ReplaceChar(SplitAtLast(name, '.').0, '.', "::") + " {"] else []
  }

  /** `name.split('.')` has more than one segment exactly when the name has a
      dot; its last segment is the text after the last dot and the others,
      joined with `::`, are the text before it with each dot written `::`. */
  lemma SegmentsOfName(name: string)
    ensures |Split(name, '.')| > 1 <==> '.' in name
    ensures Split(name, '.')[|Split(name, '.')| - 1] == LastSegment(name)
    ensures |Split(name, '.')| > 1 ==>
              Join(Split(name, '.')[..|Split(name, '.')| - 1], "::") == ReplaceChar(SplitAtLast(name, '.').0, '.', "::")
  {
    var (a, b) := SplitAtLast(name, '.');
    if '.' in name {
      assert name == a + ['.'] + b;
      SplitAround(a, '.', b);
      SplitAbsent(b, '.');
      var parts := Split(name, '.');
      assert parts[..|parts| - 1] == Split(a, '.');
      ReplaceIsSplitJoin(a, '.', "::");
    } else {
      SplitAbsent(name, '.');
    }
  }

  /** The top-level component: one `using namespace` line per import, the
      namespace opened before the header comments and closed at the very
      end exactly when the name is dotted, and every element rendered, in
      order, inside a class block named after the last segment. */
  lemma TopLevelLayout(c: ClassValue)
    requires c.topLevel
    ensures RenderClass(c).lines
            == (UsingLines(c.imports) + NamespaceLines(c.name)) + c.headerComments
               + Block(LastSegment(c.name), c.baseName, RenderPass(c.elements, Any, Nothing).inside)
               + c.footerComments + (if '.' in c.name then ["}"] else [])
  {
    var name := Split(c.name, '.');
    var rs := RenderAll(c.elements);
    assert name[|name| - 1] == LastSegment(c.name) && (|name| > 1 <==> '.' in c.name)
           && Opening(c, name) == UsingLines(c.imports) + NamespaceLines(c.name) by {
      SegmentsOfName(c.name);
    }
    assert RenderClass(c) == ClassWith(c, name, FirstId(Attributes(c.elements)), rs);
    assert RenderPass(c.elements, Any, Nothing) == PassWith(c.elements, rs, Any, Nothing);
    TopLevelLayoutWith(c, name, FirstId(Attributes(c.elements)), rs);
  }

  lemma TopLevelLayoutWith(c: ClassValue, name: seq<string>, id: Option<string>, rs: seq<Rendered<Element>>)
    requires c.topLevel && |name| > 0 && |rs| == |c.elements|
    ensures ClassWith(c, name, id, rs).lines
            == Opening(c, name) + c.headerComments
               + Block(name[|name| - 1], c.baseName, PassWith(c.elements, rs, Any, Nothing).inside)
               + c.footerComments + (if |name| > 1 then ["}"] else [])
  {
    PassWithAnyNothing(c.elements, rs);
    var last := name[|name| - 1];
    var pass := PassWith(c.elements, rs, Any, Nothing);
    var closer: seq<string> := if |name| > 1 then ["}"] else [];
    ClassWithLines(c, name, id, rs);
    ClassLinesParts(c, name, last, id, true, pass);
    assert IdLines(c, last, id) == [] && pass.after == [];
    DropEmpties(Opening(c, name), c.headerComments, Block(last, c.baseName, pass.inside), c.footerComments, closer);
  }

  lemma DropEmpties<T>(a: seq<T>, b: seq<T>, c: seq<T>, d: seq<T>, e: seq<T>)
    ensures a + b + [] + c + [] + d + e == a + b + c + d + e
  {
  }

  /** The top-level component renders each of its elements exactly once,
      inside its block, and keeps each as its rendering left it. */
  lemma TopLevelRendersAll(c: ClassValue)
    requires c.topLevel
    ensures RenderClass(c).cls.elements == RenderPass(c.elements, Any, Nothing).elements
    ensures |RenderPass(c.elements, Any, Nothing).inside| == |c.elements|
    ensures forall k :: 0 <= k < |c.elements| ==>
              RenderClass(c).cls.elements[k] == RenderElement(c.elements[k]).member
  {
    var rs := RenderAll(c.elements);
    var name, id := Split(c.name, '.'), FirstId(Attributes(c.elements));
    assert RenderClass(c) == ClassWith(c, name, id, rs);
    ClassWithLines(c, name, id, rs);
    PassWithAnyNothing(c.elements, rs);
    PassWithElements(c.elements, rs, Any, Nothing);
  }

  /** A nested component without an id shows no class block: only its header
      comments, its nested components and its footer comments; its members
      are neither rendered nor changed. */
  lemma NestedWithoutId(c: ClassValue)
    requires !c.topLevel
    requires forall k :: 0 <= k < |c.elements| ==> !(c.elements[k].AttributeEl? && c.elements[k].attr.name == "id")
    ensures RenderClass(c).lines
            == c.headerComments + RenderPass(c.elements, Nothing, ClassesOnly).after + c.footerComments
    ensures forall k :: 0 <= k < |c.elements| && !c.elements[k].ClassEl? ==>
              RenderClass(c).cls.elements[k] == c.elements[k]
  {
    var attrs := Attributes(c.elements);
    FiltersKeepMembers(c.elements);
    FirstIdMeaning(attrs);
    assert FirstId(attrs).None? by {
      forall k | 0 <= k < |attrs|
        ensures attrs[k].name != "id"
      {
        assert AttributeEl(attrs[k]) in c.elements;
      }
    }
    var rs := RenderAll(c.elements);
    var name := Split(c.name, '.');
    assert RenderClass(c) == ClassWith(c, name, None, rs);
    NestedWithoutIdWith(c, name, rs);
  }

  lemma NestedWithoutIdWith(c: ClassValue, name: seq<string>, rs: seq<Rendered<Element>>)
    requires !c.topLevel && |name| > 0 && |rs| == |c.elements|
    ensures ClassWith(c, name, None, rs).lines
            == c.headerComments + PassWith(c.elements, rs, Nothing, ClassesOnly).after + c.footerComments
    ensures forall k :: 0 <= k < |c.elements| && !c.elements[k].ClassEl? ==>
              ClassWith(c, name, None, rs).cls.elements[k] == c.elements[k]
  {
    var pass := PassWith(c.elements, rs, Nothing, ClassesOnly);
    ClassWithLines(c, name, None, rs);
    ClassLinesParts(c, name, name[|name| - 1], None, false, pass);
    PassWithElements(c.elements, rs, Nothing, ClassesOnly);
  }

  /** The first `id` attribute is the one at `k` when none comes before it. */
  lemma FirstIdAt(attrs: seq<Attribute>, k: nat)
    requires k < |attrs| && attrs[k].name == "id"
    requires forall j :: 0 <= j < k ==> attrs[j].name != "id"
    ensures FirstId(attrs) == Some(attrs[k].value)
  {
    var id := FirstId(attrs);
    FirstIdMeaning(attrs);
    var k' :| 0 <= k' < |attrs| && attrs[k'].name == "id" && attrs[k'].value == id.value
              && forall j :: 0 <= j < k' ==> attrs[j].name != "id";
    assert k' == k;
  }

  /** A nested component whose first `id` attribute has value `v` is shown:
      after its header comments come its comment (if any) and `Name v;`,
      then the class block with its members, then its nested components. */
  lemma NestedWithId(c: ClassValue, k: nat)
    requires !c.topLevel
    requires k < |Attributes(c.elements)| && Attributes(c.elements)[k].name == "id"
    requires forall j :: 0 <= j < k ==> Attributes(c.elements)[j].name != "id"
    ensures RenderClass(c).lines
            == c.headerComments
               + ((if c.comment.Some? then [c.comment.value] else [])
                  + [LastSegment(c.name) + " " + Attributes(c.elements)[k].value + ";"])
               + Block(LastSegment(c.name), c.baseName, RenderPass(c.elements, MembersOnly, ClassesOnly).inside)
               + RenderPass(c.elements, MembersOnly, ClassesOnly).after + c.footerComments
  {
    var rs := RenderAll(c.elements);
    FirstIdAt(Attributes(c.elements), k);
    assert RenderClass(c) == ClassWith(c, Split(c.name, '.'), Some(Attributes(c.elements)[k].value), rs);
    assert RenderPass(c.elements, MembersOnly, ClassesOnly) == PassWith(c.elements, rs, MembersOnly, ClassesOnly);
    NestedWithIdWith(c, Attributes(c.elements)[k].value, rs);
  }

  lemma NestedWithIdWith(c: ClassValue, v: string, rs: seq<Rendered<Element>>)
    requires !c.topLevel && |rs| == |c.elements|
    ensures ClassWith(c, Split(c.name, '.'), Some(v), rs).lines
            == c.headerComments
               + ((if c.comment.Some? then [c.comment.value] else []) + [LastSegment(c.name) + " " + v + ";"])
               + Block(LastSegment(c.name), c.baseName, PassWith(c.elements, rs, MembersOnly, ClassesOnly).inside)
               + PassWith(c.elements, rs, MembersOnly, ClassesOnly).after + c.footerComments
  {
    var name := Split(c.name, '.');
    assert name[|name| - 1] == LastSegment(c.name) by { SegmentsOfName(c.name); }
    NestedWithIdLines(c, name, LastSegment(c.name), v, rs);
  }

  lemma NestedWithIdLines(c: ClassValue, name: seq<string>, last: string, v: string, rs: seq<Rendered<Element>>)
    requires !c.topLevel && |name| > 0 && name[|name| - 1] == last && |rs| == |c.elements|
    ensures ClassWith(c, name, Some(v), rs).lines
            == c.headerComments
               + ((if c.comment.Some? then [c.comment.value] else []) + [last + " " + v + ";"])
               + Block(last, c.baseName, PassWith(c.elements, rs, MembersOnly, ClassesOnly).inside)
               + PassWith(c.elements, rs, MembersOnly, ClassesOnly).after + c.footerComments
  {
    var pass := PassWith(c.elements, rs, MembersOnly, ClassesOnly);
    ClassWithLines(c, name, Some(v), rs);
    ClassLinesParts(c, name, last, Some(v), true, pass);
    ConcatEmptyEnds(c.headerComments, IdLines(c, last, Some(v)), Block(last, c.baseName, pass.inside),
                    pass.after, c.footerComments);
  }

  lemma ConcatEmptyEnds<T>(a: seq<T>, b: seq<T>, c: seq<T>, d: seq<T>, e: seq<T>)
    ensures [] + a + b + c + d + e + [] == a + b + c + d + e
  {
  }

  lemma {:induction false} PassWithChildrenAfter(es: seq<Element>, rs: seq<Rendered<Element>>)
    requires |rs| == |es|
    ensures PassWith(es, rs, MembersOnly, ClassesOnly).after == PassWith(es, rs, Nothing, ClassesOnly).after
    decreases |es|
  {
    if es != [] {
      PassWithChildrenAfter(es[..|es| - 1], rs[..|rs| - 1]);
    }
  }

  /** Nested components are rendered after the block whether or not the
      component is shown, and the same way. */
  lemma ChildrenAlwaysAfter(es: seq<Element>)
    ensures RenderPass(es, MembersOnly, ClassesOnly).after == RenderPass(es, Nothing, ClassesOnly).after
  {
    PassWithChildrenAfter(es, RenderAll(es));
  }

  // ---------------------------------------------------------------------------
  // What rendering changes

  /** An element with the docs and types that rendering may rewrite erased:
      those of properties, of functions and of their arguments, at any depth. */
  function Bare(e: Element): Element
    decreases e
  {
    match e
    case PropertyEl(p) => PropertyEl(p.(doc := "", typeName := ""))
    case FunctionEl(f) => FunctionEl(f.(doc := "", typeName := "", args := BareArgs(f.args)))
    case ClassEl(c) => ClassEl(c.(elements := BareAll(c.elements)))
    case _ => e
  }

  function BareAll(es: seq<Element>): (r: seq<Element>)
    ensures |r| == |es|
    decreases es
  {
    seq(|es|, k requires 0 <= k < |es| => Bare(es[k]))
  }

  function BareArgs(args: seq<Argument>): seq<Argument> {
    seq(|args|, k requires 0 <= k < |args| => Argument(args[k].name, ""))
  }

  /** Rendering an element changes nothing but docs and types. */
  lemma RenderElementBare(e: Element)
    ensures Bare(RenderElement(e).member) == Bare(e)
    decreases e
  {
    match e
    case FunctionEl(f) =>
      var g := RenderFunction(f).member;
      assert BareArgs(g.args) == BareArgs(f.args);
    case ClassEl(c) =>
      RenderClassBare(c);
    case _ =>
  }

  lemma RenderPassBare(es: seq<Element>, inside: Sel, after: Sel)
    ensures BareAll(RenderPass(es, inside, after).elements) == BareAll(es)
  {
    var rs := RenderAll(es);
    forall k | 0 <= k < |es|
      ensures Bare(rs[k].member) == Bare(es[k])
    {
      RenderElementBare(es[k]);
    }
    PassWithBare(es, rs, inside, after);
  }

  lemma PassWithBare(es: seq<Element>, rs: seq<Rendered<Element>>, inside: Sel, after: Sel)
    requires |rs| == |es|
    requires forall k :: 0 <= k < |es| ==> Bare(rs[k].member) == Bare(es[k])
    ensures BareAll(PassWith(es, rs, inside, after).elements) == BareAll(es)
  {
    PassWithElements(es, rs, inside, after);
  }

  /** Rendering a component changes nothing but the docs and types of its
      members and of its nested components' members. */
  lemma RenderClassBare(c: ClassValue)
    ensures Bare(ClassEl(RenderClass(c).cls)) == Bare(ClassEl(c))
    decreases c
  {
    var rs := RenderAll(c.elements);
    forall k | 0 <= k < |c.elements|
      ensures Bare(rs[k].member) == Bare(c.elements[k])
    {
      RenderElementBare(c.elements[k]);
    }
    var name, id := Split(c.name, '.'), FirstId(Attributes(c.elements));
    assert RenderClass(c) == ClassWith(c, name, id, rs);
    ClassWithBare(c, name, id, rs);
  }

  lemma ClassWithBare(c: ClassValue, name: seq<string>, id: Option<string>, rs: seq<Rendered<Element>>)
    requires |name| > 0 && |rs| == |c.elements|
    requires forall k :: 0 <= k < |c.elements| ==> Bare(rs[k].member) == Bare(c.elements[k])
    ensures Bare(ClassEl(ClassWith(c, name, id, rs).cls)) == Bare(ClassEl(c))
  {
    var show := c.topLevel || id.Some?;
    var pass := PassWith(c.elements, rs, InsideSel(c.topLevel, show), AfterSel(c.topLevel));
    ClassWithLines(c, name, id, rs);
    PassWithBare(c.elements, rs, InsideSel(c.topLevel, show), AfterSel(c.topLevel));
    assert Bare(ClassEl(c.(elements := pass.elements))) == ClassEl(c.(elements := BareAll(pass.elements)));
  }

  /** Elements alike but for docs and types have the same attributes and
      signals, so `get_attributes` and `get_signals` give the same before and
      after rendering. */
  lemma BareKeepsAttributesAndSignals(a: seq<Element>, b: seq<Element>)
    requires BareAll(a) == BareAll(b)
    ensures Attributes(a) == Attributes(b) && Signals(a) == Signals(b)
  {
    assert |a| == |BareAll(a)| == |BareAll(b)| == |b|;
    assert forall k :: 0 <= k < |a| ==> Bare(a[k]) == BareAll(a)[k] == BareAll(b)[k] == Bare(b[k]);
    AlikeKeepAttributesAndSignals(a, b);
  }

  /** The two lists agree element by element once their documentation is stripped. */
  ghost predicate Alike(a: seq<Element>, b: seq<Element>)
  {
    |a| == |b| && forall k :: 0 <= k < |a| ==> Bare(a[k]) == Bare(b[k])
  }

  lemma {:induction false} AlikeKeepAttributesAndSignals(a: seq<Element>, b: seq<Element>)
    requires Alike(a, b)
    ensures Attributes(a) == Attributes(b) && Signals(a) == Signals(b)
    decreases |a|
  {
    if a != [] {
      var n := |a| - 1;
      AlikePrefix(a, b, n);
      AlikeKeepAttributesAndSignals(a[..n], b[..n]);
      AlikeStep(a, b);
    }
  }

  lemma AlikePrefix(a: seq<Element>, b: seq<Element>, n: nat)
    requires Alike(a, b) && n <= |a|
    ensures Alike(a[..n], b[..n])
  {
    assert forall k :: 0 <= k < n ==> a[..n][k] == a[k] && b[..n][k] == b[k];
  }

  lemma AlikeStep(a: seq<Element>, b: seq<Element>)
    requires Alike(a, b) && a != []
    requires Attributes(a[..|a| - 1]) == Attributes(b[..|b| - 1])
    requires Signals(a[..|a| - 1]) == Signals(b[..|b| - 1])
    ensures Attributes(a) == Attributes(b) && Signals(a) == Signals(b)
  {
    var n := |a| - 1;
    BareKeepsKind(a[n], b[n]);
  }

  lemma BareKeepsKind(x: Element, y: Element)
    requires Bare(x) == Bare(y)
    ensures x.AttributeEl? == y.AttributeEl? && (x.AttributeEl? ==> x.attr == y.attr)
    ensures x.SignalEl? == y.SignalEl? && (x.SignalEl? ==> x.sig == y.sig)
  {
  }

  // ---------------------------------------------------------------------------
  // The builder

  /** `QmlClass`: the parser creates it, fills it by appends and finally
      asks for its text. */
  class QmlClass {
    var name: string
    var baseName: string
    var headerComments: seq<string>
    var footerComments: seq<string>
    var elements: seq<Element>
    var imports: seq<string>
    var topLevel: bool
    var comment: Option<string>

    /** The fields as a value. */
    function Value(): ClassValue
      reads this
    {
      ClassValue(name, baseName, headerComments, footerComments, elements, imports, topLevel, comment)
    }

    /** A top-level component with nothing in it; a non-empty version becomes
        its first header comment. */
    constructor(name: string, version: Option<string>)
      ensures Value() == ClassValue(name, "", if version.Some? && version.value != [] then [VersionComment(version.value)] else [],
                                    [], [], [], true, None)
    {
      this.name := name;
      baseName := "";
      headerComments := [];
      footerComments := [];
      elements := [];
      imports := [];
      topLevel := true;
      comment := None;
      if version.Some? && version.value != [] {
        headerComments := headerComments + [VersionComment(version.value)];
      }
    }

    method AddElement(e: Element)
      modifies this
      ensures Value() == old(Value()).(elements := old(elements) + [e])
    {
      elements := elements + [e];
    }

    method AddHeaderComment(obj: string)
      modifies this
      ensures Value() == old(Value()).(headerComments := old(headerComments) + [obj])
    {
      headerComments := headerComments + [obj];
    }

    method AddFooterComment(obj: string)
      modifies this
      ensures Value() == old(Value()).(footerComments := old(footerComments) + [obj])
    {
      footerComments := footerComments + [obj];
    }

    /** `add_import`: the module is the second word of the declaration; one
        that starts with a quote (a directory or a script) is ignored.  A
        declaration of fewer than two words is an error (`ok` is false). */
    method AddImport(decl: string) returns (ok: bool)
      modifies this
      ensures ok <==> |Words(decl)| >= 2
      ensures Value() == if ok && Words(decl)[1][0] != '"' then old(Value()).(imports := old(imports) + [Words(decl)[1]])
                         else old(Value())
    {
      var words := Words(decl);
      if |words| < 2 {
        return false;
      }
      var imp := words[1];
      ok := true;
      if imp[0] == '"' {
        return;
      }
      imports := imports + [imp];
    }

    /** `add_pragma`: the argument is the text between the first and the
        second space; `singleton` in any case, surrounded by any whitespace,
        adds the singleton remark.  A declaration without a space is an error
        (`ok` is false). */
    method AddPragma(decl: string) returns (ok: bool)
      modifies this
      ensures ok <==> ' ' in decl
      ensures Value() == if ok && IsSingleton(Split(decl, ' ')[1])
                         then old(Value()).(headerComments := old(headerComments) + [SingletonComment])
                         else old(Value())
    {
      var parts := Split(decl, ' ');
      SpaceSplits(decl);
      if |parts| < 2 {
        return false;
      }
      ok := true;
      if IsSingleton(parts[1]) {
        headerComments := headerComments + [SingletonComment];
      }
    }

    /** `__str__`: the lines of `RenderClass`, joined with newlines; the
        members are left as their rendering left them. */
    method ToString() returns (s: string)
      modifies this
      ensures Value() == RenderClass(old(Value())).cls
      ensures s == Join(RenderClass(old(Value())).lines, "\n")
    {
      ghost var c := Value();
      var name := Split(this.name, '.');
      var last := name[|name| - 1];
      var opening := OpeningLines(name);
      var header := headerComments;
      var idLines, show := IdLinesFor(last);
      ghost var pass := RenderPass(c.elements, InsideSel(c.topLevel, show), AfterSel(c.topLevel));
      var block, after := RenderBody(last, show);
      var lst := opening + header + idLines + block + after + footerComments
                 + (if topLevel && |name| > 1 then ["}"] else []);
      RenderClassLines(c, name, last, show, pass);
      ClassLinesParts(c, name, last, FirstId(Attributes(c.elements)), show, pass);
      s := Join(lst, "\n");
    }

    /** The two loops over the elements: the members (all elements, for the
        top-level component) rendered into the class block when it is shown,
        then, for a nested component, its nested components rendered after
        the block. */
    method RenderBody(last: string, show: bool) returns (block: seq<string>, after: seq<string>)
      requires topLevel ==> show
      modifies this
      ensures block == (if show then Block(last, old(baseName),
                          RenderPass(old(elements), InsideSel(old(topLevel), show), AfterSel(old(topLevel))).inside)
                        else [])
      ensures after == RenderPass(old(elements), InsideSel(old(topLevel), show), AfterSel(old(topLevel))).after
      ensures elements == RenderPass(old(elements), InsideSel(old(topLevel), show), AfterSel(old(topLevel))).elements
      ensures Value() == old(Value()).(elements := elements)
    {
      ghost var es := elements;
      ghost var ins := InsideSel(topLevel, show);
      RenderPassAnyNothing(es);
      if !topLevel {
        TwoPasses(es, ins);
      }
      block := [];
      if show {
        var texts := RenderElements(if topLevel then Any else MembersOnly);
        block := Block(last, baseName, texts);
      }
      after := [];
      if !topLevel {
        after := RenderElements(ClassesOnly);
      }
    }

    /** The `using namespace` lines and the namespace line of a top-level
        component. */
    method OpeningLines(name: seq<string>) returns (lst: seq<string>)
      requires |name| >= 1
      ensures lst == Opening(Value(), name)
    {
      lst := [];
      if topLevel {
        for i := 0 to |imports|
          invariant lst == UsingLines(imports[..i])
        {
          assert imports[..i + 1][..i] == imports[..i];
          lst := lst + [UsingLine(imports[i])];
        }
        assert imports[..|imports|] == imports;
        if |name| > 1 {
          lst := lst + [NamespaceOpen(name)];
        }
      }
    }

    /** The loop over `get_attributes()` of a nested component: the lines
        introducing it when it has an id, and whether it is shown. */
    method IdLinesFor(last: string) returns (lst: seq<string>, show: bool)
      ensures lst == IdLines(Value(), last, FirstId(Attributes(elements)))
      ensures show <==> topLevel || FirstId(Attributes(elements)).Some?
    {
      lst := [];
      show := true;
      if !topLevel {
        show := false;
        var attrs := Attributes(elements);
        var k := 0;
        while k < |attrs| && attrs[k].name != "id"
          invariant k <= |attrs|
          invariant forall j :: 0 <= j < k ==> attrs[j].name != "id"
        {
          k := k + 1;
        }
        if k == |attrs| {
          FirstIdMeaning(attrs);
        } else {
          FirstIdAt(attrs, k);
          if comment.Some? {
            lst := lst + [comment.value];
          }
          lst := lst + [last + " " + attrs[k].value + ";"];
          show := true;
        }
      }
    }

    /** One loop of `__str__` over the elements: renders, in order, those
        `sel` picks, and keeps each as its rendering left it. */
    method RenderElements(sel: Sel) returns (texts: seq<string>)
      modifies this`elements
      ensures elements == RenderPass(old(elements), sel, Nothing).elements
      ensures texts == RenderPass(old(elements), sel, Nothing).inside
      ensures Value() == old(Value()).(elements := elements)
    {
      var es := elements;
      ghost var rs := RenderAll(es);
      var out := [];
      texts := [];
      for i := 0 to |es|
        invariant out == PassWith(es[..i], rs[..i], sel, Nothing).elements
        invariant texts == PassWith(es[..i], rs[..i], sel, Nothing).inside
      {
        PassWithPrefix(es, rs, i, sel, Nothing);
        var e := es[i];
        if Selects(sel, e) {
          var o := RenderElement(e);
          out := out + [o.member];
          texts := texts + [o.text];
        } else {
          out := out + [e];
        }
      }
      assert es[..|es|] == es && rs[..|rs|] == rs;
      elements := out;
    }
  }

  /** `arg.lower() == "singleton"` after stripping whitespace: the stripped
      argument spells `singleton` in upper or lower case letters. */
  function IsSingleton(arg: string): (r: bool)
    ensures r <==> |StripSpace(arg)| == 9
                   && forall k :: 0 <= k < 9 ==> LowerChar(StripSpace(arg)[k]) == "singleton"[k]
  {
    Lower(StripSpace(arg)) == "singleton"
  }

  /** A string splits at spaces into more than one piece exactly when it has
      a space. */
  lemma SpaceSplits(s: string)
    ensures |Split(s, ' ')| >= 2 <==> ' ' in s
  {
    if ' ' in s {
      var k :| 0 <= k < |s| && s[k] == ' ';
      assert s == s[..k] + [' '] + s[k + 1..];
      SplitAround(s[..k], ' ', s[k + 1..]);
    } else {
      SplitAbsent(s, ' ');
    }
  }
}
