/**
  The export generator: a pure walk over the canvas that produces the Liquid
  section (markup inside a wrapper with a schema block) and its stylesheet
  (a constant responsive scaffold followed by one rule block per styled
  element, identical blocks kept once in first-seen order).
*/
module Codegen {
  import opened Strings
  import opened Catalog
  import opened Tree

  /** `el.dataset[key]`; a missing entry reads as the empty string, and the
      generator treats both as absent. */
  function Get(props: map<string, string>, key: string): (v: string)
    ensures key in props ==> v == props[key]
    ensures key !in props ==> v == ""
  {
    if key in props then props[key] else ""
  }

  /* ---------------- style declarations ---------------- */

  /** A dataset key the generator turns into a CSS declaration, the CSS
      property it becomes, and whether the value gets a `px` unit. */
  datatype Style = Style(key: string, property: string, px: bool)

  /** The fourteen style keys, in the order their declarations are emitted. */
  const StyleTable: seq<Style> := [
    Style("pt", "padding-top", true),
    Style("pr", "padding-right", true),
    Style("pb", "padding-bottom", true),
    Style("pl", "padding-left", true),
    Style("mt", "margin-top", true),
    Style("mr", "margin-right", true),
    Style("mb", "margin-bottom", true),
    Style("ml", "margin-left", true),
    Style("bgColor", "background-color", false),
    Style("textColor", "color", false),
    Style("fontSize", "font-size", true),
    Style("fontWeight", "font-weight", false),
    Style("textAlign", "text-align", false),
    Style("borderRadius", "border-radius", true)
  ]

  /** The keys a style table reads, in order. */
  function StyleKeys(table: seq<Style>): (r: seq<string>)
    ensures |r| == |table|
  {
    if table == [] then [] else [table[0].key] + StyleKeys(table[1..])
  }

  function Declaration(s: Style, value: string): string {
    s.property + ": " + value + (if s.px then "px" else "")
  }

  /** The declarations for the entries of `table` whose key holds a
      non-empty value, in table order. */
  function DeclarationsOf(props: map<string, string>, table: seq<Style>): (r: seq<string>)
    ensures |r| <= |table|
    ensures r == [] <==> forall k :: 0 <= k < |table| ==> Get(props, table[k].key) == ""
  {
    if table == [] then []
    else
      var v := Get(props, table[0].key);
      var rest := DeclarationsOf(props, table[1..]);
      assert forall k :: 1 <= k < |table| ==> table[k] == table[1..][k - 1];
      if v == "" then rest else [Declaration(table[0], v)] + rest
  }

  /** Declarations of a table split in two come in the same split: every
      padding declaration precedes every margin declaration, and so on. */
  lemma {:induction false} DeclarationsAppend(props: map<string, string>, a: seq<Style>, b: seq<Style>)
    ensures DeclarationsOf(props, a + b) == DeclarationsOf(props, a) + DeclarationsOf(props, b)
  {
    if a == [] {
      assert a + b == b;
    } else {
      assert (a + b)[0] == a[0];
      assert (a + b)[1..] == a[1..] + b;
      DeclarationsAppend(props, a[1..], b);
    }
  }

  /** Every entry with a non-empty value contributes its declaration, and
      every declaration comes from such an entry. */
  lemma {:induction false} DeclarationsMembers(props: map<string, string>, table: seq<Style>)
    ensures forall k :: 0 <= k < |table| && Get(props, table[k].key) != "" ==>
                          Declaration(table[k], Get(props, table[k].key)) in DeclarationsOf(props, table)
    ensures forall d :: d in DeclarationsOf(props, table) ==>
                          exists k :: 0 <= k < |table| && Get(props, table[k].key) != ""
                                      && d == Declaration(table[k], Get(props, table[k].key))
  {
    if table != [] {
      DeclarationsMembers(props, table[1..]);
      var rest := DeclarationsOf(props, table[1..]);
      forall k | 0 <= k < |table| && Get(props, table[k].key) != ""
        ensures Declaration(table[k], Get(props, table[k].key)) in DeclarationsOf(props, table)
      {
        if k > 0 {
          assert table[k] == table[1..][k - 1];
        }
      }
      forall d | d in DeclarationsOf(props, table)
        ensures exists k :: 0 <= k < |table| && Get(props, table[k].key) != ""
                            && d == Declaration(table[k], Get(props, table[k].key))
      {
        if d in rest {
          var j :| 0 <= j < |table[1..]| && Get(props, table[1..][j].key) != ""
                   && d == Declaration(table[1..][j], Get(props, table[1..][j].key));
          assert table[j + 1] == table[1..][j];
        } else {
          assert d == Declaration(table[0], Get(props, table[0].key));
        }
      }
    }
  }

  function Declarations(props: map<string, string>): seq<string> {
    DeclarationsOf(props, StyleTable)
  }

  /* ---------------- one element's rule ---------------- */

  /** `#customId` when a custom id is stored, otherwise the catalog class; the
      custom class never takes part. */
  function Selector(n: Node): string {
    var customId := Get(n.props, "customId");
    if customId != "" then "#" + customId else "." + Lookup(n.kind).cls
  }

  /** The element's rule block, present exactly when one of the style keys
      holds a non-empty value. */
  function RuleOf(n: Node): Option<string> {
    var decls := Declarations(n.props);
    if decls == [] then None
    else Some(Selector(n) + " {\n  " + Join(decls, ";\n  ") + ";\n}")
  }

  /** A rule block is emitted exactly when one of the fourteen style keys
      holds a non-empty value. */
  lemma RuleIffStyled(n: Node)
    ensures RuleOf(n).Some? <==> exists k :: 0 <= k < |StyleTable| && Get(n.props, StyleTable[k].key) != ""
  {
    var decls := DeclarationsOf(n.props, StyleTable);
    if decls != [] {
      var k :| 0 <= k < |StyleTable| && Get(n.props, StyleTable[k].key) != "";
    }
  }

  lemma SelectorIgnoresCustomClass(n: Node, v: string)
    ensures Selector(n.(props := n.props["customClass" := v])) == Selector(n)
  {
    assert Get(n.props["customClass" := v], "customId") == Get(n.props, "customId");
  }

  /** Without a stored custom id the selector is the catalog class. */
  lemma SelectorWithoutCustomId(n: Node)
    requires "customId" !in n.props
    ensures Selector(n) == "." + Lookup(n.kind).cls
  {
  }

  /* ---------------- rules of a whole tree ---------------- */

  function Own(n: Node): seq<string> {
    match RuleOf(n)
    case Some(r) => [r]
    case None => []
  }

  /** The rules an element and its descendants produce, children first: the
      content walk recurses into nested elements before the element's own
      rule is added. */
  function SegRules(s: Segment): seq<string>
    decreases SegSize(s), 0
  {
    match s
    case Elem(n) => Rules(n.content) + Own(n)
    case _ => []
  }

  function Rules(segs: seq<Segment>): seq<string>
    decreases Size(segs), 1
  {
    if segs == [] then [] else SegRules(segs[0]) + Rules(segs[1..])
  }

  lemma {:induction false} RulesAppend(a: seq<Segment>, b: seq<Segment>)
    ensures Rules(a + b) == Rules(a) + Rules(b)
    decreases |a|
  {
    if a == [] {
      assert a + b == b;
    } else {
      var ab := a + b;
      assert ab[0] == a[0] && ab[1..] == a[1..] + b;
      RulesAppend(a[1..], b);
      RulesCons(ab);
      RulesCons(a);
      Assoc(SegRules(a[0]), Rules(a[1..]), Rules(b));
    }
  }

  lemma RulesCons(segs: seq<Segment>)
    requires segs != []
    ensures Rules(segs) == SegRules(segs[0]) + Rules(segs[1..])
  {
  }

  lemma Assoc(h: seq<string>, x: seq<string>, y: seq<string>)
    ensures h + (x + y) == (h + x) + y
  {
  }

  /* ---------------- the document-order element list ---------------- */

  /** One entry of `querySelectorAll('.canvas-element')`: the element and
      whether its parent is itself a canvas element. */
  datatype Visit = Visit(node: Node, nested: bool)

  function SegVisits(s: Segment, nested: bool): seq<Visit>
    decreases SegSize(s), 0
  {
    match s
    case Elem(n) => [Visit(n, nested)] + Visits(n.content, true)
    case _ => []
  }

  /** Every canvas element in document order (pre-order). */
  function Visits(segs: seq<Segment>, nested: bool): seq<Visit>
    decreases Size(segs), 1
  {
    if segs == [] then [] else SegVisits(segs[0], nested) + Visits(segs[1..], nested)
  }

  /** The elements the export loop processes: those whose parent is not a
      canvas element. */
  function TopLevel(vs: seq<Visit>): seq<Node> {
    if vs == [] then []
    else (if vs[0].nested then [] else [vs[0].node]) + TopLevel(vs[1..])
  }

  /** The canvas elements among the segments, in order. */
  function Children(segs: seq<Segment>): seq<Node> {
    if segs == [] then []
    else (if segs[0].Elem? then [segs[0].node] else []) + Children(segs[1..])
  }

  lemma {:induction false} TopLevelAppend(a: seq<Visit>, b: seq<Visit>)
    ensures TopLevel(a + b) == TopLevel(a) + TopLevel(b)
  {
    if a == [] {
      assert a + b == b;
    } else {
      assert (a + b)[0] == a[0];
      assert (a + b)[1..] == a[1..] + b;
      TopLevelAppend(a[1..], b);
    }
  }

  lemma {:induction false} NestedVisitsFiltered(segs: seq<Segment>)
    ensures TopLevel(Visits(segs, true)) == []
    decreases Size(segs)
  {
    if segs != [] {
      TopLevelAppend(SegVisits(segs[0], true), Visits(segs[1..], true));
      match segs[0] {
        case Elem(n) =>
          TopLevelAppend([Visit(n, true)], Visits(n.content, true));
          NestedVisitsFiltered(n.content);
        case _ =>
      }
      NestedVisitsFiltered(segs[1..]);
    }
  }

  /** Filtering the document-order list by "parent is not a canvas element"
      yields exactly the canvas's own elements, in order. */
  lemma {:induction false} TopLevelIsChildren(segs: seq<Segment>)
    ensures TopLevel(Visits(segs, false)) == Children(segs)
  {
    if segs != [] {
      TopLevelAppend(SegVisits(segs[0], false), Visits(segs[1..], false));
      match segs[0] {
        case Elem(n) =>
          TopLevelAppend([Visit(n, false)], Visits(n.content, true));
          NestedVisitsFiltered(n.content);
        case _ =>
      }
      TopLevelIsChildren(segs[1..]);
    }
  }

  /** No element of the list has a rule. */
  predicate Unstyled(vs: seq<Visit>) {
    forall k :: 0 <= k < |vs| ==> RuleOf(vs[k].node).None?
  }

  lemma UnstyledAppend(a: seq<Visit>, b: seq<Visit>)
    ensures Unstyled(a + b) <==> Unstyled(a) && Unstyled(b)
  {
    assert forall k :: 0 <= k < |a| ==> (a + b)[k] == a[k];
    assert forall k :: 0 <= k < |b| ==> (a + b)[|a| + k] == b[k];
    if Unstyled(a) && Unstyled(b) {
      forall k | 0 <= k < |a + b|
        ensures RuleOf((a + b)[k].node).None?
      {
        if k >= |a| {
          assert (a + b)[k] == b[k - |a|];
        }
      }
    }
  }

  lemma UnstyledSingle(v: Visit)
    ensures Unstyled([v]) <==> RuleOf(v.node).None?
  {
    assert [v][0] == v;
  }

  /** A canvas has no rule exactly when no element in it has a style value. */
  lemma {:induction false} NoRulesIffUnstyled(segs: seq<Segment>, nested: bool)
    ensures Rules(segs) == [] <==> Unstyled(Visits(segs, nested))
    decreases Size(segs)
  {
    if segs != [] {
      var head := SegVisits(segs[0], nested);
      var tail := Visits(segs[1..], nested);
      var own, rest := SegRules(segs[0]), Rules(segs[1..]);
      assert Visits(segs, nested) == head + tail;
      assert Rules(segs) == own + rest;
      assert |own + rest| == |own| + |rest|;
      NoRulesIffUnstyled(segs[1..], nested);
      UnstyledAppend(head, tail);
      match segs[0] {
        case Elem(n) =>
          var inner := Rules(n.content);
          assert own == inner + Own(n);
          assert |inner + Own(n)| == |inner| + |Own(n)|;
          assert Own(n) == [] <==> RuleOf(n).None?;
          NoRulesIffUnstyled(n.content, true);
          assert head == [Visit(n, nested)] + Visits(n.content, true);
          UnstyledAppend([Visit(n, nested)], Visits(n.content, true));
          UnstyledSingle(Visit(n, nested));
        case _ =>
          assert own == [] && head == [];
      }
    }
  }

  /* ---------------- deduplication ---------------- */

  predicate Distinct(s: seq<string>) {
    forall i, j :: 0 <= i < j < |s| ==> s[i] != s[j]
  }

  /** The position of the first occurrence of `x`. */
  function FirstIndex(s: seq<string>, x: string): (i: nat)
    requires x in s
    ensures i < |s| && s[i] == x
    ensures forall j :: 0 <= j < i ==> s[j] != x
  {
    if s[0] == x then 0
    else
      var i := FirstIndex(s[1..], x);
      assert forall j :: 1 <= j <= i ==> s[j] == s[1..][j - 1];
      1 + i
  }

  /** Insertion-ordered set semantics: each rule text once, at its first
      occurrence. */
  function Dedup(s: seq<string>): (r: seq<string>)
    ensures forall x :: x in r <==> x in s
    ensures Distinct(r)
    decreases |s|
  {
    if s == [] then []
    else
      var p := s[..|s| - 1];
      var x := s[|s| - 1];
      assert s == p + [x];
      var d := Dedup(p);
      if x in d then d else d + [x]
  }

  lemma FirstIndexSnoc(p: seq<string>, x: string, y: string)
    requires y in p
    ensures FirstIndex(p + [x], y) == FirstIndex(p, y)
  {
    var i := FirstIndex(p, y);
    var q := p + [x];
    assert q[i] == y;
    assert forall j :: 0 <= j < i ==> q[j] == p[j];
    FirstIndexUnique(q, y, i);
  }

  lemma FirstIndexUnique(s: seq<string>, x: string, i: nat)
    requires i < |s| && s[i] == x && forall j :: 0 <= j < i ==> s[j] != x
    ensures FirstIndex(s, x) == i
  {
  }

  /** The kept rules appear in the order of their first occurrences. */
  lemma {:induction false} DedupFirstSeenOrder(s: seq<string>)
    ensures forall i, j :: 0 <= i < j < |Dedup(s)| ==>
              FirstIndex(s, Dedup(s)[i]) < FirstIndex(s, Dedup(s)[j])
    decreases |s|
  {
    if s != [] {
      var p := s[..|s| - 1];
      var x := s[|s| - 1];
      assert s == p + [x];
      var d := Dedup(p);
      DedupFirstSeenOrder(p);
      forall i, j | 0 <= i < j < |d|
        ensures FirstIndex(s, d[i]) < FirstIndex(s, d[j])
      {
        assert d[i] in d && d[j] in d;
        assert FirstIndex(p, d[i]) < FirstIndex(p, d[j]);
        FirstIndexSnoc(p, x, d[i]);
        FirstIndexSnoc(p, x, d[j]);
      }
      if x !in d {
        FirstIndexUnique(s, x, |p|);
        var r := d + [x];
        forall i, j | 0 <= i < j < |r|
          ensures FirstIndex(s, r[i]) < FirstIndex(s, r[j])
        {
          assert r[i] == d[i];
          if j < |d| {
            assert r[j] == d[j];
          } else {
            assert d[i] in d;
            FirstIndexSnoc(p, x, d[i]);
          }
        }
      }
    }
  }

  /** Rules that are already distinct pass through unchanged. */
  lemma {:induction false} DedupOfDistinct(s: seq<string>)
    requires Distinct(s)
    ensures Dedup(s) == s
    decreases |s|
  {
    if s != [] {
      var p := s[..|s| - 1];
      assert s == p + [s[|s| - 1]];
      DedupOfDistinct(p);
    }
  }

  /** `cssRules.forEach(rule => cssContent += rule + '\n\n')`. */
  function RuleBlocks(rules: seq<string>): string {
    if rules == [] then "" else rules[0] + "\n\n" + RuleBlocks(rules[1..])
  }

  /* ---------------- markup ---------------- */

  /** The attribute string: the catalog class and then the custom class, then
      the custom id, then the link target, each only when present. */
  function Attrs(n: Node): string {
    var customClass := Get(n.props, "customClass");
    var customId := Get(n.props, "customId");
    var href := Get(n.props, "href");
    var classes := [Lookup(n.kind).cls] + (if customClass != "" then [customClass] else []);
    "class=\"" + Join(classes, " ") + "\""
    + (if customId != "" then " id=\"" + customId + "\"" else "")
    + (if href != "" then " href=\"" + href + "\"" else "")
  }

  /** `<tag attrs>` on its own line at the given indentation. */
  function OpenTag(indent: string, tag: string, attrs: string): string {
    indent + "<" + tag + " " + attrs + ">\n"
  }

  /** Opening tag, the content on its own line two spaces deeper, closing tag. */
  function Wrap(indent: string, tag: string, attrs: string, inner: string): string {
    OpenTag(indent, tag, attrs) + indent + "  " + inner + "\n" + indent + "</" + tag + ">\n"
  }

  /** One child node's contribution to its parent's content: text and foreign
      markup as they are, a nested canvas element as its own markup indented
      by `indent`. */
  function SegMarkup(s: Segment, indent: string): string
    decreases SegSize(s), 0
  {
    match s
    case Text(t) => t
    case Raw(m) => m
    case Elem(n) =>
      var tag := Lookup(n.kind).tag;
      if IsVoidTag(tag) then OpenTag(indent, tag, Attrs(n))
      else Wrap(indent, tag, Attrs(n), Trim(Content(n.content, indent + "  ")))
  }

  /** The content of an element: its children's contributions in order. */
  function Content(segs: seq<Segment>, indent: string): string
    decreases Size(segs), 1
  {
    if segs == [] then "" else SegMarkup(segs[0], indent) + Content(segs[1..], indent)
  }

  function Markup(n: Node, indent: string): string {
    SegMarkup(Elem(n), indent)
  }

  lemma {:induction false} ContentAppend(a: seq<Segment>, b: seq<Segment>, indent: string)
    ensures Content(a + b, indent) == Content(a, indent) + Content(b, indent)
  {
    if a == [] {
      assert a + b == b;
    } else {
      assert (a + b)[0] == a[0];
      assert (a + b)[1..] == a[1..] + b;
      ContentAppend(a[1..], b, indent);
    }
  }

  /** Any child's contribution sits in the content between those of the
      children before and after it. */
  lemma ContentAt(segs: seq<Segment>, indent: string, k: nat)
    requires k < |segs|
    ensures Content(segs, indent) ==
              Content(segs[..k], indent) + SegMarkup(segs[k], indent) + Content(segs[k + 1..], indent)
  {
    assert segs == segs[..k] + ([segs[k]] + segs[k + 1..]);
    ContentAppend(segs[..k], [segs[k]] + segs[k + 1..], indent);
    ContentAppend([segs[k]], segs[k + 1..], indent);
    SingleContent(segs[k], indent);
  }

  lemma SingleContent(s: Segment, indent: string)
    ensures Content([s], indent) == SegMarkup(s, indent)
  {
    assert [s][1..] == [];
    assert Content([s], indent) == SegMarkup(s, indent) + "";
  }

  /** A nested element's markup starts with the indentation of the content
      it sits in -- two spaces per level of nesting. */
  lemma MarkupIndented(n: Node, indent: string)
    ensures indent <= Markup(n, indent)
  {
    var tag := Lookup(n.kind).tag;
    if IsVoidTag(tag) {
      OpenIndented(indent, tag, Attrs(n));
    } else {
      WrapIndented(indent, tag, Attrs(n), Trim(Content(n.content, indent + "  ")));
    }
  }

  lemma OpenIndented(indent: string, tag: string, attrs: string)
    ensures indent <= OpenTag(indent, tag, attrs)
  {
    assert OpenTag(indent, tag, attrs) == indent + ("<" + tag + " " + attrs + ">\n");
  }

  lemma WrapIndented(indent: string, tag: string, attrs: string, inner: string)
    ensures indent <= Wrap(indent, tag, attrs, inner)
  {
    var open := OpenTag(indent, tag, attrs);
    OpenIndented(indent, tag, attrs);
    assert Wrap(indent, tag, attrs, inner) == open + (indent + "  " + inner + "\n" + indent + "</" + tag + ">\n");
  }

  /** `hr` and `input` elements render as a lone opening tag, whatever their
      content. */
  lemma VoidIgnoresContent(n: Node, content: seq<Segment>, indent: string)
    requires IsVoidTag(Lookup(n.kind).tag)
    ensures Markup(n.(content := content), indent) == Markup(n, indent)
  {
  }

  /** An element whose only content is one text renders that text trimmed
      between its opening and closing tags, two spaces deeper. */
  lemma TextElementMarkup(n: Node, t: string, indent: string)
    requires n.content == [Text(t)] && !IsVoidTag(Lookup(n.kind).tag)
    ensures Markup(n, indent) == Wrap(indent, Lookup(n.kind).tag, Attrs(n), Trim(t))
  {
    var c := Content(n.content, indent + "  ");
    assert n.content[1..] == [];
    assert c == SegMarkup(Text(t), indent + "  ") + Content([], indent + "  ");
    assert c == t + "";
    assert t + "" == t;
  }

  /** A child element's markup is nested two spaces deeper than its parent's. */
  lemma ChildIndented(n: Node, c: Node, indent: string)
    requires n.content == [Elem(c)] && !IsVoidTag(Lookup(n.kind).tag)
    ensures Markup(n, indent) == Wrap(indent, Lookup(n.kind).tag, Attrs(n), Trim(Markup(c, indent + "  ")))
  {
    var m := Markup(c, indent + "  ");
    assert n.content[1..] == [];
    assert Content(n.content, indent + "  ") == m + "";
    assert m + "" == m;
  }

  /** Without custom keys and a link target the attributes are the catalog
      class alone. */
  lemma PlainAttrs(n: Node)
    requires "customId" !in n.props && "customClass" !in n.props && "href" !in n.props
    ensures Attrs(n) == "class=\"" + Lookup(n.kind).cls + "\""
  {
  }

  /* ---------------- the export ---------------- */

  datatype Export = Export(liquid: string, css: string)

  function MarkupAll(nodes: seq<Node>): string {
    if nodes == [] then "" else Markup(nodes[0], "") + MarkupAll(nodes[1..])
  }

  function RulesOfNodes(nodes: seq<Node>): seq<string> {
    if nodes == [] then [] else SegRules(Elem(nodes[0])) + RulesOfNodes(nodes[1..])
  }

  /** The Liquid section: stylesheet tag, the wrapper around the markup, and
      the schema block naming the section. */
  function LiquidWrapper(name: string, body: string): string {
    "{{ '" + name + ".css' | asset_url | stylesheet_tag }}\n\n<div class=\"" + name + "-wrapper\">\n"
    + body
    + "\n</div>\n\n{% schema %}\n{\n  \"name\": \"" + name + "\",\n  \"settings\": [],\n"
    + "  \"presets\": [\n    {\n      \"name\": \"" + name + "\"\n    }\n  ]\n}\n{% endschema %}"
  }

  /** The constant responsive scaffold that opens every stylesheet. */
  function CssScaffold(name: string): string {
    "/* " + name + " Styles */\n"
    + "." + name + "-wrapper {\n  width: 100%;\n  overflow-x: hidden;\n  box-sizing: border-box;\n}\n\n"
    + "/* Base Responsive Grid (Automatically Exported) */\n"
    + "." + name + "-wrapper .el-row {\n  display: flex;\n  flex-wrap: wrap;\n  gap: 20px;\n  width: 100%;\n"
    + "  box-sizing: border-box;\n}\n\n"
    + "." + name + "-wrapper .el-column {\n  flex: 1 1 0%;\n  min-width: 0;\n  box-sizing: border-box;\n}\n\n"
    + "/* Mobile Breakpoint for Live Store */\n"
    + "@media screen and (max-width: 768px) {\n"
    + "  ." + name + "-wrapper .el-row {\n    flex-direction: column !important;\n  }\n"
    + "  ." + name + "-wrapper .el-column {\n    width: 100% !important;\n    flex: none !important;\n  }\n"
    + "}\n\n"
  }

  /** `generateCode`: process the elements whose parent is not a canvas
      element, in document order; the name is used verbatim. */
  function GenerateCode(canvas: Canvas, name: string): Export {
    var top := TopLevel(Visits(canvas, false));
    Export(LiquidWrapper(name, MarkupAll(top)),
           CssScaffold(name) + RuleBlocks(Dedup(RulesOfNodes(top))))
  }

  lemma {:induction false} RulesOfChildren(segs: seq<Segment>)
    ensures RulesOfNodes(Children(segs)) == Rules(segs)
  {
    if segs != [] {
      RulesOfChildren(segs[1..]);
      var rest := Children(segs[1..]);
      if segs[0].Elem? {
        var cs := [segs[0].node] + rest;
        assert cs[0] == segs[0].node && cs[1..] == rest;
        assert Elem(segs[0].node) == segs[0];
      } else {
        assert Children(segs) == [] + rest == rest;
        assert Rules(segs) == [] + Rules(segs[1..]);
      }
    }
  }

  /** The stylesheet is the scaffold followed by every element's rule block,
      in the children-first document order, identical blocks once at their
      first occurrence. */
  lemma GeneratedCss(canvas: Canvas, name: string)
    ensures GenerateCode(canvas, name).css == CssScaffold(name) + RuleBlocks(Dedup(Rules(canvas)))
  {
    TopLevelRules(canvas);
  }

  /** The top-level elements collect the rules of the whole canvas. */
  lemma TopLevelRules(canvas: Canvas)
    ensures RulesOfNodes(TopLevel(Visits(canvas, false))) == Rules(canvas)
  {
    TopLevelIsChildren(canvas);
    RulesOfChildren(canvas);
  }

  /** The markup is the top-level elements' markup, in order, inside the
      wrapper. */
  lemma GeneratedMarkup(canvas: Canvas, name: string)
    ensures GenerateCode(canvas, name).liquid == LiquidWrapper(name, MarkupAll(Children(canvas)))
  {
    TopLevelIsChildren(canvas);
  }

  /** A canvas without style values exports the bare scaffold as its
      stylesheet. */
  lemma UnstyledCss(canvas: Canvas, name: string)
    requires Unstyled(Visits(canvas, false))
    ensures GenerateCode(canvas, name).css == CssScaffold(name)
  {
    NoRuleBlocks(canvas);
    AppendEmpty(CssScaffold(name));
    GeneratedCss(canvas, name);
  }

  lemma NoRuleBlocks(canvas: Canvas)
    requires Unstyled(Visits(canvas, false))
    ensures RuleBlocks(Dedup(Rules(canvas))) == ""
  {
    NoRulesIffUnstyled(canvas, false);
    assert Dedup(Rules(canvas)) == [];
  }

  /** An empty canvas exports the bare wrapper. */
  lemma EmptyMarkup(name: string)
    ensures GenerateCode([], name).liquid == LiquidWrapper(name, "")
  {
    NoMarkup();
    GeneratedMarkup([], name);
  }

  lemma NoMarkup()
    ensures MarkupAll(Children([])) == ""
  {
    assert Children([]) == [];
  }

  lemma AppendEmpty(x: string)
    ensures x + "" == x
  {
  }

  /** `sectionName || 'custom-section'`: the typed name verbatim, or the
      default when the field is empty. */
  function ExportName(input: string): (r: string)
    ensures r != []
    ensures input != [] ==> r == input
  {
    if input == "" then "custom-section" else input
  }
}
