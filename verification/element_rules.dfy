/**
 * What the tree builder of crates/compiler/src/parser.rs decides about one
 * element, as functions of its parts: the parse options, which properties its
 * attributes become, its tag type, what happens to its children when it is
 * closed, and where a finished node is inserted.
 */
module ElementRules {
  import opened Wrappers
  import opened TextUtil
  import opened Ast
  import opened Directives
  import opened Whitespace
  import DirectiveProofs
  import Scanner

  datatype WhitespaceStrategy = Preserve | Condense

  /**
   * The parse options; the callbacks are parameters of the model. The
   * namespace callback is not part of it (namespaces are left out), and the
   * built-in component lookup is reduced to whether it finds one.
   */
  datatype ParseOption = ParseOption(
    whitespace: WhitespaceStrategy,
    preserveComment: bool,
    getTextMode: string -> Scanner.TextMode,
    isVoidTag: string -> bool,
    isPreTag: string -> bool,
    isCustomElement: string -> bool,
    isBuiltinComponent: string -> bool,
    isNativeElement: string -> bool)

  predicate NeedCondense(option: ParseOption)
  {
    option.whitespace == Condense
  }

  /**
   * Whether a directive whose name satisfies `pat` is among the properties
   * (the repository's `find_dir`, which is not part of this model, taken as
   * this search).
   */
  predicate HasDir(props: seq<ElemProp>, pat: string -> bool)
  {
    exists k :: 0 <= k < |props| && props[k].Dir? && pat(props[k].dir.name)
  }

  predicate IsPre(name: string)
  {
    name == "pre"
  }

  /** `is_v_pre_boundary`: the element carries a `v-pre` directive. */
  predicate IsVPreBoundary(e: Element)
  {
    HasDir(e.properties, IsPre)
  }

  /** `is_template_element`: a `<template>` with `v-if`, `v-for`, `v-else`, `v-slot` or `v-else-if`. */
  predicate IsTemplateElement(e: Element)
  {
    e.tagName == "template" && HasDir(e.properties, IsSpecialTemplateDirective)
  }

  /** `element_matches_end_tag`: tag names compared ignoring ASCII case. */
  predicate ElementMatchesEndTag(e: Element, tag: string)
  {
    EqIgnoreAsciiCase(e.tagName, tag)
  }

  lemma EndTagMatchIsLowercaseEquality(e: Element, tag: string)
    ensures ElementMatchesEndTag(e, tag) <==> AsciiLowercase(e.tagName) == AsciiLowercase(tag)
  {
    EqIgnoreAsciiCaseIsLowercaseEquality(e.tagName, tag);
  }

  /** The search of `parse_end_tag`: the innermost open element the end tag matches. */
  function FindOpenElement(elems: seq<Element>, tag: string): (r: Option<nat>)
    ensures r.Some? ==> r.value < |elems| && ElementMatchesEndTag(elems[r.value], tag)
    ensures r.Some? ==> forall k :: r.value < k < |elems| ==> !ElementMatchesEndTag(elems[k], tag)
    ensures r.None? ==> forall k :: 0 <= k < |elems| ==> !ElementMatchesEndTag(elems[k], tag)
  {
    if elems == [] then None
    else if ElementMatchesEndTag(elems[|elems| - 1], tag) then Some(|elems| - 1)
    else FindOpenElement(elems[..|elems| - 1], tag)
  }

  /** A property that asks for a component: `v-is`/`:is`, or `is="vue:..."`. */
  predicate AsksForComponent(p: ElemProp)
  {
    match p
    case Dir(d) => d.name == "is"
    case Attr(a) => a.name == "is" && a.value.Some? && StartsWith(a.value.value.content.raw, "vue:")
  }

  /** `is_component`. */
  predicate IsComponent(option: ParseOption, isCoreComponent: string -> bool, e: Element)
  {
    var name := e.tagName;
    !option.isCustomElement(name) &&
    (name == "component" || (|name| > 0 && 'A' <= name[0] <= 'Z') || isCoreComponent(name) ||
     option.isBuiltinComponent(name) || !option.isNativeElement(name) ||
     exists k :: 0 <= k < |e.properties| && AsksForComponent(e.properties[k]))
  }

  /** The tag type `parse_element` assigns; inside a v-pre region every element stays plain. */
  function TagTypeOf(option: ParseOption, isCoreComponent: string -> bool, e: Element, inVPre: bool): ElementType
  {
    if inVPre then Plain
    else if e.tagName == "slot" then SlotOutlet
    else if IsTemplateElement(e) then Template
    else if IsComponent(option, isCoreComponent, e) then Component
    else Plain
  }

  /** The tag type depends on the tag name and the properties only, never on the children. */
  lemma TagTypeIgnoresChildren(option: ParseOption, isCoreComponent: string -> bool, e: Element, children: seq<AstNode>, inVPre: bool)
    ensures TagTypeOf(option, isCoreComponent, e.(children := children), inVPre) == TagTypeOf(option, isCoreComponent, e, inVPre)
  {
    assert e.(children := children).properties == e.properties;
  }

  /**
   * The order of the tests: `slot` is an outlet before anything else; a
   * custom element is never a component; `component`, an upper-case first
   * letter, or `is="vue:..."` makes one otherwise.
   */
  lemma TagTypePrecedence(option: ParseOption, isCoreComponent: string -> bool, e: Element)
    ensures e.tagName == "slot" ==> TagTypeOf(option, isCoreComponent, e, false) == SlotOutlet
    ensures option.isCustomElement(e.tagName) ==> TagTypeOf(option, isCoreComponent, e, false) != Component
    ensures TagTypeOf(option, isCoreComponent, e, false) == Template <==> e.tagName == "template" && HasDir(e.properties, IsSpecialTemplateDirective)
    ensures (e.tagName != "slot" && e.tagName != "template" && !option.isCustomElement(e.tagName) &&
             (e.tagName == "component" || (|e.tagName| > 0 && 'A' <= e.tagName[0] <= 'Z'))) ==>
      TagTypeOf(option, isCoreComponent, e, false) == Component
    ensures (e.tagName != "slot" && e.tagName != "template" && !option.isCustomElement(e.tagName) &&
             (exists k :: 0 <= k < |e.properties| && AsksForComponent(e.properties[k]))) ==>
      TagTypeOf(option, isCoreComponent, e, false) == Component
  {
  }

  /** How many of the elements are pre tags: the builder's `pre_count` when these are the open ones. */
  function CountPre(option: ParseOption, elems: seq<Element>): nat
  {
    if elems == [] then 0
    else CountPre(option, elems[..|elems| - 1]) + (if option.isPreTag(elems[|elems| - 1].tagName) then 1 else 0)
  }

  /** Same tag names, tag types and properties, position by position; children may differ. */
  predicate SameShape(a: seq<Element>, b: seq<Element>)
  {
    |a| == |b| &&
    forall k :: 0 <= k < |a| ==>
      a[k].tagName == b[k].tagName && a[k].tagType == b[k].tagType && a[k].properties == b[k].properties
  }

  lemma {:induction false} CountPreOfSameShape(option: ParseOption, a: seq<Element>, b: seq<Element>)
    requires SameShape(a, b)
    ensures CountPre(option, a) == CountPre(option, b)
    decreases |a|
  {
    if a != [] {
      CountPreOfSameShape(option, a[..|a| - 1], b[..|b| - 1]);
    }
  }

  /**
   * `insert_node`: the node becomes the last child of the innermost open
   * element, or the last root node when none is open; nothing else changes.
   */
  function Inserted(elems: seq<Element>, roots: seq<AstNode>, node: AstNode): (r: (seq<Element>, seq<AstNode>))
    ensures SameShape(r.0, elems)
    ensures |elems| > 0 ==>
      r.1 == roots && r.0[..|elems| - 1] == elems[..|elems| - 1] &&
      r.0[|elems| - 1].children == elems[|elems| - 1].children + [node]
    ensures |elems| == 0 ==> r.0 == [] && r.1 == roots + [node]
  {
    if |elems| > 0 then
      var top := elems[|elems| - 1];
      (elems[..|elems| - 1] + [top.(children := top.children + [node])], roots)
    else (elems, roots + [node])
  }

  /**
   * The trim of `decrement_pre`: a leading newline is dropped from the
   * element's LAST child when that is text.
   */
  function TrimLastTextChild(children: seq<AstNode>): (r: seq<AstNode>)
    ensures |r| == |children|
    ensures children != [] ==> r[..|r| - 1] == children[..|children| - 1]
    ensures children == [] || !children[|children| - 1].Text? ==> r == children
    ensures children != [] && children[|children| - 1].Text? ==>
      r[|r| - 1] == Text(TrimLeadingNewline(children[|children| - 1].textNode))
  {
    if children != [] && children[|children| - 1].Text? then
      children[..|children| - 1] + [Text(TrimLeadingNewline(children[|children| - 1].textNode))]
    else children
  }

  /**
   * What closing does to an element: inside a pre region a pre tag loses
   * the leading newline of its last text child and nothing is compressed;
   * outside one, the children of an element whose content is markup are
   * whitespace-compressed. Then the tag type is set.
   */
  function Closed(option: ParseOption, isCoreComponent: string -> bool, e: Element, inPre: bool, inVPre: bool): Element
  {
    var processed := e.(children := ClosedChildren(option, e, inPre));
    processed.(tagType := TagTypeOf(option, isCoreComponent, processed, inVPre))
  }

  /** The children of a closing element: inside pre only a pre tag's last text is trimmed, in data mode they are compressed. */
  function ClosedChildren(option: ParseOption, e: Element, inPre: bool): seq<AstNode>
  {
    if inPre then (if option.isPreTag(e.tagName) then TrimLastTextChild(e.children) else e.children)
    else if option.getTextMode(e.tagName) == Scanner.Data then Compress(e.children, NeedCondense(option))
    else e.children
  }

  /** Position of the first attribute named exactly `v-pre`, or the length when there is none. */
  function VPreAt(attrs: seq<Scanner.Attribute>): (i: nat)
    ensures i <= |attrs|
    ensures forall k :: 0 <= k < i ==> attrs[k].name != "v-pre"
    ensures i < |attrs| ==> attrs[i].name == "v-pre"
  {
    if attrs == [] then 0
    else if attrs[0].name == "v-pre" then 0
    else 1 + VPreAt(attrs[1..])
  }

  lemma VPreDirName()
    ensures ParseDirName("v-pre") == Reported(Some(("pre", "")), [])
  {
    assert StartsWith("v-pre", "v-");
    assert "v-pre"[2..] == "pre";
    assert IndexOfAny("pre", {':', '.'}) == 3;
    assert "pre"[..3] == "pre" && "pre"[3..] == "";
  }

  /** A `v-pre` attribute is the directive `pre` with no argument and no modifiers, and reports nothing. */
  lemma VPreParsed(attr: Scanner.Attribute)
    requires attr.name == "v-pre"
    ensures ParseDirName(attr.name).value.Some?
    ensures ParseDirective(attr) == Reported(Directive("pre", None, [], TrimAttrValue(attr.value)), [])
  {
    VPreDirName();
    FirstCharDiffers("v-pre", ".");
    DirectiveProofs.NoModsParsed(false);
    DirectiveProofs.ParseDirectiveStages(attr, "pre", "", Reported(("", ""), []), Reported(None, []), Reported([], []));
  }

  /** One attribute outside a v-pre region: a directive when its name says so, else a decoded attribute. */
  function PropOf(attr: Scanner.Attribute): Reported<ElemProp>
  {
    var detected := ParseDirName(attr.name);
    if detected.value.Some? then
      var d := ParseDirective(attr);
      Reported(Dir(d.value), detected.errors + d.errors)
    else Reported(DecodedAttr(attr), detected.errors)
  }

  /** A list mapped element by element through `f`, the errors of each in list order. */
  function MapReported<A, B>(f: A -> Reported<B>, xs: seq<A>): (r: Reported<seq<B>>)
    ensures |r.value| == |xs|
  {
    if xs == [] then Reported([], [])
    else
      var init := MapReported(f, xs[..|xs| - 1]);
      var p := f(xs[|xs| - 1]);
      Reported(init.value + [p.value], init.errors + p.errors)
  }

  lemma MapReportedSnoc<A, B>(f: A -> Reported<B>, xs: seq<A>, j: nat)
    requires j < |xs|
    ensures var init, p := MapReported(f, xs[..j]), f(xs[j]);
      MapReported(f, xs[..j + 1]) == Reported(init.value + [p.value], init.errors + p.errors)
  {
    assert xs[..j + 1][..j] == xs[..j];
  }

  function AsAttrs(attrs: seq<Scanner.Attribute>): (r: seq<ElemProp>)
    ensures |r| == |attrs| && forall k :: 0 <= k < |attrs| ==> r[k] == Attr(attrs[k])
  {
    seq(|attrs|, k requires 0 <= k < |attrs| => Attr(attrs[k]))
  }

  function DecodedAttrs(attrs: seq<Scanner.Attribute>): (r: seq<ElemProp>)
    ensures |r| == |attrs| && forall k :: 0 <= k < |attrs| ==> r[k] == DecodedAttr(attrs[k])
  {
    seq(|attrs|, k requires 0 <= k < |attrs| => DecodedAttr(attrs[k]))
  }

  /**
   * `parse_attributes`: in a v-pre region every attribute stays a raw
   * attribute; otherwise a `v-pre` attribute is parsed first and every other
   * attribute kept as a decoded attribute, and without one each attribute is
   * mapped on its own.
   */
  function PropsOf(attrs: seq<Scanner.Attribute>, inVPre: bool): Reported<seq<ElemProp>>
  {
    if inVPre then Reported(AsAttrs(attrs), [])
    else
      var i := VPreAt(attrs);
      if i < |attrs| then
        var detected := ParseDirName(attrs[i].name);
        assert detected.value.Some? by { VPreParsed(attrs[i]); }
        var d := ParseDirective(attrs[i]);
        Reported([Dir(d.value)] + DecodedAttrs(attrs[..i] + attrs[i + 1..]), detected.errors + d.errors)
      else MapReported(PropOf, attrs)
  }

  /** The three cases of PropsOf, one lemma each so that callers need not unfold it. */
  lemma PropsOfInVPre(attrs: seq<Scanner.Attribute>)
    ensures PropsOf(attrs, true) == Reported(AsAttrs(attrs), [])
  {
  }

  lemma PropsOfVPreFound(attrs: seq<Scanner.Attribute>, i: nat)
    requires i < |attrs| && attrs[i].name == "v-pre"
    requires forall k :: 0 <= k < i ==> attrs[k].name != "v-pre"
    ensures ParseDirName(attrs[i].name).value.Some?
    ensures PropsOf(attrs, false) ==
      Reported([Dir(ParseDirective(attrs[i]).value)] + DecodedAttrs(attrs[..i] + attrs[i + 1..]),
               ParseDirName(attrs[i].name).errors + ParseDirective(attrs[i]).errors)
  {
    VPreParsed(attrs[i]);
    assert VPreAt(attrs) == i;
  }

  lemma PropsOfNoVPre(attrs: seq<Scanner.Attribute>)
    requires forall k :: 0 <= k < |attrs| ==> attrs[k].name != "v-pre"
    ensures PropsOf(attrs, false) == MapReported(PropOf, attrs)
  {
    assert VPreAt(attrs) == |attrs|;
  }

  lemma PropOfCases(attr: Scanner.Attribute)
    ensures ParseDirName(attr.name).value.Some? ==>
      PropOf(attr) == Reported(Dir(ParseDirective(attr).value), ParseDirName(attr.name).errors + ParseDirective(attr).errors)
    ensures ParseDirName(attr.name).value.None? ==>
      PropOf(attr) == Reported(DecodedAttr(attr), ParseDirName(attr.name).errors)
  {
  }

  /** Inside a v-pre region nothing is a directive, nothing is decoded and nothing is reported. */
  lemma PropsInVPre(attrs: seq<Scanner.Attribute>, pat: string -> bool)
    ensures var r := PropsOf(attrs, true);
      r.errors == [] && |r.value| == |attrs| && !HasDir(r.value, pat) &&
      forall k :: 0 <= k < |attrs| ==> r.value[k] == Attr(attrs[k])
  {
  }

  /**
   * A `v-pre` attribute comes out first as the `pre` directive, the other
   * attributes follow in order as decoded attributes (directive-like or
   * not), nothing is reported, and the element is a v-pre boundary.
   */
  lemma VPreComesFirst(attrs: seq<Scanner.Attribute>, name: string, children: seq<AstNode>)
    requires VPreAt(attrs) < |attrs|
    ensures var i := VPreAt(attrs);
      var r := PropsOf(attrs, false);
      r.errors == [] && |r.value| == |attrs| &&
      r.value[0] == Dir(Directive("pre", None, [], TrimAttrValue(attrs[i].value))) &&
      (forall k :: 0 <= k < i ==> r.value[k + 1] == DecodedAttr(attrs[k])) &&
      (forall k :: i < k < |attrs| ==> r.value[k] == DecodedAttr(attrs[k])) &&
      IsVPreBoundary(Element(name, Plain, r.value, children))
  {
    var i := VPreAt(attrs);
    VPreValue(attrs);
    PreFirstLayout(attrs, i, TrimAttrValue(attrs[i].value), name, children);
  }

  lemma PreFirstLayout(attrs: seq<Scanner.Attribute>, i: nat, expr: Option<Scanner.AttributeValue>, name: string, children: seq<AstNode>)
    requires i < |attrs|
    ensures var r := [Dir(Directive("pre", None, [], expr))] + DecodedAttrs(attrs[..i] + attrs[i + 1..]);
      |r| == |attrs| &&
      (forall k :: 0 <= k < i ==> r[k + 1] == DecodedAttr(attrs[k])) &&
      (forall k :: i < k < |attrs| ==> r[k] == DecodedAttr(attrs[k])) &&
      IsVPreBoundary(Element(name, Plain, r, children))
  {
    DecodedAttrsWithout(attrs, i);
    var v := DecodedAttrs(attrs[..i] + attrs[i + 1..]);
    var r := [Dir(Directive("pre", None, [], expr))] + v;
    forall k | 0 <= k < i ensures r[k + 1] == DecodedAttr(attrs[k]) {
      assert r[k + 1] == v[k];
    }
    forall k | i < k < |attrs| ensures r[k] == DecodedAttr(attrs[k]) {
      assert r[k] == v[k - 1];
    }
    assert r[0].Dir? && IsPre(r[0].dir.name);
  }

  lemma VPreValue(attrs: seq<Scanner.Attribute>)
    requires VPreAt(attrs) < |attrs|
    ensures var i := VPreAt(attrs);
      PropsOf(attrs, false) ==
        Reported([Dir(Directive("pre", None, [], TrimAttrValue(attrs[i].value)))] + DecodedAttrs(attrs[..i] + attrs[i + 1..]), [])
  {
    var i := VPreAt(attrs);
    PropsOfVPreFound(attrs, i);
    VPreParsed(attrs[i]);
    VPreDirName();
  }

  lemma DecodedAttrsWithout(attrs: seq<Scanner.Attribute>, i: nat)
    requires i < |attrs|
    ensures var v := DecodedAttrs(attrs[..i] + attrs[i + 1..]);
      |v| == |attrs| - 1 &&
      (forall k :: 0 <= k < i ==> v[k] == DecodedAttr(attrs[k])) &&
      (forall k :: i < k < |attrs| ==> v[k - 1] == DecodedAttr(attrs[k]))
  {
    var rest := attrs[..i] + attrs[i + 1..];
    forall k | 0 <= k < i ensures rest[k] == attrs[k] { }
    forall k | i < k < |attrs| ensures rest[k - 1] == attrs[k] { }
  }

  /**
   * Without a `v-pre` attribute, each attribute becomes a directive exactly
   * when its name is detected as one, in place.
   */
  lemma {:induction false} PropsWithoutVPre(attrs: seq<Scanner.Attribute>)
    requires VPreAt(attrs) == |attrs|
    ensures var r := PropsOf(attrs, false);
      |r.value| == |attrs| &&
      (forall k :: 0 <= k < |attrs| ==>
        (r.value[k].Dir? <==> ParseDirName(attrs[k].name).value.Some?) &&
        (r.value[k].Dir? ==> r.value[k].dir == ParseDirective(attrs[k]).value) &&
        (r.value[k].Attr? ==> r.value[k] == DecodedAttr(attrs[k]))) &&
      r.errors == Concat(ErrorsOf(PropOf, attrs))
  {
    MapReportedPointwise(PropOf, attrs);
  }

  /** The lists of `ss` joined in order. */
  function Concat<T>(ss: seq<seq<T>>): (r: seq<T>)
  {
    if ss == [] then [] else Concat(ss[..|ss| - 1]) + ss[|ss| - 1]
  }

  /** The error lists `f` reports for each element of `xs`, in order. */
  function ErrorsOf<A, B>(f: A -> Reported<B>, xs: seq<A>): seq<seq<ErrorKind>>
  {
    seq(|xs|, k requires 0 <= k < |xs| => f(xs[k]).errors)
  }

  /**
   * Mapping keeps each element's own value in its place, and the reported
   * errors are those of every element in list order.
   */
  lemma {:induction false} MapReportedPointwise<A, B>(f: A -> Reported<B>, xs: seq<A>)
    ensures var r := MapReported(f, xs);
      (forall k :: 0 <= k < |xs| ==> r.value[k] == f(xs[k]).value) &&
      r.errors == Concat(ErrorsOf(f, xs))
    decreases |xs|
  {
    if xs != [] {
      var init := xs[..|xs| - 1];
      MapReportedPointwise(f, init);
      forall k | 0 <= k < |init| ensures init[k] == xs[k] { }
      assert ErrorsOf(f, xs)[..|init|] == ErrorsOf(f, init);
    }
  }

  /** An element reached through a v-pre attribute opens a v-pre region; in one, nothing does. */
  lemma VPreBoundaryFromAttrs(attrs: seq<Scanner.Attribute>, name: string, children: seq<AstNode>)
    ensures VPreAt(attrs) < |attrs| ==> IsVPreBoundary(Element(name, Plain, PropsOf(attrs, false).value, children))
    ensures !IsVPreBoundary(Element(name, Plain, PropsOf(attrs, true).value, children))
  {
    if VPreAt(attrs) < |attrs| { VPreComesFirst(attrs, name, children); }
    PropsInVPre(attrs, IsPre);
  }

  /** The first segment, which is what the repository reads when it treats a text node as a string. */
  function FirstSegment(t: TextNode): string
  {
    if |t.text| > 0 then t.text[0].raw else ""
  }

  /**
   * At the end of input, the innermost open element is a `<script>` whose
   * first child is text opening an HTML comment it never closes.
   */
  predicate ScriptCommentUnclosed(elems: seq<Element>)
  {
    |elems| > 0 &&
    var e := elems[|elems| - 1];
    EqIgnoreAsciiCase(e.tagName, "script") &&
    |e.children| > 0 && e.children[0].Text? &&
    Contains(FirstSegment(e.children[0].textNode), "<!--") &&
    !Contains(FirstSegment(e.children[0].textNode), "-->")
  }

  /** The `MissingEndTag` reports of `n` elements closed without their end tag. */
  function MissingEndTags(n: nat): (r: seq<ErrorKind>)
    ensures |r| == n && forall k :: 0 <= k < n ==> r[k] == MissingEndTag
  {
    seq(n, _ => MissingEndTag)
  }

  /** One more element closed without its end tag, in front of `k` others. */
  lemma MissingEndTagsCons(errs: seq<ErrorKind>, k: nat)
    ensures MissingEndTags(0) == []
    ensures (errs + [MissingEndTag]) + MissingEndTags(k) == errs + MissingEndTags(k + 1)
  {
    assert [MissingEndTag] + MissingEndTags(k) == MissingEndTags(k + 1);
  }

  /** Closing `a` elements and then `b` more reports what closing `a + b` at once does. */
  lemma MissingEndTagsAdd(a: nat, b: nat)
    ensures MissingEndTags(a) + MissingEndTags(b) == MissingEndTags(a + b)
  {
    assert forall k :: 0 <= k < a + b ==> (MissingEndTags(a) + MissingEndTags(b))[k] == MissingEndTag;
  }
}
