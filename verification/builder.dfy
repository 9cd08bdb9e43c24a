/**
 * `AstBuilder` (crates/compiler/src/parser.rs): turns a token stream into the
 * template AST with a stack of open elements, a count of open pre tags and
 * the stack index of the element that opened a v-pre region.
 */
module TreeBuilder {
  import opened Wrappers
  import opened TextUtil
  import opened Ast
  import opened Whitespace
  import opened ElementRules
  import Scanner

  /** The run of consecutive text tokens starting at `from`: where it ends. */
  function TextRunEnd(tokens: seq<Scanner.Token>, from: nat): (e: nat)
    requires from <= |tokens|
    ensures from <= e <= |tokens|
    ensures forall k :: from <= k < e ==> tokens[k].Text?
    ensures e == |tokens| || !tokens[e].Text?
    decreases |tokens| - from
  {
    if from == |tokens| || !tokens[from].Text? then from else TextRunEnd(tokens, from + 1)
  }

  /** The text of tokens `from` to `to`, all of which are text tokens. */
  function TextsOf(tokens: seq<Scanner.Token>, from: nat, to: nat): (r: seq<VStr>)
    requires from <= to <= |tokens|
    requires forall k :: from <= k < to ==> tokens[k].Text?
    ensures |r| == to - from && forall k :: 0 <= k < to - from ==> r[k] == tokens[from + k].text
  {
    seq(to - from, k requires 0 <= k < to - from => tokens[from + k].text)
  }

  /** Gathering a run in two pieces yields the text of gathering it at once. */
  lemma TextsOfConcat(tokens: seq<Scanner.Token>, a: nat, b: nat, c: nat)
    requires a <= b <= c <= |tokens|
    requires forall k :: a <= k < c ==> tokens[k].Text?
    ensures TextsOf(tokens, a, b) + TextsOf(tokens, b, c) == TextsOf(tokens, a, c)
  {
    var l, r := TextsOf(tokens, a, b), TextsOf(tokens, b, c);
    forall k | 0 <= k < c - a ensures (l + r)[k] == tokens[a + k].text {
      if k >= b - a { assert (l + r)[k] == r[k - (b - a)]; }
    }
  }

  /** The fields of an AstBuilder that parsing changes, as one value. */
  datatype Snapshot = Snapshot(pos: nat, openElems: seq<Element>, rootNodes: seq<AstNode>,
                               preCount: nat, vPreIndex: Option<nat>, errors: seq<ErrorKind>)

  lemma PrefixOfAppend<T>(a: seq<T>, b: seq<T>)
    ensures a <= a + b
  {
  }

  /** A v-pre boundary index kept only while it lies below `m`, the number of elements still open. */
  function BoundaryBelow(v: Option<nat>, m: nat): (r: Option<nat>)
    ensures r.Some? <==> v.Some? && v.value < m
    ensures r.Some? ==> r == v
  {
    if v.Some? && v.value < m then v else None
  }

  /** The state `insert_node` leaves: `node` inserted, nothing else changed. */
  function WithInserted(s: Snapshot, node: AstNode): Snapshot
  {
    var (elems, roots) := Inserted(s.openElems, s.rootNodes, node);
    s.(openElems := elems, rootNodes := roots)
  }

  /** The closure of `parse_attributes`: a directive when the name is one, a decoded attribute otherwise. */
  method ParseAttr(attr: Scanner.Attribute) returns (prop: ElemProp, errs: seq<ErrorKind>)
    ensures Directives.Reported(prop, errs) == PropOf(attr)
  {
    var detected := Directives.ParseDirName(attr.name);
    errs := detected.errors;
    if detected.value.Some? {
      var dir := Directives.ParseDirective(attr);
      errs := errs + dir.errors;
      prop := Dir(dir.value);
    } else {
      prop := DecodedAttr(attr);
    }
  }

  /** The `map` of `parse_attributes` outside v-pre: every attribute in order, errors in order. */
  method ParseAttrList(attrs: seq<Scanner.Attribute>) returns (props: seq<ElemProp>, errs: seq<ErrorKind>)
    ensures Directives.Reported(props, errs) == MapReported(PropOf, attrs)
  {
    props, errs := [], [];
    for j := 0 to |attrs|
      invariant Directives.Reported(props, errs) == MapReported(PropOf, attrs[..j])
    {
      var prop, e := ParseAttr(attrs[j]);
      MapReportedSnoc(PropOf, attrs, j);
      props, errs := props + [prop], errs + e;
    }
    assert attrs[..|attrs|] == attrs;
  }

  class AstBuilder {
    const option: ParseOption
    const isCoreComponent: string -> bool
    const tokens: seq<Scanner.Token>
    /** How many tokens have been taken from the stream. */
    var pos: nat
    var openElems: seq<Element>
    var rootNodes: seq<AstNode>
    /** How many `<pre>` are open. */
    var preCount: nat
    /** The index in `openElems` of the v-pre boundary; v-pre does not nest. */
    var vPreIndex: Option<nat>
    /** The errors reported so far, in order. */
    var errors: seq<ErrorKind>

    /**
     * `pre_count` counts the open pre tags, `v_pre_index` points at an open
     * element that carries `v-pre`, and open elements are plain until closed.
     */
    ghost predicate ValidState(s: Snapshot)
    {
      s.pos <= |tokens| &&
      s.preCount == CountPre(option, s.openElems) &&
      (s.vPreIndex.Some? ==> s.vPreIndex.value < |s.openElems| && IsVPreBoundary(s.openElems[s.vPreIndex.value])) &&
      forall k :: 0 <= k < |s.openElems| ==> s.openElems[k].tagType == Plain
    }

    ghost function State(): Snapshot
      reads this
    {
      Snapshot(pos, openElems, rootNodes, preCount, vPreIndex, errors)
    }

    ghost predicate Valid()
      reads this
    {
      pos <= |tokens| &&
      preCount == CountPre(option, openElems) &&
      (vPreIndex.Some? ==> vPreIndex.value < |openElems| && IsVPreBoundary(openElems[vPreIndex.value])) &&
      forall k :: 0 <= k < |openElems| ==> openElems[k].tagType == Plain
    }

    lemma {:induction false} ValidIsValidState()
      ensures Valid() <==> ValidState(State())
    {
    }

    /**
     * The state after `close_element`: the innermost element, its children
     * processed and its tag type set, is inserted into its parent; the pre
     * count and v-pre boundary follow; MissingEndTag unless it had its end tag.
     */
    ghost function CloseTop(s: Snapshot, hasMatchedEnd: bool): (r: Snapshot)
      requires |s.openElems| > 0
      ensures |r.openElems| == |s.openElems| - 1 && r.pos == s.pos
    {
      var n := |s.openElems|;
      var e := s.openElems[n - 1];
      var closed := Closed(option, isCoreComponent, e, s.preCount > 0, s.vPreIndex.Some?);
      var (elems, roots) := Inserted(s.openElems[..n - 1], s.rootNodes, ElementNode(closed));
      Snapshot(s.pos, elems, roots,
               if s.preCount > 0 && option.isPreTag(e.tagName) then s.preCount - 1 else s.preCount,
               if s.vPreIndex == Some(n - 1) then None else s.vPreIndex,
               s.errors + (if hasMatchedEnd then [] else [MissingEndTag]))
    }

    /**
     * `close_element` repeated until `depth` elements are left open, as
     * `parse_end_tag` and `build_ast` do; only the last one closed may have
     * its end tag.
     */
    ghost function CloseDownTo(s: Snapshot, depth: nat, matchLast: bool): (r: Snapshot)
      requires depth <= |s.openElems|
      ensures |r.openElems| == depth && r.pos == s.pos
      decreases |s.openElems|
    {
      if |s.openElems| == depth then s
      else CloseDownTo(CloseTop(s, |s.openElems| == depth + 1 && matchLast), depth, matchLast)
    }

    /** CloseTop, field by field. */
    lemma {:induction false} CloseTopFields(s: Snapshot, r: Snapshot, hasMatchedEnd: bool, processed: Element)
      requires |s.openElems| > 0
      requires var e := s.openElems[|s.openElems| - 1];
        processed == e.(children := ClosedChildren(option, e, s.preCount > 0))
      requires var n := |s.openElems|; var e := s.openElems[n - 1];
        var closed := processed.(tagType := TagTypeOf(option, isCoreComponent, processed, s.vPreIndex.Some?));
        r.pos == s.pos &&
        (r.openElems, r.rootNodes) == Inserted(s.openElems[..n - 1], s.rootNodes, ElementNode(closed)) &&
        r.errors == s.errors + (if hasMatchedEnd then [] else [MissingEndTag]) &&
        r.preCount == (if s.preCount > 0 && option.isPreTag(e.tagName) then s.preCount - 1 else s.preCount) &&
        r.vPreIndex == (if s.vPreIndex == Some(n - 1) then None else s.vPreIndex)
      ensures r == CloseTop(s, hasMatchedEnd)
    {
      var n := |s.openElems|;
      assert s.openElems == s.openElems[..n - 1] + [s.openElems[n - 1]];
    }

    /** What popping the innermost element leaves for `close_element` to finish. */
    lemma {:induction false} PoppedFacts(s: Snapshot)
      requires ValidState(s) && |s.openElems| > 0
      ensures var n := |s.openElems|; var e := s.openElems[n - 1]; var below := s.openElems[..n - 1];
        CountPre(option, below) == (if s.preCount > 0 && option.isPreTag(e.tagName) then s.preCount - 1 else s.preCount) &&
        e.tagType == Plain && (forall k :: 0 <= k < |below| ==> below[k].tagType == Plain) &&
        (s.vPreIndex.Some? ==>
          s.vPreIndex.value <= |below| &&
          (s.vPreIndex.value < |below| ==> IsVPreBoundary(below[s.vPreIndex.value])) &&
          (s.vPreIndex.value == |below| ==> IsVPreBoundary(e)))
    {
      var n := |s.openElems|;
      assert s.openElems == s.openElems[..n - 1] + [s.openElems[n - 1]];
    }

    /** Closing the innermost element keeps the builder valid. */
    lemma {:induction false} CloseTopValid(s: Snapshot, hasMatchedEnd: bool)
      requires ValidState(s) && |s.openElems| > 0
      ensures ValidState(CloseTop(s, hasMatchedEnd))
    {
      var n := |s.openElems|;
      var r := CloseTop(s, hasMatchedEnd);
      CountPreOfSameShape(option, r.openElems, s.openElems[..n - 1]);
      assert s.openElems[..n - 1] == s.openElems[..n][..n - 1];
    }

    /**
     * Closing down to `depth`: the element at `depth`, closed, becomes the
     * last child of the element below it, or the last root node; one
     * MissingEndTag for each element closed, but the last when it has its
     * end tag; a v-pre boundary survives only below `depth`.
     */
    lemma {:induction false} CloseDownToFacts(s: Snapshot, depth: nat, matchLast: bool) returns (closed: Element)
      requires ValidState(s) && depth < |s.openElems|
      ensures var r := CloseDownTo(s, depth, matchLast); var n := |s.openElems| - depth;
        ValidState(r) &&
        closed.tagName == s.openElems[depth].tagName && closed.properties == s.openElems[depth].properties &&
        (r.openElems, r.rootNodes) == Inserted(s.openElems[..depth], s.rootNodes, ElementNode(closed)) &&
        r.errors == s.errors + MissingEndTags(if matchLast then n - 1 else n) &&
        r.vPreIndex == BoundaryBelow(s.vPreIndex, depth)
    {
      CloseDownToValid(s, depth, matchLast);
      CloseDownToReports(s, depth, matchLast);
      closed := CloseDownToShape(s, depth, matchLast);
    }

    lemma {:induction false} CloseDownToValid(s: Snapshot, depth: nat, matchLast: bool)
      requires ValidState(s) && depth <= |s.openElems|
      ensures ValidState(CloseDownTo(s, depth, matchLast))
      decreases |s.openElems|
    {
      if |s.openElems| > depth {
        var hasMatchedEnd := |s.openElems| == depth + 1 && matchLast;
        var t := CloseTop(s, hasMatchedEnd);
        CloseTopValid(s, hasMatchedEnd);
        CloseDownToValid(t, depth, matchLast);
        CloseDownToStep(s, t, depth, matchLast, hasMatchedEnd);
      }
    }

    /** What one `close_element` does to the elements below the closed one, the errors and the boundary. */
    lemma {:induction false} CloseTopStep(s: Snapshot, hasMatchedEnd: bool)
      requires |s.openElems| > 0
      ensures var t := CloseTop(s, hasMatchedEnd); var n := |s.openElems|;
        SameShape(t.openElems, s.openElems[..n - 1]) &&
        (n > 1 ==> t.openElems[..n - 2] == s.openElems[..n - 2] && t.rootNodes == s.rootNodes) &&
        t.errors == s.errors + (if hasMatchedEnd then [] else [MissingEndTag]) &&
        t.vPreIndex == (if s.vPreIndex == Some(n - 1) then None else s.vPreIndex)
    {
      var n := |s.openElems|;
      if n > 1 {
        assert s.openElems[..n - 1][..n - 2] == s.openElems[..n - 2];
      }
    }

    lemma {:induction false} CloseDownToShape(s: Snapshot, depth: nat, matchLast: bool) returns (closed: Element)
      requires depth < |s.openElems|
      ensures var r := CloseDownTo(s, depth, matchLast);
        closed.tagName == s.openElems[depth].tagName && closed.properties == s.openElems[depth].properties &&
        (r.openElems, r.rootNodes) == Inserted(s.openElems[..depth], s.rootNodes, ElementNode(closed))
      decreases |s.openElems|
    {
      if |s.openElems| == depth + 1 {
        closed := CloseOneShape(s, depth, matchLast);
      } else {
        var inner := CloseDownToShape(CloseTop(s, false), depth, matchLast);
        closed := CloseMoreShape(s, depth, matchLast, inner);
      }
    }

    lemma {:induction false} CloseOneShape(s: Snapshot, depth: nat, matchLast: bool) returns (closed: Element)
      requires |s.openElems| == depth + 1
      ensures var r := CloseDownTo(s, depth, matchLast);
        closed.tagName == s.openElems[depth].tagName && closed.properties == s.openElems[depth].properties &&
        (r.openElems, r.rootNodes) == Inserted(s.openElems[..depth], s.rootNodes, ElementNode(closed))
    {
      CloseDownToStep(s, CloseTop(s, matchLast), depth, matchLast, matchLast);
      closed := Closed(option, isCoreComponent, s.openElems[depth], s.preCount > 0, s.vPreIndex.Some?);
    }

    lemma {:induction false} CloseMoreShape(s: Snapshot, depth: nat, matchLast: bool, inner: Element) returns (closed: Element)
      requires depth + 1 < |s.openElems|
      requires var t := CloseTop(s, false); var r := CloseDownTo(t, depth, matchLast);
        inner.tagName == t.openElems[depth].tagName && inner.properties == t.openElems[depth].properties &&
        (r.openElems, r.rootNodes) == Inserted(t.openElems[..depth], t.rootNodes, ElementNode(inner))
      ensures var r := CloseDownTo(s, depth, matchLast);
        closed.tagName == s.openElems[depth].tagName && closed.properties == s.openElems[depth].properties &&
        (r.openElems, r.rootNodes) == Inserted(s.openElems[..depth], s.rootNodes, ElementNode(closed))
    {
      CloseDownToStep(s, CloseTop(s, false), depth, matchLast, false);
      CloseTopKeepsBelow(s, depth);
      closed := inner;
    }

    /** One step of a closing loop: `after` is `before` with its innermost element closed. */
    lemma {:induction false} CloseDownToStep(before: Snapshot, after: Snapshot, depth: nat, matchLast: bool, hasMatchedEnd: bool)
      requires depth < |before.openElems| && hasMatchedEnd == (|before.openElems| == depth + 1 && matchLast)
      requires after == CloseTop(before, hasMatchedEnd)
      ensures CloseDownTo(before, depth, matchLast) == CloseDownTo(after, depth, matchLast)
    {
    }

    /** What closing the innermost element without its end tag reports, and what becomes of the v-pre boundary. */
    lemma {:induction false} CloseTopReports(s: Snapshot)
      requires |s.openElems| > 0
      ensures var t := CloseTop(s, false);
        t.errors == s.errors + [MissingEndTag] &&
        t.vPreIndex == (if s.vPreIndex == Some(|s.openElems| - 1) then None else s.vPreIndex)
    {
    }

    /** Closing the innermost element leaves the elements further down, and the roots, as they were. */
    lemma {:induction false} CloseTopKeepsBelow(s: Snapshot, m: nat)
      requires m < |s.openElems| - 1
      ensures var t := CloseTop(s, false);
        t.openElems[..m] == s.openElems[..m] && t.rootNodes == s.rootNodes &&
        t.openElems[m].tagName == s.openElems[m].tagName && t.openElems[m].properties == s.openElems[m].properties
    {
      CloseTopStep(s, false);
      var t := CloseTop(s, false);
      var n := |s.openElems|;
      assert t.openElems[..m] == t.openElems[..n - 2][..m];
    }

    lemma {:induction false} CloseDownToReports(s: Snapshot, depth: nat, matchLast: bool)
      requires depth < |s.openElems|
      requires s.vPreIndex.Some? ==> s.vPreIndex.value < |s.openElems|
      ensures var n := |s.openElems| - depth;
        CloseDownTo(s, depth, matchLast).errors == s.errors + MissingEndTags(if matchLast then n - 1 else n)
      ensures CloseDownTo(s, depth, matchLast).vPreIndex == BoundaryBelow(s.vPreIndex, depth)
      decreases |s.openElems|
    {
      if |s.openElems| == depth + 1 {
        CloseOneReports(s, depth, matchLast);
      } else {
        CloseTopReports(s);
        CloseDownToReports(CloseTop(s, false), depth, matchLast);
        CloseMoreReports(s, depth, matchLast);
        CloseMoreBoundary(s, depth, matchLast);
      }
    }

    lemma {:induction false} CloseOneReports(s: Snapshot, depth: nat, matchLast: bool)
      requires |s.openElems| == depth + 1
      requires s.vPreIndex.Some? ==> s.vPreIndex.value < |s.openElems|
      ensures var n := |s.openElems| - depth;
        CloseDownTo(s, depth, matchLast).errors == s.errors + MissingEndTags(if matchLast then n - 1 else n)
      ensures CloseDownTo(s, depth, matchLast).vPreIndex == BoundaryBelow(s.vPreIndex, depth)
    {
      CloseDownToStep(s, CloseTop(s, matchLast), depth, matchLast, matchLast);
      MissingEndTagsCons(s.errors, 0);
      var n := |s.openElems| - depth;
      assert (if matchLast then n - 1 else n) == (if matchLast then 0 else 1);
    }

    lemma {:induction false} CloseMoreReports(s: Snapshot, depth: nat, matchLast: bool)
      requires depth + 1 < |s.openElems|
      requires var t := CloseTop(s, false); var k := |t.openElems| - depth;
        CloseDownTo(t, depth, matchLast).errors == t.errors + MissingEndTags(if matchLast then k - 1 else k)
      ensures var n := |s.openElems| - depth;
        CloseDownTo(s, depth, matchLast).errors == s.errors + MissingEndTags(if matchLast then n - 1 else n)
    {
      CloseDownToStep(s, CloseTop(s, false), depth, matchLast, false);
      CloseTopReports(s);
      var k := |CloseTop(s, false).openElems| - depth;
      MissingEndTagsCons(s.errors, if matchLast then k - 1 else k);
    }

    lemma {:induction false} CloseMoreBoundary(s: Snapshot, depth: nat, matchLast: bool)
      requires depth + 1 < |s.openElems|
      requires var t := CloseTop(s, false);
        CloseDownTo(t, depth, matchLast).vPreIndex == BoundaryBelow(t.vPreIndex, depth)
      ensures CloseDownTo(s, depth, matchLast).vPreIndex == BoundaryBelow(s.vPreIndex, depth)
    {
      CloseDownToStep(s, CloseTop(s, false), depth, matchLast, false);
      CloseTopReports(s);
    }

    /** The state after `parse_open_tag`. */
    ghost function OpenedState(s: Snapshot, tag: Scanner.Tag): Snapshot
    {
      var inVPre := s.vPreIndex.Some?;
      var props := PropsOf(tag.attributes, inVPre);
      var elem := Element(tag.name, Plain, props.value, []);
      var reported := s.(errors := s.errors + props.errors);
      if tag.selfClosing || option.isVoidTag(tag.name) then
        WithInserted(reported, ElementNode(elem.(tagType := TagTypeOf(option, isCoreComponent, elem, inVPre))))
      else
        reported.(openElems := s.openElems + [elem],
                  preCount := s.preCount + (if option.isPreTag(tag.name) then 1 else 0),
                  vPreIndex := if IsVPreBoundary(elem) then Some(|s.openElems|) else s.vPreIndex)
    }

    /** The state after `parse_end_tag`: InvalidEndTag alone, or every element from the match up closed. */
    ghost function EndTagState(s: Snapshot, tag: string): Snapshot
    {
      match FindOpenElement(s.openElems, tag)
      case None => s.(errors := s.errors + [InvalidEndTag])
      case Some(i) => CloseDownTo(s, i, true)
    }

    /** The state after `parse_token` handles a token other than text. */
    ghost function NonTextState(s: Snapshot, token: Scanner.Token): (r: Snapshot)
      requires !token.Text?
      ensures r.pos == s.pos
    {
      match token
      case StartTag(tag) => OpenedState(s, tag)
      case EndTag(name) => EndTagState(s, name)
      case Comment(c) => if option.preserveComment then WithInserted(s, Comment(c)) else s
      case Interpolation(src) => WithInserted(s, Interpolation(src))
    }

    /** The state `parse_text` leaves before it parses the token that ends the run of text tokens. */
    ghost function Gathered(s: Snapshot, text: VStr): (r: Snapshot)
      requires s.pos <= |tokens|
      ensures var e := TextRunEnd(tokens, s.pos);
        r.pos == (if e < |tokens| then e + 1 else e) && r.errors == s.errors
    {
      var e := TextRunEnd(tokens, s.pos);
      WithInserted(s.(pos := if e < |tokens| then e + 1 else e), Text(TextNode([text] + TextsOf(tokens, s.pos, e))))
    }

    /**
     * The state after `parse_text`: the text tokens that follow are taken
     * from the stream and joined into one text node with the first, and the
     * token that ends their run is taken and parsed next.
     */
    ghost function TextState(s: Snapshot, text: VStr): (r: Snapshot)
      requires s.pos <= |tokens|
      ensures s.pos <= r.pos <= |tokens|
      decreases 1
    {
      var e := TextRunEnd(tokens, s.pos);
      if e < |tokens| then AfterToken(Gathered(s, text), tokens[e]) else Gathered(s, text)
    }

    /** The state after `parse_token`. */
    ghost function AfterToken(s: Snapshot, token: Scanner.Token): (r: Snapshot)
      requires s.pos <= |tokens|
      ensures s.pos <= r.pos <= |tokens| && (!token.Text? ==> r.pos == s.pos)
      decreases if token.Text? then 2 else 0
    {
      if token.Text? then TextState(s, token.text) else NonTextState(s, token)
    }

    /** The token loop of `build_ast`: each token left in the stream taken and parsed in turn. */
    ghost function Run(s: Snapshot): (r: Snapshot)
      requires s.pos <= |tokens|
      ensures r.pos == |tokens|
      decreases |tokens| - s.pos, 1
    {
      if s.pos == |tokens| then s else RunOn(s)
    }

    /** The token loop from a state with a token left: that token taken and parsed, then the rest. */
    ghost function RunOn(s: Snapshot): (r: Snapshot)
      requires s.pos < |tokens|
      ensures r.pos == |tokens|
      decreases |tokens| - s.pos, 0
    {
      Run(AfterToken(s.(pos := s.pos + 1), tokens[s.pos]))
    }

    lemma {:induction false} RunStep(s: Snapshot)
      requires s.pos < |tokens|
      ensures Run(s) == Run(AfterToken(s.(pos := s.pos + 1), tokens[s.pos]))
    {
      assert Run(s) == RunOn(s);
    }

    /** Opening a tag only ever appends to the reported errors. */
    lemma {:induction false} OpenedKeepsErrors(s: Snapshot, tag: Scanner.Tag)
      ensures s.errors <= OpenedState(s, tag).errors
    {
      var reported := PropsOf(tag.attributes, s.vPreIndex.Some?).errors;
      assert OpenedState(s, tag).errors == s.errors + reported;
      PrefixOfAppend(s.errors, reported);
    }

    /** An end tag only ever appends to the reported errors. */
    lemma {:induction false} EndTagKeepsErrors(s: Snapshot, name: string)
      ensures s.errors <= EndTagState(s, name).errors
    {
      var index := FindOpenElement(s.openElems, name);
      if index.Some? {
        CloseDownToKeepsErrors(s, index.value, true);
      } else {
        PrefixOfAppend(s.errors, [InvalidEndTag]);
      }
    }

    lemma {:induction false} NonTextKeepsErrors(s: Snapshot, token: Scanner.Token)
      requires !token.Text?
      ensures s.errors <= NonTextState(s, token).errors
    {
      match token
      case StartTag(tag) => OpenedKeepsErrors(s, tag);
      case EndTag(name) => EndTagKeepsErrors(s, name);
      case Comment(_) =>
      case Interpolation(_) =>
    }

    /** Parsing a token only ever appends to the reported errors. */
    lemma {:induction false} AfterTokenKeepsErrors(s: Snapshot, token: Scanner.Token)
      requires s.pos <= |tokens|
      ensures s.errors <= AfterToken(s, token).errors
      decreases if token.Text? then 2 else 0
    {
      if token.Text? {
        var e := TextRunEnd(tokens, s.pos);
        if e < |tokens| {
          AfterTokenKeepsErrors(Gathered(s, token.text), tokens[e]);
        }
      } else {
        NonTextKeepsErrors(s, token);
      }
    }

    lemma {:induction false} CloseDownToKeepsErrors(s: Snapshot, depth: nat, matchLast: bool)
      requires depth <= |s.openElems|
      ensures s.errors <= CloseDownTo(s, depth, matchLast).errors
      decreases |s.openElems|
    {
      if |s.openElems| > depth {
        var hasMatchedEnd := |s.openElems| == depth + 1 && matchLast;
        var t := CloseTop(s, hasMatchedEnd);
        CloseDownToKeepsErrors(t, depth, matchLast);
        CloseDownToStep(s, t, depth, matchLast, hasMatchedEnd);
        PrefixOfAppend(s.errors, if hasMatchedEnd then [] else [MissingEndTag]);
      }
    }

    /** The token loop only ever appends to the reported errors. */
    lemma {:induction false} RunKeepsErrors(s: Snapshot)
      requires s.pos <= |tokens|
      ensures s.errors <= Run(s).errors
      decreases |tokens| - s.pos
    {
      if s.pos < |tokens| {
        var t := s.(pos := s.pos + 1);
        AfterTokenKeepsErrors(t, tokens[s.pos]);
        RunKeepsErrors(AfterToken(t, tokens[s.pos]));
        RunStep(s);
      }
    }

    /** `Parser::parse`: a builder over the token stream, with nothing open or built yet. */
    constructor(option: ParseOption, isCoreComponent: string -> bool, tokens: seq<Scanner.Token>)
      ensures this.option == option && this.isCoreComponent == isCoreComponent && this.tokens == tokens
      ensures pos == 0 && openElems == [] && rootNodes == [] && preCount == 0 && vPreIndex == None && errors == []
      ensures Valid()
    {
      this.option := option;
      this.isCoreComponent := isCoreComponent;
      this.tokens := tokens;
      pos := 0;
      openElems := [];
      rootNodes := [];
      preCount := 0;
      vPreIndex := None;
      errors := [];
    }

    /** Keeping the shape of the open elements keeps the builder valid. */
    lemma {:induction false} ShapeKeepsValid(before: seq<Element>)
      requires SameShape(openElems, before)
      requires pos <= |tokens| && preCount == CountPre(option, before)
      requires vPreIndex.Some? ==> vPreIndex.value < |before| && IsVPreBoundary(before[vPreIndex.value])
      requires forall k :: 0 <= k < |before| ==> before[k].tagType == Plain
      ensures Valid()
    {
      CountPreOfSameShape(option, openElems, before);
    }

    /** `insert_node`. */
    method InsertNode(node: AstNode)
      modifies this`openElems, this`rootNodes
      ensures (openElems, rootNodes) == Inserted(old(openElems), old(rootNodes), node)
    {
      if |openElems| > 0 {
        var elem := openElems[|openElems| - 1];
        openElems := openElems[..|openElems| - 1] + [elem.(children := elem.children + [node])];
      } else {
        rootNodes := rootNodes + [node];
      }
    }

    /**
     * What `build_ast` does once the stream is exhausted: an unclosed comment
     * in a trailing script is reported, then every element left open is
     * closed with a MissingEndTag.
     */
    ghost function Finished(ran: Snapshot): (r: Snapshot)
    {
      var unclosed := if ScriptCommentUnclosed(ran.openElems) then [EofInScriptHtmlCommentLikeText] else [];
      CloseDownTo(ran.(errors := ran.errors + unclosed), 0, false)
    }

    /**
     * Once finished, nothing is left open: the unclosed-comment error, then
     * one MissingEndTag per element left open, is reported, and the
     * outermost of those elements, closed, is the one root node added.
     */
    lemma {:induction false} FinishedFacts(ran: Snapshot) returns (closed: Element)
      requires ValidState(ran)
      ensures var done := Finished(ran);
        var unclosed := if ScriptCommentUnclosed(ran.openElems) then [EofInScriptHtmlCommentLikeText] else [];
        done.pos == ran.pos && done.openElems == [] && done.preCount == 0 && done.vPreIndex == None &&
        done.errors == ran.errors + unclosed + MissingEndTags(|ran.openElems|) &&
        (|ran.openElems| == 0 ==> done.rootNodes == ran.rootNodes) &&
        (|ran.openElems| > 0 ==>
          closed.tagName == ran.openElems[0].tagName && closed.properties == ran.openElems[0].properties &&
          done.rootNodes == ran.rootNodes + [ElementNode(closed)])
    {
      var unclosed := if ScriptCommentUnclosed(ran.openElems) then [EofInScriptHtmlCommentLikeText] else [];
      var s := ran.(errors := ran.errors + unclosed);
      if |ran.openElems| > 0 {
        closed := CloseDownToFacts(s, 0, false);
      } else {
        closed := Element("", Plain, [], []);
      }
    }

    /**
     * `build_ast`: every token is parsed in turn (Run), the stream is
     * finished (Finished), and the root list is compressed.
     */
    method BuildAst() returns (root: seq<AstNode>)
      requires Valid()
      modifies this
      ensures Valid() && pos == |tokens| && openElems == [] && preCount == 0 && vPreIndex == None
      ensures var done := Finished(Run(old(State())));
        root == Compress(done.rootNodes, NeedCondense(option)) && State() == done.(rootNodes := root)
      ensures var ran := Run(old(State()));
        errors == ran.errors + (if ScriptCommentUnclosed(ran.openElems) then [EofInScriptHtmlCommentLikeText] else []) +
                  MissingEndTags(|ran.openElems|)
    {
      ParseTokens();
      ghost var ran := State();
      ValidIsValidState();
      ghost var closed := FinishedFacts(ran);
      ReportUnclosedScriptComment();
      CloseRemaining();
      root := CompressWhitespaces(rootNodes, NeedCondense(option));
      rootNodes := root;
    }

    /** The token loop of `build_ast`. */
    method ParseTokens()
      requires Valid()
      modifies this
      ensures Valid() && State() == Run(old(State()))
    {
      ghost var s0 := State();
      while pos < |tokens|
        invariant Valid() && Run(State()) == Run(s0)
        decreases |tokens| - pos
      {
        ghost var before := State();
        var token := tokens[pos];
        pos := pos + 1;
        ParseToken(token);
        RunStep(before);
      }
    }

    /**
     * The closing loop of `build_ast`: each element left open is closed and
     * reported, innermost first; the outermost, closed, becomes the last root.
     */
    method CloseRemaining()
      requires Valid()
      modifies this
      ensures Valid() && State() == CloseDownTo(old(State()), 0, false)
      ensures openElems == [] && preCount == 0 && vPreIndex == None && pos == old(pos)
      ensures errors == old(errors) + MissingEndTags(|old(openElems)|)
      ensures |old(openElems)| == 0 ==> rootNodes == old(rootNodes)
      ensures |old(openElems)| > 0 ==>
        exists closed: Element ::
          closed.tagName == old(openElems)[0].tagName && closed.properties == old(openElems)[0].properties &&
          rootNodes == old(rootNodes) + [ElementNode(closed)]
    {
      var n := |openElems|;
      ghost var target := CloseDownTo(State(), 0, false);
      for k := 0 to n
        invariant Valid() && |openElems| == n - k
        invariant CloseDownTo(State(), 0, false) == target
      {
        ghost var before := State();
        CloseElement(false);
        CloseDownToStep(before, State(), 0, false, false);
      }
      ValidIsValidState();
      if n > 0 {
        var closed := CloseDownToFacts(old(State()), 0, false);
      }
    }

    /** `parse_token`. */
    method ParseToken(token: Scanner.Token)
      requires Valid()
      modifies this
      ensures Valid() && State() == AfterToken(old(State()), token)
      decreases if token.Text? then 2 else 0
    {
      match token
      case EndTag(s) => ParseEndTag(s);
      case Text(text) => ParseText(text);
      case StartTag(tag) => ParseOpenTag(tag);
      case Comment(c) => ParseComment(c);
      case Interpolation(i) => ParseInterpolation(i);
    }

    /**
     * `parse_open_tag`: a self-closing or void element is finished and
     * inserted at once; any other is pushed, after counting a pre tag and
     * marking a v-pre boundary.
     */
    method ParseOpenTag(tag: Scanner.Tag)
      requires Valid()
      modifies this
      ensures Valid() && State() == OpenedState(old(State()), tag)
    {
      var props := ParseAttributes(tag.attributes);
      var elem := Element(tag.name, Plain, props, []);
      if tag.selfClosing || option.isVoidTag(tag.name) {
        FinishElement(elem);
      } else {
        VPreBoundaryFromAttrs(tag.attributes, tag.name, []);
        PushElement(elem);
      }
    }

    /** The open branch of `parse_open_tag`: `handle_pre_like`, then the element goes on the stack. */
    method PushElement(elem: Element)
      requires Valid() && elem.tagType == Plain && (IsVPreBoundary(elem) ==> vPreIndex.None?)
      modifies this`openElems, this`preCount, this`vPreIndex
      ensures Valid()
      ensures openElems == old(openElems) + [elem]
      ensures preCount == old(preCount) + (if option.isPreTag(elem.tagName) then 1 else 0)
      ensures vPreIndex == if IsVPreBoundary(elem) then Some(|old(openElems)|) else old(vPreIndex)
    {
      var pushed := openElems + [elem];
      assert pushed[..|pushed| - 1] == openElems;
      assert CountPre(option, pushed) == preCount + (if option.isPreTag(elem.tagName) then 1 else 0);
      HandlePreLike(elem);
      openElems := pushed;
    }

    /** `parse_attributes`: the properties of a start tag, with the errors their names report. */
    method ParseAttributes(attrs: seq<Scanner.Attribute>) returns (props: seq<ElemProp>)
      modifies this`errors
      ensures var r := PropsOf(attrs, vPreIndex.Some?);
        props == r.value && errors == old(errors) + r.errors
    {
      if vPreIndex.Some? {
        props := AsAttrs(attrs);
        PropsOfInVPre(attrs);
        return;
      }
      for i := 0 to |attrs|
        invariant forall k :: 0 <= k < i ==> attrs[k].name != "v-pre"
      {
        if attrs[i].name == "v-pre" {
          props := VPreFirst(attrs, i);
          return;
        }
      }
      var errs;
      props, errs := ParseAttrList(attrs);
      errors := errors + errs;
      PropsOfNoVPre(attrs);
    }

    /** The v-pre branch of `parse_attributes`: `v-pre`, at `i`, is taken out and parsed, and leads the others. */
    method VPreFirst(attrs: seq<Scanner.Attribute>, i: nat) returns (props: seq<ElemProp>)
      requires i < |attrs| && attrs[i].name == "v-pre"
      requires forall k :: 0 <= k < i ==> attrs[k].name != "v-pre"
      modifies this`errors
      ensures var r := PropsOf(attrs, false);
        props == r.value && errors == old(errors) + r.errors
    {
      PropsOfVPreFound(attrs, i);
      var detected := Directives.ParseDirName(attrs[i].name);
      var dir := Directives.ParseDirective(attrs[i]);
      errors := errors + detected.errors + dir.errors;
      props := [Dir(dir.value)] + DecodedAttrs(attrs[..i] + attrs[i + 1..]);
    }

    /** `handle_pre_like`: count an opened pre tag, and mark an opened v-pre boundary. */
    method HandlePreLike(elem: Element)
      requires IsVPreBoundary(elem) ==> vPreIndex.None?
      modifies this`preCount, this`vPreIndex
      ensures preCount == old(preCount) + (if option.isPreTag(elem.tagName) then 1 else 0)
      ensures vPreIndex == if IsVPreBoundary(elem) then Some(|openElems|) else old(vPreIndex)
    {
      if option.isPreTag(elem.tagName) {
        preCount := preCount + 1;
      }
      if IsVPreBoundary(elem) {
        vPreIndex := Some(|openElems|);
      }
    }

    /**
     * `parse_end_tag`: the innermost open element the end tag matches is
     * closed, and every element opened after it first, each of those with a
     * MissingEndTag; with no match InvalidEndTag is reported and nothing else
     * changes. What that amounts to is CloseDownToFacts.
     */
    method ParseEndTag(tag: string)
      requires Valid()
      modifies this
      ensures Valid() && State() == EndTagState(old(State()), tag)
    {
      var index := FindOpenElement(openElems, tag);
      if index.None? {
        errors := errors + [InvalidEndTag];
        return;
      }
      CloseFrom(index.value);
    }

    /** The loop of `parse_end_tag`: the elements from index `i` up are closed, only the one at `i` with its end tag. */
    method CloseFrom(i: nat)
      requires Valid() && i < |openElems|
      modifies this
      ensures Valid() && State() == CloseDownTo(old(State()), i, true)
    {
      var toClose: nat := |openElems| - i;
      ghost var target := CloseDownTo(State(), i, true);
      while toClose > 0
        invariant Valid() && |openElems| == i + toClose
        invariant CloseDownTo(State(), i, true) == target
      {
        ghost var before := State();
        toClose := toClose - 1;
        CloseElement(toClose == 0);
        CloseDownToStep(before, State(), i, true, toClose == 0);
      }
    }

    /**
     * `close_element`: the innermost element is popped, its children are
     * processed as `Closed` says, its tag type is set, and the node is
     * inserted into its parent; without its end tag a MissingEndTag is
     * reported.
     */
    method CloseElement(hasMatchedEnd: bool)
      requires Valid() && |openElems| > 0
      modifies this
      ensures Valid() && State() == CloseTop(old(State()), hasMatchedEnd)
    {
      ghost var s0 := State();
      ValidIsValidState();
      PoppedFacts(s0);
      var elem := openElems[|openElems| - 1];
      var missing := if hasMatchedEnd then [] else [MissingEndTag];
      openElems, errors := openElems[..|openElems| - 1], errors + missing;
      elem := CloseChildren(elem);
      FinishElement(elem);
      CloseTopFields(s0, State(), hasMatchedEnd, elem);
    }

    /** `parse_element` then `insert_node`, as both `parse_open_tag` and `close_element` end. */
    method FinishElement(elem: Element)
      requires pos <= |tokens| && preCount == CountPre(option, openElems) && elem.tagType == Plain
      requires forall k :: 0 <= k < |openElems| ==> openElems[k].tagType == Plain
      requires vPreIndex.Some? ==>
        vPreIndex.value <= |openElems| &&
        (vPreIndex.value < |openElems| ==> IsVPreBoundary(openElems[vPreIndex.value])) &&
        (vPreIndex.value == |openElems| ==> IsVPreBoundary(elem))
      modifies this`openElems, this`rootNodes, this`vPreIndex
      ensures Valid()
      ensures (openElems, rootNodes) ==
        Inserted(old(openElems), old(rootNodes), ElementNode(elem.(tagType := TagTypeOf(option, isCoreComponent, elem, old(vPreIndex).Some?))))
      ensures vPreIndex == if old(vPreIndex) == Some(|old(openElems)|) then None else old(vPreIndex)
    {
      var node := ParseElement(elem);
      ghost var before := openElems;
      InsertNode(node);
      ShapeKeepsValid(before);
    }

    /** The middle of `close_element`: trim inside pre, compress in data mode. */
    method CloseChildren(elem: Element) returns (out: Element)
      modifies this`preCount
      ensures out == elem.(children := ClosedChildren(option, elem, old(preCount) > 0))
      ensures preCount == old(preCount) - (if old(preCount) > 0 && option.isPreTag(elem.tagName) then 1 else 0)
    {
      out := elem;
      if preCount > 0 {
        out := DecrementPre(elem);
      } else if option.getTextMode(elem.tagName) == Scanner.Data {
        var children := CompressWhitespaces(elem.children, NeedCondense(option));
        out := elem.(children := children);
      }
    }

    /** `decrement_pre`: closing a pre tag trims its last child and uncounts it. */
    method DecrementPre(elem: Element) returns (out: Element)
      requires preCount > 0
      modifies this`preCount
      ensures preCount == old(preCount) - (if option.isPreTag(elem.tagName) then 1 else 0)
      ensures out == if option.isPreTag(elem.tagName) then elem.(children := TrimLastTextChild(elem.children)) else elem
    {
      out := elem;
      if !option.isPreTag(elem.tagName) {
        return;
      }
      if |out.children| > 0 && out.children[|out.children| - 1].Text? {
        var last := out.children[|out.children| - 1];
        out := out.(children := out.children[..|out.children| - 1] + [Text(TrimLeadingNewline(last.textNode))]);
      }
      preCount := preCount - 1;
    }

    /** `close_v_pre`: leaving the boundary element ends the v-pre region. */
    method CloseVPre()
      requires vPreIndex.Some? && vPreIndex.value <= |openElems|
      modifies this`vPreIndex
      ensures vPreIndex == if old(vPreIndex).value == |openElems| then None else old(vPreIndex)
    {
      if vPreIndex.value == |openElems| {
        vPreIndex := None;
      }
    }

    /** `parse_element`: the finished element gets its tag type; leaving a v-pre boundary closes the region. */
    method ParseElement(elem: Element) returns (node: AstNode)
      requires elem.tagType == Plain
      requires vPreIndex.Some? ==> vPreIndex.value <= |openElems| && (vPreIndex.value != |openElems| || IsVPreBoundary(elem))
      modifies this`vPreIndex
      ensures node == ElementNode(elem.(tagType := TagTypeOf(option, isCoreComponent, elem, old(vPreIndex).Some?)))
      ensures vPreIndex == if old(vPreIndex) == Some(|openElems|) then None else old(vPreIndex)
    {
      var tagType := Plain;
      if vPreIndex.Some? {
        CloseVPre();
        tagType := Plain;
      } else if elem.tagName == "slot" {
        tagType := SlotOutlet;
      } else if IsTemplateElement(elem) {
        tagType := Template;
      } else if IsComponent(option, isCoreComponent, elem) {
        tagType := Component;
      }
      node := ElementNode(elem.(tagType := tagType));
    }

    /**
     * `parse_text`: the text token and every text token right after it make
     * one text node; the token that ends the run is parsed next.
     */
    method ParseText(text: VStr)
      requires Valid()
      modifies this
      ensures Valid() && State() == TextState(old(State()), text)
      decreases 1
    {
      var next := InsertText(text);
      if next.Some? {
        ParseToken(next.value);
      }
    }

    /** The first half of `parse_text`: the run of text tokens gathered and inserted as one node. */
    method InsertText(text: VStr) returns (next: Option<Scanner.Token>)
      requires Valid()
      modifies this
      ensures Valid() && State() == Gathered(old(State()), text)
      ensures var e := TextRunEnd(tokens, old(pos)); next == if e < |tokens| then Some(tokens[e]) else None
    {
      var node;
      node, next := GatherText(text);
      ghost var before := openElems;
      InsertNode(Text(node));
      ShapeKeepsValid(before);
    }

    /** The loop of `parse_text` over the token stream. */
    method GatherText(first: VStr) returns (node: TextNode, next: Option<Scanner.Token>)
      requires pos <= |tokens|
      modifies this`pos
      ensures var e := TextRunEnd(tokens, old(pos));
        node == TextNode([first] + TextsOf(tokens, old(pos), e)) &&
        if e < |tokens| then next == Some(tokens[e]) && pos == e + 1 else next == None && pos == e
      ensures next.Some? ==> !next.value.Text?
    {
      var segments := [first];
      while pos < |tokens| && tokens[pos].Text?
        invariant old(pos) <= pos <= |tokens|
        invariant TextRunEnd(tokens, pos) == TextRunEnd(tokens, old(pos))
        invariant forall k :: old(pos) <= k < pos ==> tokens[k].Text?
        invariant segments == [first] + TextsOf(tokens, old(pos), pos)
        decreases |tokens| - pos
      {
        segments := segments + [tokens[pos].text];
        pos := pos + 1;
      }
      node := TextNode(segments);
      next := None;
      if pos < |tokens| {
        next := Some(tokens[pos]);
        pos := pos + 1;
      }
    }

    /** `parse_comment`: kept only when the options preserve comments. */
    method ParseComment(c: string)
      requires Valid()
      modifies this`openElems, this`rootNodes
      ensures Valid()
      ensures State() == if option.preserveComment then WithInserted(old(State()), Comment(c)) else old(State())
    {
      if !option.preserveComment {
        return;
      }
      ghost var before := openElems;
      InsertNode(Comment(c));
      ShapeKeepsValid(before);
    }

    /** `parse_interpolation`. */
    method ParseInterpolation(src: string)
      requires Valid()
      modifies this`openElems, this`rootNodes
      ensures Valid() && State() == WithInserted(old(State()), Interpolation(src))
    {
      ghost var before := openElems;
      InsertNode(Interpolation(src));
      ShapeKeepsValid(before);
    }

    /** `report_unclosed_script_comment`, once the stream is exhausted. */
    method ReportUnclosedScriptComment()
      requires pos == |tokens|
      modifies this`errors
      ensures errors == old(errors) + (if ScriptCommentUnclosed(openElems) then [EofInScriptHtmlCommentLikeText] else [])
    {
      if |openElems| == 0 {
        return;
      }
      var elem := openElems[|openElems| - 1];
      if !EqIgnoreAsciiCase(elem.tagName, "script") {
        return;
      }
      if |elem.children| == 0 || !elem.children[0].Text? {
        return;
      }
      var text := FirstSegment(elem.children[0].textNode);
      if Contains(text, "<!--") && !Contains(text, "-->") {
        errors := errors + [EofInScriptHtmlCommentLikeText];
      }
    }
  }
}
