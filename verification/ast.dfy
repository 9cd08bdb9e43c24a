/**
 * The template AST the parser builds (crates/compiler/src/parser.rs), without
 * source locations and namespaces, plus the two text-node operations.
 */
module Ast {
  import opened Wrappers
  import opened TextUtil
  import Scanner

  /** A run of text, kept as the segments of consecutive Text tokens. */
  datatype TextNode = TextNode(text: seq<VStr>)

  datatype AstNode =
    | ElementNode(element: Element)
    | Text(textNode: TextNode)
    | Interpolation(source: string)
    | Comment(source: string)

  datatype ElementType = Plain | Component | Template | SlotOutlet

  datatype Element = Element(
    tagName: string,
    tagType: ElementType,
    properties: seq<ElemProp>,
    children: seq<AstNode>)

  datatype ElemProp = Attr(attr: Scanner.Attribute) | Dir(dir: Directive)

  /** `:static` or `:[dynamic]`. */
  datatype DirectiveArg = Static(name: string) | Dynamic(name: string)

  /** `v-name:arg.mod1.mod2="expr"`. */
  datatype Directive = Directive(
    name: string,
    argument: Option<DirectiveArg>,
    modifiers: seq<string>,
    expression: Option<Scanner.AttributeValue>)

  /** The compilation errors this part of the compiler reports. */
  datatype ErrorKind =
    | MissingEndTag
    | InvalidEndTag
    | EofInScriptHtmlCommentLikeText
    | MissingDirectiveName
    | MissingDirectiveArg
    | InvalidVSlotModifier
    | UnexpectedContentAfterDynamicDirective
    | MissingDynamicDirectiveArgumentEnd
    | MissingDirectiveMod

  /** The text a node renders: its segments, concatenated. */
  function Flatten(segments: seq<VStr>): string
  {
    if |segments| == 0 then [] else segments[0].raw + Flatten(segments[1..])
  }

  /**
   * A text node holds only whitespace when no segment has a non-whitespace
   * character; the whitespace class is the ASCII one (`util::non_whitespace`
   * is not part of this model and is taken to be its complement).
   */
  predicate IsAllWhitespace(t: TextNode)
  {
    forall k :: 0 <= k < |t.text| ==> AllWhitespace(t.text[k].raw)
  }

  predicate AllWhitespace(s: string)
  {
    forall k :: 0 <= k < |s| ==> IsAsciiWhitespace(s[k])
  }

  lemma {:induction false} AllWhitespaceConcat(a: string, b: string)
    ensures AllWhitespace(a + b) <==> AllWhitespace(a) && AllWhitespace(b)
  {
    if AllWhitespace(a) && AllWhitespace(b) {
      forall k | 0 <= k < |a + b| ensures IsAsciiWhitespace((a + b)[k]) {
        if k < |a| { assert (a + b)[k] == a[k]; } else { assert (a + b)[k] == b[k - |a|]; }
      }
    }
    if AllWhitespace(a + b) {
      forall k | 0 <= k < |a| ensures IsAsciiWhitespace(a[k]) { assert (a + b)[k] == a[k]; }
      forall k | 0 <= k < |b| ensures IsAsciiWhitespace(b[k]) { assert (a + b)[|a| + k] == b[k]; }
    }
  }

  /** Segment by segment and on the rendered text, the whitespace test agrees. */
  lemma {:induction false} AllWhitespaceIsOnRenderedText(segments: seq<VStr>)
    ensures IsAllWhitespace(TextNode(segments)) <==> AllWhitespace(Flatten(segments))
  {
    if |segments| > 0 {
      AllWhitespaceIsOnRenderedText(segments[1..]);
      AllWhitespaceConcat(segments[0].raw, Flatten(segments[1..]));
      assert forall k :: 1 <= k < |segments| ==> segments[k] == segments[1..][k - 1];
    }
  }

  /** How many characters of a leading newline ("\n" or "\r\n") a segment starts with. */
  function LeadingNewline(s: string): (n: nat)
    ensures n <= |s|
    ensures n == 1 <==> StartsWith(s, "\n")
    ensures n == 2 <==> !StartsWith(s, "\n") && StartsWith(s, "\r\n")
    ensures n == 0 || n == 1 || n == 2
  {
    if StartsWith(s, "\n") then 1 else if StartsWith(s, "\r\n") then 2 else 0
  }

  /**
   * Drops a leading "\n" or "\r\n" from the first segment, and the segment
   * itself when nothing else is left of it.
   */
  function TrimLeadingNewline(t: TextNode): (r: TextNode)
    ensures |t.text| == 0 ==> r == t
    ensures |t.text| > 0 ==>
      var n := LeadingNewline(t.text[0].raw);
      Flatten(r.text) == Flatten(t.text)[n..]
    ensures |t.text| > 0 && LeadingNewline(t.text[0].raw) == 0 ==> r == t
    ensures |r.text| == |t.text| || (|r.text| == |t.text| - 1 && r.text == t.text[1..])
    ensures |r.text| == |t.text| > 0 ==> r.text[1..] == t.text[1..] && r.text[0].ops == t.text[0].ops
  {
    if |t.text| == 0 then t
    else
      var first := t.text[0];
      var n := LeadingNewline(first.raw);
      if n == 0 then t
      else if |first.raw| > n then TextNode([VStr(first.raw[n..], first.ops)] + t.text[1..])
      else TextNode(t.text[1..])
  }

  /** `ElemProp::attr`: a plain attribute whose value is to be entity-decoded. */
  function DecodedAttr(a: Scanner.Attribute): (r: ElemProp)
    ensures r.Attr? && r.attr.name == a.name
    ensures r.attr.value.None? <==> a.value.None?
    ensures a.value.Some? ==>
      r.attr.value.value.content.raw == a.value.value.content.raw &&
      r.attr.value.value.content.ops == a.value.value.content.ops + {DecodeAttr}
  {
    match a.value
    case None => Attr(a)
    case Some(v) =>
      Attr(Scanner.Attribute(a.name, Some(Scanner.AttributeValue(VStr(v.content.raw, v.content.ops + {DecodeAttr})))))
  }
}
