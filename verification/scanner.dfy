/**
 * The token vocabulary the template parser consumes. The scanner that produces
 * these tokens is not part of this model; a token stream is a plain sequence.
 */
module Scanner {
  import opened Wrappers
  import opened TextUtil

  datatype AttributeValue = AttributeValue(content: VStr)

  datatype Attribute = Attribute(name: string, value: Option<AttributeValue>)

  datatype Tag = Tag(name: string, selfClosing: bool, attributes: seq<Attribute>)

  datatype Token =
    | StartTag(tag: Tag)
    | EndTag(name: string)
    | Text(text: VStr)
    | Comment(source: string)
    | Interpolation(source: string)

  /** How the scanner reads an element's content: markup, escapable text or raw text. */
  datatype TextMode = Data | RcData | RawText
}
