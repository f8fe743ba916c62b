/** The pull-parser events that the XML and POM readers consume, as the
    reader hands them over after its own tokenising and text trimming. */
module XmlEvents {
  import opened Strings

  /** One attribute of a tag. `value` is the decoded value, `None` when
      decoding it fails; `Malformed` is an attribute the reader could not
      split into a key and a value. */
  datatype Attribute = Attribute(key: string, value: Option<string>) | Malformed

  /** One reader event. `Text` carries the unescaped text, `None` when
      unescaping fails; `Other` stands for comments, CDATA, declarations,
      processing instructions and doctypes, which every reader here skips. */
  datatype Event =
    | Start(name: string, attrs: seq<Attribute>)
    | Empty(name: string, attrs: seq<Attribute>)
    | Text(content: Option<string>)
    | End(name: string)
    | Eof
    | Error(message: string)
    | Other

  /** `e.unescape().unwrap_or_default()`: the text of a `Text` event, or the
      empty string when it cannot be unescaped. */
  function TextOf(content: Option<string>): string
  {
    match content
    case Some(t) => t
    case None => ""
  }

  /** An event that opens an element, with or without content. */
  predicate IsElement(e: Event) {
    e.Start? || e.Empty?
  }

  /** An event after which every reader loop stops reading. */
  predicate Stops(e: Event) {
    e.Eof? || e.Error?
  }
}
