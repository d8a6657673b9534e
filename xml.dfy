// The XML library the handlers call, seen only through what it returns.

module Xml {
  import opened Lsp

  /**
   * What a schema-validating reader reports while it reads a document, in
   * order. `Violation` is a validation event delivered to the registered
   * handler; `Fatal` is the well-formedness error that `Read` throws. Lines
   * and columns are the reader's, one-based.
   */
  datatype ReaderEvent =
    | Violation(message: string, line: int, column: int)
    | Fatal(message: string, line: int, column: int)

  /**
   * A node of the document's syntax tree, in document order. Only text
   * content carries a value that the placeholder check looks at.
   */
  datatype XmlNode =
    | XmlText(value: string, start: int, end: int)
    | XmlMarkup(start: int, end: int)

  const NuspecNamespace: string := "http://schemas.microsoft.com/packaging/2015/06/nuspec.xsd"

  /**
   * The embedded nuspec schema as each handler loads it: the resource read
   * as it is, or with its namespace placeholder filled in by string formatting.
   */
  datatype Schema = EmbeddedXsd | EmbeddedXsdWithNamespace(targetNamespace: string)

  /**
   * The library's behaviour on a given text: the reader's events for a schema,
   * the syntax tree's nodes, and the offset-to-range conversion built from the text.
   */
  datatype XmlLibrary = XmlLibrary(
    read: (Schema, string) -> seq<ReaderEvent>,
    parse: string -> seq<XmlNode>,
    positions: string -> (int, int) -> Range)
}
