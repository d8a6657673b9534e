// The diagnostics producer: schema violations followed by placeholder findings.

module DiagnosticsHandling {
  import opened Optional
  import opened Lsp
  import opened Xml
  import opened Buffers
  import opened SchemaValidation
  import opened Placeholders

  /**
   * The list published for a text: first one diagnostic per event the reader
   * gets through, in order, then exactly the placeholder diagnostics.
   */
  function DocumentDiagnostics(xml: XmlLibrary, schema: Schema, text: string): (r: seq<Diagnostic>)
    ensures var events := xml.read(schema, text);
      ReadLength(events) <= |r| &&
      (forall k :: 0 <= k < ReadLength(events) ==> r[k] == EventDiagnostic(events[k])) &&
      r[ReadLength(events)..] == ValidateTemplatedValues(xml.parse(text), xml.positions(text))
  {
    SchemaDiagnosticsPerEvent(xml.read(schema, text));
    SchemaDiagnostics(xml.read(schema, text)) + ValidateTemplatedValues(xml.parse(text), xml.positions(text))
  }

  /**
   * Nothing is published for a text exactly when the reader reports nothing
   * and no text node holds a placeholder token.
   */
  lemma {:induction false} CleanDocumentHasNoDiagnostics(xml: XmlLibrary, schema: Schema, text: string)
    ensures DocumentDiagnostics(xml, schema, text) == [] <==>
      xml.read(schema, text) == [] &&
      forall k :: 0 <= k < |xml.parse(text)| ==> !IsTemplated(xml.parse(text)[k])
  {
    SchemaDiagnosticsPerEvent(xml.read(schema, text));
    NoPlaceholdersNoDiagnostics(xml.parse(text), xml.positions(text));
  }

  class DiagnosticsHandler {
    const router: LanguageServer
    const bufferManager: BufferManager
    const xml: XmlLibrary
    /** The embedded schema with its namespace placeholder filled in, loaded once. */
    const schemaSet: Schema

    constructor (router: LanguageServer, bufferManager: BufferManager, xml: XmlLibrary)
      ensures this.router == router && this.bufferManager == bufferManager && this.xml == xml
      ensures schemaSet == EmbeddedXsdWithNamespace(NuspecNamespace)
    {
      this.router := router;
      this.bufferManager := bufferManager;
      this.xml := xml;
      schemaSet := EmbeddedXsdWithNamespace(NuspecNamespace);
    }

    /**
     * Publishes, once, the full diagnostic list of the buffer's text. A buffer
     * without text fails on reading its length, and nothing is published.
     */
    method PublishDiagnostics(uri: string, buffer: Buffer) returns (outcome: Outcome)
      modifies router
      ensures buffer.text.None? ==>
        outcome == Faulted("NullReferenceException") && router.published == old(router.published)
      ensures buffer.text.Some? ==>
        outcome == Completed &&
        router.published == old(router.published) +
          [Publication(uri, DocumentDiagnostics(xml, schemaSet, buffer.text.value))]
    {
      if buffer.text.None? {
        return Faulted("NullReferenceException");
      }
      var text := buffer.text.value;
      var syntaxTree := xml.parse(text);
      var textPositions := xml.positions(text);
      var diagnostics: seq<Diagnostic> := [];
      var schemaDiagnostics := ValidateAgainstSchema(text);
      diagnostics := diagnostics + schemaDiagnostics;
      assert diagnostics == schemaDiagnostics;
      diagnostics := diagnostics + ValidateTemplatedValues(syntaxTree, textPositions);
      router.PublishDiagnostics(uri, diagnostics);
      outcome := Completed;
    }

    /** The diagnostics of reading `text` against this handler's schema. */
    method ValidateAgainstSchema(text: string) returns (diagnostics: seq<Diagnostic>)
      ensures diagnostics == SchemaDiagnostics(xml.read(schemaSet, text))
      ensures |diagnostics| == ReadLength(xml.read(schemaSet, text))
      ensures forall k :: 0 <= k < |diagnostics| ==> diagnostics[k] == EventDiagnostic(xml.read(schemaSet, text)[k])
    {
      diagnostics := ReadSchemaEvents(xml.read(schemaSet, text));
      SchemaDiagnosticsPerEvent(xml.read(schemaSet, text));
    }
  }
}
