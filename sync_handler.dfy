// The text document synchronisation handler: open and change notifications
// store the full text and publish its schema diagnostics.

module TextDocumentSync {
  import opened Optional
  import opened Lsp
  import opened Xml
  import opened Buffers
  import opened SchemaValidation

  datatype TextDocumentSyncKind = NoSync | Full | Incremental

  datatype DidOpenTextDocumentParams = DidOpenTextDocumentParams(uri: string, text: string)
  datatype TextDocumentContentChangeEvent = TextDocumentContentChangeEvent(text: string)
  datatype DidChangeTextDocumentParams =
    DidChangeTextDocumentParams(uri: string, contentChanges: seq<TextDocumentContentChangeEvent>)
  datatype DidCloseTextDocumentParams = DidCloseTextDocumentParams(uri: string)
  datatype DidSaveTextDocumentParams = DidSaveTextDocumentParams(uri: string, text: Option<string>)

  /**
   * The text of the first content change, taken as the whole new document
   * (full synchronisation); absent when the notification has no change.
   */
  function FirstChangeText(changes: seq<TextDocumentContentChangeEvent>): Option<string>
  {
    if changes == [] then None else Some(changes[0].text)
  }

  /**
   * What this handler publishes for a text, read against the schema resource
   * as it is: one diagnostic per event the reader gets through and nothing
   * else, so no placeholder diagnostic is ever part of this list.
   */
  function CheckedDiagnostics(xml: XmlLibrary, text: string): (r: seq<Diagnostic>)
    ensures |r| == ReadLength(xml.read(EmbeddedXsd, text))
    ensures |r| <= |xml.read(EmbeddedXsd, text)|
    ensures forall k :: 0 <= k < |r| ==> r[k] == EventDiagnostic(xml.read(EmbeddedXsd, text)[k])
  {
    SchemaDiagnosticsPerEvent(xml.read(EmbeddedXsd, text));
    SchemaDiagnostics(xml.read(EmbeddedXsd, text))
  }

  class TextDocumentSyncHandler {
    const router: LanguageServer
    const bufferManager: BufferManager
    const xml: XmlLibrary
    /** The embedded schema resource, read as it is. */
    const schemaSet: Schema
    /** Every change notification carries the whole document. */
    const Change: TextDocumentSyncKind

    ghost predicate Valid()
      reads this, bufferManager
    {
      bufferManager.Valid() && schemaSet == EmbeddedXsd
    }

    /**
     * For every document whose stored buffer has text, the latest list
     * published for it is the diagnostics of that text.
     */
    ghost predicate Consistent()
      reads this, bufferManager, router
    {
      forall uri :: uri in bufferManager.buffers && bufferManager.buffers[uri].text.Some? ==>
        LastPublished(router.published, uri) ==
          Some(CheckedDiagnostics(xml, bufferManager.buffers[uri].text.value))
    }

    constructor (router: LanguageServer, bufferManager: BufferManager, xml: XmlLibrary)
      requires bufferManager.Valid()
      ensures Valid()
      ensures this.router == router && this.bufferManager == bufferManager && this.xml == xml
      ensures Change == Full
      ensures bufferManager.buffers == map[] ==> Consistent()
    {
      this.router := router;
      this.bufferManager := bufferManager;
      this.xml := xml;
      schemaSet := EmbeddedXsd;
      Change := Full;
    }

    method HandleDidChange(request: DidChangeTextDocumentParams) returns (outcome: Outcome)
      requires Valid()
      modifies bufferManager, router
      ensures Valid()
      ensures bufferManager.buffers ==
        old(bufferManager.buffers)[request.uri := StringBuffer(FirstChangeText(request.contentChanges))]
      ensures request.contentChanges != [] ==>
        outcome == Completed &&
        router.published == old(router.published) +
          [Publication(request.uri, CheckedDiagnostics(xml, request.contentChanges[0].text))]
      ensures request.contentChanges == [] ==>
        outcome == Faulted("ArgumentNullException") && router.published == old(router.published)
      ensures old(Consistent()) ==> Consistent()
    {
      var documentPath := request.uri;
      var text := FirstChangeText(request.contentChanges);
      bufferManager.UpdateBuffer(documentPath, StringBuffer(text));
      outcome := CheckDiagnostics(request.uri, text);
      KeepsConsistent(old(bufferManager.buffers), old(router.published), request.uri, text);
    }

    method HandleDidOpen(request: DidOpenTextDocumentParams) returns (outcome: Outcome)
      requires Valid()
      modifies bufferManager, router
      ensures Valid()
      ensures bufferManager.buffers == old(bufferManager.buffers)[request.uri := StringBuffer(Some(request.text))]
      ensures outcome == Completed
      ensures router.published ==
        old(router.published) + [Publication(request.uri, CheckedDiagnostics(xml, request.text))]
      ensures old(Consistent()) ==> Consistent()
    {
      bufferManager.UpdateBuffer(request.uri, StringBuffer(Some(request.text)));
      outcome := CheckDiagnostics(request.uri, Some(request.text));
      KeepsConsistent(old(bufferManager.buffers), old(router.published), request.uri, Some(request.text));
    }

    /** Closing a document changes no buffer and publishes nothing. */
    method HandleDidClose(request: DidCloseTextDocumentParams) returns (outcome: Outcome)
      ensures outcome == Completed
    {
      outcome := Completed;
    }

    /** Saving a document changes no buffer and publishes nothing. */
    method HandleDidSave(request: DidSaveTextDocumentParams) returns (outcome: Outcome)
      ensures outcome == Completed
    {
      outcome := Completed;
    }

    /**
     * Reads `buffer` against the schema and publishes the diagnostics, once,
     * as a fresh list. A missing text makes the string reader throw, which
     * the handler does not catch: nothing is published.
     */
    method CheckDiagnostics(uri: string, buffer: Option<string>) returns (outcome: Outcome)
      requires Valid()
      modifies router
      ensures buffer.None? ==>
        outcome == Faulted("ArgumentNullException") && router.published == old(router.published)
      ensures buffer.Some? ==>
        outcome == Completed &&
        router.published == old(router.published) + [Publication(uri, CheckedDiagnostics(xml, buffer.value))]
    {
      if buffer.None? {
        return Faulted("ArgumentNullException");
      }
      var diagnostics := ReadSchemaEvents(xml.read(schemaSet, buffer.value));
      router.PublishDiagnostics(uri, diagnostics);
      outcome := Completed;
    }

    /** Storing `text` under `uri` and publishing its diagnostics (when there is text) keeps Consistent. */
    lemma KeepsConsistent(buffers: map<string, Buffer>, log: seq<Publication>, uri: string, text: Option<string>)
      requires bufferManager.buffers == buffers[uri := StringBuffer(text)]
      requires text.Some? ==> router.published == log + [Publication(uri, CheckedDiagnostics(xml, text.value))]
      requires text.None? ==> router.published == log
      ensures (forall u :: u in buffers && buffers[u].text.Some? ==>
          LastPublished(log, u) == Some(CheckedDiagnostics(xml, buffers[u].text.value)))
        ==> Consistent()
    {
      if text.Some? {
        forall u | u in bufferManager.buffers
          ensures u != uri ==> LastPublished(router.published, u) == LastPublished(log, u)
          ensures u == uri ==> LastPublished(router.published, u) == Some(CheckedDiagnostics(xml, text.value))
        {
          LastPublishedAfter(log, uri, CheckedDiagnostics(xml, text.value), u);
        }
      }
    }
  }
}
