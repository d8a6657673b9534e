# nuspec language server: diagnostics core, modelled in Dafny

This project models the diagnostics core of a language server for NuGet
package manifests (`.nuspec` files). It covers three parts of the server:

- **Buffer store** (`BufferManager`). Holds the latest text buffer of each
  document, keyed by the document URI's string. An update replaces the old
  buffer (last write wins). A lookup returns nothing (null in the source) for
  a path that was never written. Nothing is ever removed.
- **Diagnostics producer** (`DiagnosticsHandler`). It reads the text against
  the embedded nuspec schema. Each validation event becomes an Error
  diagnostic with an empty range at the reported position, moved from
  one-based to zero-based. A fatal well-formedness error ends the read and
  adds one last diagnostic. It then flags every text node whose value holds
  `__replace`, `space_separated` or `tag1`. The test is a substring test that
  ignores case, and each flagged node gets one Error diagnostic with the
  message "Templated value which should be removed". The published list is
  the schema diagnostics followed by the placeholder diagnostics.
- **Sync handler** (`TextDocumentSyncHandler`). Sync is full-document. On open
  and on change it stores the whole text, then publishes that text's schema
  diagnostics once, as a fresh list. Close and save do nothing.

The sync handler never calls the diagnostics producer. The server only
registers it as a service (src/NuSpec.Server/Program.cs:30). So the list
the editor actually receives holds schema diagnostics only, with no
placeholder check. The model keeps the two paths apart:
`TextDocumentSync.CheckedDiagnostics` is what is published, and
`DiagnosticsHandling.DocumentDiagnostics` is what the unused producer would
publish.

The two handlers also load the schema differently. The diagnostics producer
fills the resource's namespace placeholder with
`http://schemas.microsoft.com/packaging/2015/06/nuspec.xsd` before parsing
it. The sync handler parses the resource as it is. The model keeps these as
two distinct `Xml.Schema` values. It does not say what either schema
accepts.

The XML library is seen only through what it returns, as the datatype
`Xml.XmlLibrary` of three functions of the text:
- `read`: the reader's events, in order. `Violation` is a validation
  callback. `Fatal` is the `XmlException` that `Read` throws.
- `parse`: the syntax tree's nodes in document order.
- `positions`: the offset-to-range conversion.

Publishing appends `(uri, list)` to a ghost log on `Lsp.LanguageServer`.

Besides the per-call contracts, the sync handler carries a proved invariant,
`Consistent`. For every document whose stored buffer has text, the latest
list published for that document is exactly the diagnostics of that text.
This is per-document replacement: a change replaces the previous list
rather than merging with it, and publishing for one document leaves every
other document's latest list alone.

A change notification with no content change is a case the code handles
without a guard. `FirstOrDefault()?.Text` is then null. The handler stores a
string buffer with no text and passes null to the reader. `StringReader`
throws `ArgumentNullException`, which the handler does not catch, so nothing
is published. The model follows the code here. It assumes that the
library's `StringBuffer` constructor accepts a null text without checking it.

## Model

| member | source | states |
|---|---|---|
| `Buffers.BufferManager.constructor` | src/NuSpec.Server/BufferManager.cs:11-16 | the store starts empty, with no write recorded |
| `Buffers.BufferManager.UpdateBuffer` | src/NuSpec.Server/BufferManager.cs:18-21 | the path now maps to the new buffer whatever it held before; every other path keeps its presence and buffer; no path is lost; the write is recorded |
| `Buffers.BufferManager.GetBuffer` | src/NuSpec.Server/BufferManager.cs:23-26 | returns the stored buffer iff the path is present and None (null) otherwise; changes nothing; the result is the last buffer written for that path |
| `Buffers.LastWrite` | src/NuSpec.Server/BufferManager.cs:25 | there is no last write for a path exactly when no write named it; otherwise it is the buffer of a write naming the path after which no write names it |
| `Buffers.ReplayIsLastWrite` | src/NuSpec.Server/BufferManager.cs:18-26 | after any series of updates, a path is present iff some update named it, and it holds the buffer of the last such update |
| `SchemaValidation.ToPosition` | src/NuSpec.Server/DiagnosticsHandler.cs:106-108 | the zero-based position converts back to the reader's one-based line and column |
| `SchemaValidation.EventDiagnostic` | src/NuSpec.Server/DiagnosticsHandler.cs:101-110 | the diagnostic for a reader event carries the event's message, is an Error, has an empty range, and its position converts back to the event's one-based line and column |
| `SchemaValidation.SchemaDiagnostics` | src/NuSpec.Server/DiagnosticsHandler.cs:88-134 | a read yields no more diagnostics than events, none exactly when there is no event, and every one is an Error with an empty range |
| `SchemaValidation.FirstFatal` | src/NuSpec.Server/DiagnosticsHandler.cs:116-120 | finds the first fatal error, with only validation events before it; None means no event is fatal |
| `SchemaValidation.SchemaDiagnosticsPerEvent` | src/NuSpec.Server/DiagnosticsHandler.cs:101-133 | one diagnostic per event read, in order, up to and including the first fatal error, and no others |
| `SchemaValidation.SchemaDiagnosticsAreErrors` | src/NuSpec.Server/DiagnosticsHandler.cs:101-110 | every schema diagnostic is an Error with an empty range that carries some event's message at (line-1, column-1) |
| `SchemaValidation.FatalEndsRead` | src/NuSpec.Server/DiagnosticsHandler.cs:116-130 | a fatal error keeps the diagnostics reported before it, appends exactly one for itself, and everything after it is ignored |
| `SchemaValidation.ViolationsOnly` | src/NuSpec.Server/DiagnosticsHandler.cs:101-118 | without a fatal error there is exactly one diagnostic per validation event, in order |
| `SchemaValidation.ReadSchemaEvents` | src/NuSpec.Server/DiagnosticsHandler.cs:113-131 | the reading loop with its catch yields exactly the schema diagnostics of the event sequence |
| `Placeholders.FoldCase` | src/NuSpec.Server/DiagnosticsHandler.cs:73 | a folded character is never an ASCII lower-case letter |
| `Placeholders.FoldCaseEqual` | src/NuSpec.Server/DiagnosticsHandler.cs:73 | two characters fold alike iff they are equal or the lower- and upper-case forms of one ASCII letter; folding is idempotent |
| `Placeholders.ContainsIgnoreCase` | src/NuSpec.Server/DiagnosticsHandler.cs:73 | true iff the token occurs at some offset of the value, ignoring case |
| `Placeholders.IsTemplated` | src/NuSpec.Server/DiagnosticsHandler.cs:71-73 | a node is flagged iff it is a text node and one of the three tokens occurs at some offset of its value, ignoring case |
| `Placeholders.ValidateTemplatedValues` | src/NuSpec.Server/DiagnosticsHandler.cs:69-86 | at most one diagnostic per node; each has the fixed message and severity Error and spans a flagged node's offsets |
| `Placeholders.ValidateTemplatedValuesAppend` | src/NuSpec.Server/DiagnosticsHandler.cs:71-85 | each node is judged on its own: scanning two node lists in turn gives the concatenation of their results |
| `Placeholders.ValidateTemplatedValuesSingle` | src/NuSpec.Server/DiagnosticsHandler.cs:71-84 | one node yields exactly one diagnostic if flagged, however many tokens it holds, and none otherwise |
| `Placeholders.OffendingNodeReported` | src/NuSpec.Server/DiagnosticsHandler.cs:71-84 | every flagged node is reported by an Error with the fixed message and the range of its own start and end offsets |
| `Placeholders.NoPlaceholdersNoDiagnostics` | src/NuSpec.Server/DiagnosticsHandler.cs:71-85 | the scan reports nothing iff no node is flagged |
| `Placeholders.MarkupNeverFlagged` | src/NuSpec.Server/DiagnosticsHandler.cs:71 | a node that is not a text node, wherever it stands in the list, adds nothing to the result |
| `Placeholders.SubstringMatchIgnoresCase` | src/NuSpec.Server/DiagnosticsHandler.cs:73 | the text "x__REPLACEy" is flagged: the match is by substring and ignores case |
| `Placeholders.ShortTextNotFlagged` | src/NuSpec.Server/DiagnosticsHandler.cs:22-27 | text shorter than every token is never flagged: a token must occur whole |
| `DiagnosticsHandling.DocumentDiagnostics` | src/NuSpec.Server/DiagnosticsHandler.cs:57-60 | the list starts with one diagnostic per event read, followed by the placeholder diagnostics and nothing else |
| `DiagnosticsHandling.CleanDocumentHasNoDiagnostics` | src/NuSpec.Server/DiagnosticsHandler.cs:52-66 | the list is empty iff the reader reports no event and no text node is flagged |
| `DiagnosticsHandling.DiagnosticsHandler.constructor` | src/NuSpec.Server/DiagnosticsHandler.cs:29-50 | the handler keeps its collaborators and the schema with the nuspec namespace filled in |
| `DiagnosticsHandling.DiagnosticsHandler.PublishDiagnostics` | src/NuSpec.Server/DiagnosticsHandler.cs:52-67 | publishes exactly one fresh list for the URI, made of the schema diagnostics then the placeholder diagnostics of the buffer's text; a buffer without text throws and publishes nothing |
| `DiagnosticsHandling.DiagnosticsHandler.ValidateAgainstSchema` | src/NuSpec.Server/DiagnosticsHandler.cs:88-134 | returns one diagnostic per event read against the handler's schema, in order, each the event's diagnostic |
| `TextDocumentSync.CheckedDiagnostics` | src/NuSpec.Server/TextDocumentSyncHandler.cs:116-159 | the published list has one diagnostic per event read and nothing else, so at most one per reported event; no placeholder diagnostic |
| `TextDocumentSync.TextDocumentSyncHandler.constructor` | src/NuSpec.Server/TextDocumentSyncHandler.cs:36-49 | the handler keeps its collaborators and the schema resource as read; the sync kind is Full; with an empty store the published lists are consistent with it |
| `TextDocumentSync.TextDocumentSyncHandler.HandleDidChange` | src/NuSpec.Server/TextDocumentSyncHandler.cs:65-74 | stores the first change's text (`FirstOrDefault()?.Text`) as the whole buffer, then publishes that text's diagnostics once; with no change it stores a buffer with no (null) text and throws before publishing; keeps Consistent |
| `TextDocumentSync.TextDocumentSyncHandler.HandleDidOpen` | src/NuSpec.Server/TextDocumentSyncHandler.cs:76-82 | stores the document's text under its URI, then publishes that text's diagnostics exactly once; keeps Consistent |
| `TextDocumentSync.TextDocumentSyncHandler.HandleDidClose` | src/NuSpec.Server/TextDocumentSyncHandler.cs:84-87 | completes, changing no buffer and publishing nothing |
| `TextDocumentSync.TextDocumentSyncHandler.HandleDidSave` | src/NuSpec.Server/TextDocumentSyncHandler.cs:89-92 | completes, changing no buffer and publishing nothing |
| `TextDocumentSync.TextDocumentSyncHandler.CheckDiagnostics` | src/NuSpec.Server/TextDocumentSyncHandler.cs:116-166 | publishes exactly once a fresh list holding only this read's schema diagnostics; a null text throws and publishes nothing |
| `TextDocumentSync.TextDocumentSyncHandler.KeepsConsistent` | src/NuSpec.Server/TextDocumentSyncHandler.cs:65-82 | storing a text and then publishing its diagnostics keeps every stored text's latest published list equal to its diagnostics |
| `Lsp.LastPublished` | src/NuSpec.Server/TextDocumentSyncHandler.cs:161-165 | there is no latest list for a URI iff nothing was published for it; otherwise it is the list of a publication for that URI after which none for it follows |
| `Lsp.LastPublishedAfter` | src/NuSpec.Server/TextDocumentSyncHandler.cs:161-165 | a publication replaces the URI's latest list and leaves every other URI's latest list unchanged |
| `Lsp.LanguageServer.PublishDiagnostics` | src/NuSpec.Server/DiagnosticsHandler.cs:62-66 | each publish appends exactly one (URI, list) notification to the log |

## Left out

- Schema validation internals: what `XmlReader` with the schema set reports for a text is a given function (`XmlLibrary.read`). The model does not say which documents are valid.
- Schema loading: reading the embedded resource, the namespace substitution and `XmlSchema.Read`. Each handler's schema is a constant value. A failure to load it is not modelled.
- `Parser.Parse`, `DescendantNodesAndSelf` and `TextPositions.GetRange` belong to the XML library. The node list and the offset-to-range conversion are given functions of the text.
- Placeholders.FoldCase: folds ASCII letters only. Ordinal case-insensitive comparison uses full Unicode upper-casing, which the model does not include. All three tokens are lower-case ASCII.
- Exceptions other than `XmlException` during a read, for example from `XmlUrlResolver` resolving a schema location over the network, are not modelled. The resolver itself is left out.
- Concurrency: the concurrent dictionary is a sequential map. Handlers run one at a time.
- `Uri.ToString()`: the buffer key and the published URI are the same string. URI normalisation is not modelled.
- Positions are unbounded integers. Line and column numbers of 0 give -1, as in the code. No overflow is modelled.
- An open notification whose document text is null is not modelled: the open request's text is always a string. In the code, `StringReader(null)` would throw at src/NuSpec.Server/TextDocumentSyncHandler.cs:141, as it does for a change with no content.
- A content change event whose text is null is not modelled: each event's text is a string. In the code it takes the same path as a change list with no event: `FirstOrDefault()?.Text` is null and `StringReader(null)` throws (src/NuSpec.Server/TextDocumentSyncHandler.cs:68, 141).
- A null buffer passed to the diagnostics producer is not modelled: `PublishDiagnostics` always receives a buffer. In the code a null buffer faults at `buffer.Length` (src/NuSpec.Server/DiagnosticsHandler.cs:54) before anything is published.
- Protocol plumbing: registration options, the document selector, `SetCapability`, `GetTextDocumentAttributes` and the transport behind `PublishDiagnostics`.
- Server startup and dependency wiring (src/NuSpec.Server/Program.cs) and the editor extension are not part of this model.
