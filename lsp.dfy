// Protocol-side values shared by the handlers: positions, ranges, diagnostics,
// and the server's publish boundary.

module Lsp {
  import opened Optional

  /** A zero-based line/character position, as the editor protocol counts. */
  datatype Position = Position(line: int, character: int)

  datatype Range = Range(start: Position, end: Position)

  datatype DiagnosticSeverity = Error | Warning | Information | Hint

  datatype Diagnostic = Diagnostic(message: string, severity: DiagnosticSeverity, range: Range)

  /** One textDocument/publishDiagnostics notification sent to the client. */
  datatype Publication = Publication(uri: string, diagnostics: seq<Diagnostic>)

  /** The diagnostics most recently published for `uri`, if any were. */
  function LastPublished(log: seq<Publication>, uri: string): (r: Option<seq<Diagnostic>>)
    ensures r.None? <==> forall k :: 0 <= k < |log| ==> log[k].uri != uri
    ensures r.Some? ==>
      exists k :: 0 <= k < |log| && log[k] == Publication(uri, r.value) &&
        forall j :: k < j < |log| ==> log[j].uri != uri
  {
    if log == [] then None
    else if log[|log| - 1].uri == uri then Some(log[|log| - 1].diagnostics)
    else LastPublished(log[..|log| - 1], uri)
  }

  /** Publishing for `uri` makes that list the latest for `uri` and leaves every other URI's latest list as it was. */
  lemma LastPublishedAfter(log: seq<Publication>, uri: string, diagnostics: seq<Diagnostic>, other: string)
    ensures LastPublished(log + [Publication(uri, diagnostics)], uri) == Some(diagnostics)
    ensures other != uri ==>
      LastPublished(log + [Publication(uri, diagnostics)], other) == LastPublished(log, other)
  {
    assert (log + [Publication(uri, diagnostics)])[..|log|] == log;
  }

  /** How a notification handler ended: normally, or with an exception escaping it. */
  datatype Outcome = Completed | Faulted(exception: string)

  /**
   * The language server's outgoing side. Only the notifications it sends are
   * modelled, as a log; the transport is outside the model.
   */
  class LanguageServer {
    ghost var published: seq<Publication>

    constructor ()
      ensures published == []
    {
      published := [];
    }

    method PublishDiagnostics(uri: string, diagnostics: seq<Diagnostic>)
      modifies this
      ensures published == old(published) + [Publication(uri, diagnostics)]
    {
      published := published + [Publication(uri, diagnostics)];
    }
  }
}
