// Turning a schema-validating read into diagnostics.

module SchemaValidation {
  import opened Optional
  import opened Lsp
  import opened Xml

  /** The one-based position the reader reports, as a zero-based protocol position. */
  function ToPosition(line: int, column: int): (p: Position)
    ensures FromPosition(p) == (line, column)
  {
    Position(line - 1, column - 1)
  }

  /** The reader's one-based line and column for a protocol position. */
  function FromPosition(p: Position): (int, int)
  {
    (p.line + 1, p.character + 1)
  }

  /** The diagnostic reported for one reader event: an error with an empty range at the event's position. */
  function EventDiagnostic(e: ReaderEvent): (d: Diagnostic)
    ensures d.message == e.message && d.severity == Error
    ensures d.range.start == d.range.end && FromPosition(d.range.start) == (e.line, e.column)
  {
    Diagnostic(e.message, Error, Range(ToPosition(e.line, e.column), ToPosition(e.line, e.column)))
  }

  /** The position of the first fatal error, if the reader reaches one. */
  function FirstFatal(events: seq<ReaderEvent>): (r: Option<nat>)
    ensures r.Some? ==> r.value < |events| && events[r.value].Fatal?
    ensures r.Some? ==> forall k :: 0 <= k < r.value ==> events[k].Violation?
    ensures r.None? ==> forall k :: 0 <= k < |events| ==> events[k].Violation?
  {
    if events == [] then None
    else if events[0].Fatal? then Some(0)
    else match FirstFatal(events[1..])
      case None => None
      case Some(f) => Some(f + 1)
  }

  /**
   * The diagnostics of a read: one per event, in order, up to and including
   * the first fatal error, which ends the read.
   */
  function SchemaDiagnostics(events: seq<ReaderEvent>): (r: seq<Diagnostic>)
    ensures |r| <= |events|
    ensures r == [] <==> events == []
    ensures forall d :: d in r ==> d.severity == Error && d.range.start == d.range.end
  {
    if events == [] then []
    else if events[0].Fatal? then [EventDiagnostic(events[0])]
    else [EventDiagnostic(events[0])] + SchemaDiagnostics(events[1..])
  }

  /** The number of events the reader gets through: up to the first fatal error, or all of them. */
  function ReadLength(events: seq<ReaderEvent>): nat
  {
    match FirstFatal(events)
    case None => |events|
    case Some(f) => f + 1
  }

  /**
   * Every event read yields exactly one diagnostic, in order, and nothing else
   * does: events after the first fatal error are never seen.
   */
  lemma {:induction false} SchemaDiagnosticsPerEvent(events: seq<ReaderEvent>)
    ensures |SchemaDiagnostics(events)| == ReadLength(events)
    ensures forall k :: 0 <= k < ReadLength(events) ==>
      SchemaDiagnostics(events)[k] == EventDiagnostic(events[k])
  {
    if events != [] && !events[0].Fatal? {
      SchemaDiagnosticsPerEvent(events[1..]);
    }
  }

  /** `d` carries the message of event `k` at that event's position made zero-based. */
  ghost predicate EventAt(events: seq<ReaderEvent>, k: int, d: Diagnostic)
  {
    0 <= k < |events| && d.message == events[k].message &&
    d.range.start == Position(events[k].line - 1, events[k].column - 1)
  }

  /** Every schema diagnostic is an error with an empty range at the reader's position made zero-based. */
  lemma {:induction false} SchemaDiagnosticsAreErrors(events: seq<ReaderEvent>)
    ensures forall d :: d in SchemaDiagnostics(events) ==>
      d.severity == Error && d.range.start == d.range.end && exists k :: EventAt(events, k, d)
  {
    SchemaDiagnosticsPerEvent(events);
    forall d | d in SchemaDiagnostics(events)
      ensures exists k :: EventAt(events, k, d)
    {
      var k :| 0 <= k < |SchemaDiagnostics(events)| && SchemaDiagnostics(events)[k] == d;
      assert d == EventDiagnostic(events[k]);
      assert EventAt(events, k, d);
    }
  }

  /**
   * A fatal error keeps what was reported before it and adds exactly one
   * diagnostic for itself, last; whatever follows it is ignored.
   */
  lemma {:induction false} FatalEndsRead(before: seq<ReaderEvent>, fatal: ReaderEvent, after: seq<ReaderEvent>)
    requires fatal.Fatal?
    requires forall k :: 0 <= k < |before| ==> before[k].Violation?
    ensures SchemaDiagnostics(before + [fatal] + after) == SchemaDiagnostics(before) + [EventDiagnostic(fatal)]
  {
    if before == [] {
      assert (before + [fatal] + after)[0] == fatal;
    } else {
      assert (before + [fatal] + after)[1..] == before[1..] + [fatal] + after;
      FatalEndsRead(before[1..], fatal, after);
    }
  }

  /** Without a fatal error, the read yields exactly one diagnostic per validation event. */
  lemma ViolationsOnly(events: seq<ReaderEvent>)
    requires forall k :: 0 <= k < |events| ==> events[k].Violation?
    ensures |SchemaDiagnostics(events)| == |events|
    ensures forall k :: 0 <= k < |events| ==> SchemaDiagnostics(events)[k] == EventDiagnostic(events[k])
  {
    SchemaDiagnosticsPerEvent(events);
  }

  /**
   * The reading loop: validation events are added as they are reported; a
   * fatal error stops the loop and is added by the handler that catches it.
   */
  method ReadSchemaEvents(events: seq<ReaderEvent>) returns (diagnostics: seq<Diagnostic>)
    ensures diagnostics == SchemaDiagnostics(events)
  {
    diagnostics := [];
    var i := 0;
    var caught: Option<ReaderEvent> := None;
    while i < |events| && caught.None?
      invariant 0 <= i <= |events|
      invariant caught.None? ==> diagnostics + SchemaDiagnostics(events[i..]) == SchemaDiagnostics(events)
      invariant caught.Some? ==> caught.value.Fatal?
      invariant caught.Some? ==> diagnostics + [EventDiagnostic(caught.value)] == SchemaDiagnostics(events)
    {
      assert events[i..][1..] == events[i + 1..];
      match events[i] {
        case Violation(_, _, _) =>
          diagnostics := diagnostics + [EventDiagnostic(events[i])];
        case Fatal(_, _, _) =>
          caught := Some(events[i]);
      }
      i := i + 1;
    }
    if caught.Some? {
      diagnostics := diagnostics + [EventDiagnostic(caught.value)];
    }
  }
}
