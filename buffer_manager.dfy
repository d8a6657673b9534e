// The store of the latest text buffer of every open document.

module Buffers {
  import opened Optional

  /**
   * A text buffer. The handlers always store a string buffer; its text is
   * absent when the change notification carried no content change.
   */
  datatype Buffer = StringBuffer(text: Option<string>)

  /** The store obtained by applying `writes` in order to an empty store. */
  function Replay(writes: seq<(string, Buffer)>): map<string, Buffer>
  {
    if writes == [] then map[]
    else Replay(writes[..|writes| - 1])[writes[|writes| - 1].0 := writes[|writes| - 1].1]
  }

  /** The buffer most recently written under `path`, if any write named it. */
  function LastWrite(writes: seq<(string, Buffer)>, path: string): (r: Option<Buffer>)
    ensures r.None? <==> forall k :: 0 <= k < |writes| ==> writes[k].0 != path
    ensures r.Some? ==>
      exists k :: 0 <= k < |writes| && writes[k] == (path, r.value) &&
        forall j :: k < j < |writes| ==> writes[j].0 != path
  {
    if writes == [] then None
    else if writes[|writes| - 1].0 == path then Some(writes[|writes| - 1].1)
    else LastWrite(writes[..|writes| - 1], path)
  }

  /** Last write wins: looking a path up after any series of writes gives the last buffer written for it. */
  lemma {:induction false} ReplayIsLastWrite(writes: seq<(string, Buffer)>, path: string)
    ensures path in Replay(writes) <==> LastWrite(writes, path).Some?
    ensures path in Replay(writes) ==> Replay(writes)[path] == LastWrite(writes, path).value
  {
    if writes != [] {
      ReplayIsLastWrite(writes[..|writes| - 1], path);
    }
  }

  class BufferManager {
    var buffers: map<string, Buffer>
    /** Every update made so far, oldest first. */
    ghost var writes: seq<(string, Buffer)>

    ghost predicate Valid()
      reads this
    {
      buffers == Replay(writes)
    }

    constructor ()
      ensures Valid() && buffers == map[] && writes == []
    {
      buffers := map[];
      writes := [];
    }

    /** Adds the buffer under `documentPath`, replacing whatever was stored there. */
    method UpdateBuffer(documentPath: string, buffer: Buffer)
      requires Valid()
      modifies this
      ensures Valid()
      ensures writes == old(writes) + [(documentPath, buffer)]
      ensures buffers == old(buffers)[documentPath := buffer]
      ensures documentPath in buffers && buffers[documentPath] == buffer
      ensures forall p :: p != documentPath ==> (p in buffers <==> p in old(buffers))
      ensures forall p :: p != documentPath && p in buffers ==> buffers[p] == old(buffers)[p]
      ensures old(buffers).Keys <= buffers.Keys
    {
      buffers := buffers[documentPath := buffer];
      writes := writes + [(documentPath, buffer)];
      assert writes[..|writes| - 1] == old(writes);
    }

    /** The buffer stored under `documentPath`, or None (null in the source) when there is none. */
    method GetBuffer(documentPath: string) returns (r: Option<Buffer>)
      requires Valid()
      ensures r.Some? <==> documentPath in buffers
      ensures r.Some? ==> r.value == buffers[documentPath]
      ensures r == LastWrite(writes, documentPath)
    {
      ReplayIsLastWrite(writes, documentPath);
      r := if documentPath in buffers then Some(buffers[documentPath]) else None;
    }
  }
}
