/** The collection of pending sync tasks (`tasks`, a `FuturesUnordered` in
    the source). The walker's visitor pushes one task per discovered file;
    the run loop takes back whichever task finishes next. */
module Tasks {
  import opened Wrappers
  import opened Paths
  import opened Staleness

  /** A discovered source file: its absolute path and its metadata, the
      `(DirEntry, Metadata)` pair the walker hands to its visitor. */
  datatype SourceEntry = SourceEntry(path: Path, meta: Metadata)

  class TaskPool {
    /** The tasks launched and not yet completed, in launch order. */
    var pending: seq<SourceEntry>

    constructor ()
      ensures pending == []
    {
      pending := [];
    }

    /** `tasks.push(...)`: launch one more task. */
    method Push(entry: SourceEntry)
      modifies this
      ensures pending == old(pending) + [entry]
    {
      pending := pending + [entry];
    }

    /** `tasks.next()`: `None` once every task has completed, otherwise the
        task that completes next, which may be any pending one. */
    method Next() returns (next: Option<SourceEntry>)
      modifies this
      ensures next.None? <==> old(pending) == []
      ensures next.None? ==> pending == []
      ensures next.Some? ==> next.value in old(pending) && |pending| + 1 == |old(pending)|
      ensures next.Some? ==> multiset(pending) + multiset{next.value} == multiset(old(pending))
    {
      if pending == [] {
        return None;
      }
      var k :| 0 <= k < |pending|;
      next := Some(pending[k]);
      assert pending == pending[..k] + [pending[k]] + pending[k + 1..];
      pending := pending[..k] + pending[k + 1..];
    }
  }
}
