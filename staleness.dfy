/** The staleness oracle: whether a target file must be (re)copied, decided
    from the source's metadata and the target's metadata if it has any. */
module Staleness {
  import opened Wrappers

  /** What the oracle reads of a file's metadata: its byte length and its
      modification time, which the platform may be unable to report. */
  datatype Metadata = Metadata(len: nat, modified: Option<int>)

  /** `needs_update`. The target counts as up to date only when it exists,
      both modification times can be read, and length and time are equal;
      the comparison is equality, not "newer than". */
  function NeedsUpdate(source: Metadata, target: Option<Metadata>): (stale: bool)
    ensures target.None? ==> stale
    ensures source.modified.None? ==> stale
    ensures target.Some? && target.value.modified.None? ==> stale
    ensures target.Some? && source.modified.Some? && target.value.modified.Some? ==>
              (stale <==> source.len != target.value.len
                          || source.modified.value != target.value.modified.value)
    ensures !stale <==> source.modified.Some? && target == Some(source)
  {
    match target
    case Some(t) =>
      (match source.modified
       case Some(sourceTime) =>
         (match t.modified
          case Some(targetTime) => source.len != t.len || sourceTime != targetTime
          case None => true)
       case None => true)
    case None => true
  }
}
