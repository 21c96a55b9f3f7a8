/** The name-level comparison of one source directory with its replica. */
module Comparator {
  import opened FileTree

  /** The names a pass copies or creates, and the names it deletes. */
  datatype DiffResult = DiffResult(toCopy: set<Name>, toDelete: set<Name>)

  /** Compare the two listings of one directory level by name only. */
  function Diff(source: set<Name>, replica: set<Name>): (d: DiffResult)
    ensures forall n :: n in d.toCopy <==> n in source && n !in replica
    ensures forall n :: n in d.toDelete <==> n in replica && n !in source
    ensures d.toCopy !! d.toDelete
    ensures d.toCopy !! (source * replica) && d.toDelete !! (source * replica)
    ensures d.toCopy + d.toDelete + source * replica == source + replica
    ensures d.toCopy <= source && d.toDelete <= replica
  {
    DiffResult(source - replica, replica - source)
  }

  /** Equal listings give nothing to copy and nothing to delete, and only they do. */
  lemma DiffEmptyIffSameNames(source: set<Name>, replica: set<Name>)
    ensures Diff(source, replica) == DiffResult({}, {}) <==> source == replica
  {
  }
}
