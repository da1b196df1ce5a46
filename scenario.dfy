/** A worked scenario: a source holding `a/b.txt` (10 bytes) and
    `a/c/d.txt` (5 bytes) mirrored into an empty target directory `T`,
    mirrored again unchanged, and mirrored once more after `a/b.txt` was
    rewritten with the same length and a newer modification time. */
module Scenario {
  import opened Wrappers
  import opened Paths
  import opened Staleness
  import opened Tasks
  import opened Walker
  import opened Volume
  import opened SyncTask
  import opened Scheduler

  const B: Metadata := Metadata(10, Some(1))
  const D: Metadata := Metadata(5, Some(2))
  const RewrittenB: Metadata := Metadata(10, Some(3))

  const BPath: Path := SourceRoot + ["a", "b.txt"]
  const DPath: Path := SourceRoot + ["a", "c", "d.txt"]
  const BTarget: Path := ["T", "a", "b.txt"]
  const DTarget: Path := ["T", "a", "c", "d.txt"]

  const CListing: Listing := Listed([File("d.txt", D)])
  const AListing: Listing := Listed([File("b.txt", B), Dir("c", CListing)])
  const Tree: Listing := Listed([Dir("a", AListing)])
  const RewrittenAListing: Listing := Listed([File("b.txt", RewrittenB), Dir("c", CListing)])
  const RewrittenTree: Listing := Listed([Dir("a", RewrittenAListing)])

  const Source: SourceFiles := map[BPath := seq(10, _ => 7 as byte), DPath := seq(5, _ => 9 as byte)]
  const RewrittenSource: SourceFiles := Source[BPath := seq(10, _ => 8 as byte)]

  const Empty: Disk := Disk(map[], {})
  const NoFaults: Faults := Faults({}, {}, {})

  /** The walk finds the two files, in listing order. */
  lemma ScenarioWalk()
    ensures Walk(SourceRoot, Tree) == [SourceEntry(BPath, B), SourceEntry(DPath, D)]
  {
    var a, c := SourceRoot + ["a"], SourceRoot + ["a", "c"];
    assert c + ["d.txt"] == DPath && a + ["b.txt"] == BPath && a + ["c"] == c;
    assert Visit(c, CListing.entries[0]) == [SourceEntry(DPath, D)];
    assert Walk(c, CListing) == WalkPrefix(c, CListing, 0) + Visit(c, CListing.entries[0]);
    assert Visit(a, AListing.entries[0]) == [SourceEntry(BPath, B)];
    assert WalkPrefix(a, AListing, 1) == WalkPrefix(a, AListing, 0) + Visit(a, AListing.entries[0]);
    assert Walk(a, AListing) == WalkPrefix(a, AListing, 1) + Visit(a, AListing.entries[1]);
    assert Walk(SourceRoot, Tree) == WalkPrefix(SourceRoot, Tree, 0) + Visit(SourceRoot, Tree.entries[0]);
  }

  /** After the rewrite the walk finds the same two files, `a/b.txt` with its
      new metadata. */
  lemma ScenarioRewrittenWalk()
    ensures Walk(SourceRoot, RewrittenTree) == [SourceEntry(BPath, RewrittenB), SourceEntry(DPath, D)]
  {
    var a, c := SourceRoot + ["a"], SourceRoot + ["a", "c"];
    assert c + ["d.txt"] == DPath && a + ["b.txt"] == BPath && a + ["c"] == c;
    assert Visit(c, CListing.entries[0]) == [SourceEntry(DPath, D)];
    assert Walk(c, CListing) == WalkPrefix(c, CListing, 0) + Visit(c, CListing.entries[0]);
    assert Visit(a, RewrittenAListing.entries[0]) == [SourceEntry(BPath, RewrittenB)];
    assert WalkPrefix(a, RewrittenAListing, 1) ==
      WalkPrefix(a, RewrittenAListing, 0) + Visit(a, RewrittenAListing.entries[0]);
    assert Walk(a, RewrittenAListing) ==
      WalkPrefix(a, RewrittenAListing, 1) + Visit(a, RewrittenAListing.entries[1]);
    assert Walk(SourceRoot, RewrittenTree) ==
      WalkPrefix(SourceRoot, RewrittenTree, 0) + Visit(SourceRoot, RewrittenTree.entries[0]);
  }

  /** Sibling names are distinct throughout the scenario's tree. */
  lemma ScenarioWellFormed()
    ensures WellFormed(Tree)
  {
    assert WellFormed(CListing);
    assert NodeWellFormed(AListing.entries[1]);
    assert NameOf(AListing.entries[0]) != NameOf(AListing.entries[1]);
    assert WellFormed(AListing);
    assert NodeWellFormed(Tree.entries[0]);
  }

  /** The walk's metadata agrees with the source bytes, and both
      modification times can be read. */
  lemma ScenarioConsistent()
    ensures forall e :: e in Walk(SourceRoot, Tree) ==> Consistent(Source, e) && e.meta.modified.Some?
  {
    ScenarioWalk();
    assert |Source[BPath]| == 10 && |Source[DPath]| == 5;
  }

  /** Nothing is in the way of any target on an empty volume without faults. */
  lemma EmptyUnobstructed(t: Path)
    ensures Unobstructed(Empty, NoFaults, t)
  {
  }

  /** The two tasks complete in one order or the other; they are apart and
      land on `T/a/b.txt` and `T/a/c/d.txt`. */
  lemma ScenarioOrder(order: seq<SourceEntry>, meta: Metadata)
    requires multiset(order) == multiset([SourceEntry(BPath, meta), SourceEntry(DPath, D)])
    ensures |order| == 2
    ensures (order[0] == SourceEntry(BPath, meta) && order[1] == SourceEntry(DPath, D)) ||
            (order[0] == SourceEntry(DPath, D) && order[1] == SourceEntry(BPath, meta))
    ensures AllUnder(order) && PrefixFree(order) && PathsDistinct(order)
    ensures TargetPath(["T"], BPath) == BTarget && TargetPath(["T"], DPath) == DTarget
  {
    var eb, ed := SourceEntry(BPath, meta), SourceEntry(DPath, D);
    assert |order| == |multiset(order)| == 2;
    assert order == [order[0], order[1]];
    assert order[0] in multiset(order) && order[1] in multiset(order);
    if order[0] == eb {
      assert multiset(order) == multiset{eb, order[1]};
    } else {
      assert multiset(order) == multiset{ed, order[1]};
    }
    assert !IsPrefix(BPath, DPath) by { assert DPath[..|BPath|][2] == "c"; }
    assert !IsPrefix(DPath, BPath);
    PrefixFreeDistinct(order);
    assert TargetPath(["T"], BPath) == ["T"] + RelativePath(BPath);
    assert TargetPath(["T"], DPath) == ["T"] + RelativePath(DPath);
  }

  /** Each task of a run over the scenario's two files lands on one of the
      two targets, which are apart. */
  lemma ScenarioTargetsApart(first: seq<SourceEntry>)
    requires multiset(first) == multiset([SourceEntry(BPath, B), SourceEntry(DPath, D)])
    ensures AllUnder(first)
    ensures forall e :: e in first ==> var target := TargetPath(["T"], e.path);
      && (target == BTarget || (!IsPrefix(target, BTarget) && !IsPrefix(BTarget, target)))
      && (target == DTarget || (!IsPrefix(target, DTarget) && !IsPrefix(DTarget, target)))
  {
    ScenarioOrder(first, B);
    assert !IsPrefix(BTarget, DTarget) && !IsPrefix(DTarget, BTarget);
  }

  /** The first run downloads both files, whichever completes first; each
      target file gets the source's bytes and modification time. */
  lemma ScenarioFirstRun(first: seq<SourceEntry>, now: int)
    requires CompletionOrder(first, Walk(SourceRoot, Tree))
    ensures var r := RunSteps(Empty, NoFaults, Source, ["T"], first, now);
      && (forall k :: 0 <= k < |first| ==> r.1[k] == Ok(Synced(RelativePath(first[k].path), true)))
      && BTarget in r.0.files && r.0.files[BTarget] == FileData(Source[BPath], Some(1))
      && DTarget in r.0.files && r.0.files[DTarget] == FileData(Source[DPath], Some(2))
  {
    FirstOrder(first);
    FirstRunEntry(first, now, 0);
    FirstRunEntry(first, now, 1);
  }

  /** A completion order of the first run holds the two files, one way or
      the other. */
  lemma FirstOrder(first: seq<SourceEntry>)
    requires CompletionOrder(first, Walk(SourceRoot, Tree))
    ensures |first| == 2
    ensures (first[0] == SourceEntry(BPath, B) && first[1] == SourceEntry(DPath, D)) ||
            (first[0] == SourceEntry(DPath, D) && first[1] == SourceEntry(BPath, B))
    ensures AllUnder(first) && PrefixFree(first) && PathsDistinct(first)
    ensures TargetPath(["T"], BPath) == BTarget && TargetPath(["T"], DPath) == DTarget
  {
    ScenarioWalk();
    ScenarioOrder(first, B);
  }

  /** Task `k` of the first run downloaded its file: the target holds the
      source's bytes and modification time. */
  lemma FirstRunEntry(first: seq<SourceEntry>, now: int, k: int)
    requires AllUnder(first) && PrefixFree(first) && PathsDistinct(first)
    requires forall e :: e in first ==> e.path in Source
    requires 0 <= k < |first|
    ensures var r := RunSteps(Empty, NoFaults, Source, ["T"], first, now);
      && r.1[k] == Ok(Synced(RelativePath(first[k].path), true))
      && first[k].path in Source && TargetPath(["T"], first[k].path) in r.0.files
      && r.0.files[TargetPath(["T"], first[k].path)] == FileData(Source[first[k].path], first[k].meta.modified)
  {
    RunSucceeds(Empty, NoFaults, Source, ["T"], first, now);
    RunDecidesEachFile(Empty, NoFaults, Source, ["T"], first, now);
    assert first[k] in first;
  }

  /** Mirroring again with nothing changed copies nothing and reports both
      files up to date. */
  lemma ScenarioSecondRun(first: seq<SourceEntry>, second: seq<SourceEntry>, now: int, later: int)
    requires CompletionOrder(first, Walk(SourceRoot, Tree))
    requires CompletionOrder(second, Walk(SourceRoot, Tree))
    ensures var d1 := RunSteps(Empty, NoFaults, Source, ["T"], first, now).0;
      var r := RunSteps(d1, NoFaults, Source, ["T"], second, later);
      && r.0 == d1
      && forall k :: 0 <= k < |second| ==> r.1[k] == Ok(Synced(RelativePath(second[k].path), false))
  {
    ScenarioConsistent();
    ScenarioWellFormed();
    ScenarioFirstRun(first, now);
    MirrorIsIdempotent(Tree, Empty, NoFaults, Source, ["T"], first, second, now, later);
  }

  /** After the first run both targets are up to date with the original
      source. */
  lemma ScenarioUpToDateAfterFirstRun(first: seq<SourceEntry>, now: int)
    requires CompletionOrder(first, Walk(SourceRoot, Tree))
    ensures var d1 := RunSteps(Empty, NoFaults, Source, ["T"], first, now).0;
      Probe(d1, NoFaults, BTarget) == Some(B) && Probe(d1, NoFaults, DTarget) == Some(D)
  {
    ScenarioFirstRun(first, now);
    assert |Source[BPath]| == 10 && |Source[DPath]| == 5;
  }

  /** After the first run both targets are still unobstructed: each holds a
      file, and no ancestor of either is a file. */
  lemma ScenarioUnobstructedAfterFirstRun(first: seq<SourceEntry>, now: int)
    requires CompletionOrder(first, Walk(SourceRoot, Tree))
    ensures var d1 := RunSteps(Empty, NoFaults, Source, ["T"], first, now).0;
      Unobstructed(d1, NoFaults, BTarget) && Unobstructed(d1, NoFaults, DTarget)
  {
    ScenarioWalk();
    ScenarioTargetsApart(first);
    EmptyUnobstructed(BTarget);
    EmptyUnobstructed(DTarget);
    RunKeepsUnobstructed(Empty, NoFaults, Source, ["T"], first, now, BTarget);
    RunKeepsUnobstructed(Empty, NoFaults, Source, ["T"], first, now, DTarget);
  }

  /** After `a/b.txt` is rewritten with the same length and a newer
      modification time, the next run copies `a/b.txt` only: its target gets
      the new bytes and time, and `a/c/d.txt` is left as it was. */
  lemma ScenarioRewrite(d1: Disk, second: seq<SourceEntry>, later: int)
    requires Probe(d1, NoFaults, BTarget) == Some(B) && Unobstructed(d1, NoFaults, BTarget)
    requires Probe(d1, NoFaults, DTarget) == Some(D) && Unobstructed(d1, NoFaults, DTarget)
    requires CompletionOrder(second, Walk(SourceRoot, RewrittenTree))
    ensures var r := RunSteps(d1, NoFaults, RewrittenSource, ["T"], second, later);
      && (forall k :: 0 <= k < |second| ==>
            r.1[k] == Ok(Synced(RelativePath(second[k].path), second[k].path == BPath)))
      && BTarget in r.0.files && r.0.files[BTarget] == FileData(RewrittenSource[BPath], Some(3))
      && Probe(r.0, NoFaults, DTarget) == Some(D)
      && DTarget in d1.files && DTarget in r.0.files && r.0.files[DTarget] == d1.files[DTarget]
  {
    ScenarioRewrittenWalk();
    ScenarioOrder(second, RewrittenB);
    RewriteEntry(d1, second, later, 0);
    RewriteEntry(d1, second, later, 1);
  }

  /** The whole story: mirror the share into an empty volume, rewrite
      `a/b.txt`, mirror again. `a/b.txt` ends with the new bytes and time,
      and `a/c/d.txt` still holds what the first run copied. */
  lemma ScenarioMirrorThenRewrite(first: seq<SourceEntry>, second: seq<SourceEntry>, now: int, later: int)
    requires CompletionOrder(first, Walk(SourceRoot, Tree))
    requires CompletionOrder(second, Walk(SourceRoot, RewrittenTree))
    ensures var d1 := RunSteps(Empty, NoFaults, Source, ["T"], first, now).0;
      var r := RunSteps(d1, NoFaults, RewrittenSource, ["T"], second, later);
      && (forall k :: 0 <= k < |second| ==>
            r.1[k] == Ok(Synced(RelativePath(second[k].path), second[k].path == BPath)))
      && BTarget in r.0.files && r.0.files[BTarget] == FileData(RewrittenSource[BPath], Some(3))
      && DTarget in r.0.files && r.0.files[DTarget] == FileData(Source[DPath], Some(2))
  {
    var d1 := RunSteps(Empty, NoFaults, Source, ["T"], first, now).0;
    ScenarioFirstRun(first, now);
    ScenarioUpToDateAfterFirstRun(first, now);
    ScenarioUnobstructedAfterFirstRun(first, now);
    ScenarioRewrite(d1, second, later);
  }

  /** Task `k` of the run after the rewrite: `a/b.txt` is downloaded with
      its new bytes and time, `a/c/d.txt` is reported up to date and kept. */
  lemma RewriteEntry(d1: Disk, second: seq<SourceEntry>, later: int, k: int)
    requires Probe(d1, NoFaults, BTarget) == Some(B) && Unobstructed(d1, NoFaults, BTarget)
    requires Probe(d1, NoFaults, DTarget) == Some(D) && Unobstructed(d1, NoFaults, DTarget)
    requires |second| == 2
    requires (second[0] == SourceEntry(BPath, RewrittenB) && second[1] == SourceEntry(DPath, D)) ||
             (second[0] == SourceEntry(DPath, D) && second[1] == SourceEntry(BPath, RewrittenB))
    requires AllUnder(second) && PrefixFree(second) && PathsDistinct(second)
    requires TargetPath(["T"], BPath) == BTarget && TargetPath(["T"], DPath) == DTarget
    requires 0 <= k < |second|
    ensures var r := RunSteps(d1, NoFaults, RewrittenSource, ["T"], second, later);
      && r.1[k] == Ok(Synced(RelativePath(second[k].path), second[k].path == BPath))
      && (second[k].path == BPath ==>
            BTarget in r.0.files && r.0.files[BTarget] == FileData(RewrittenSource[BPath], Some(3)))
      && (second[k].path == DPath ==>
            Probe(r.0, NoFaults, DTarget) == Some(D) &&
            DTarget in d1.files && DTarget in r.0.files && r.0.files[DTarget] == d1.files[DTarget])
  {
    RunSucceeds(d1, NoFaults, RewrittenSource, ["T"], second, later);
    RunDecidesEachFile(d1, NoFaults, RewrittenSource, ["T"], second, later);
    assert second[k] in second;
  }
}
