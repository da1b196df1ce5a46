/** The scheduler and run loop of `main_async`: one task per discovered
    file, completions taken in whatever order they finish, a `finished`
    counter reported against `total`. Tasks run concurrently in the source;
    here each task runs whole, in its completion order, and that order is
    arbitrary. */
module Scheduler {
  import opened Wrappers
  import opened Paths
  import opened Staleness
  import opened Tasks
  import opened Walker
  import opened Volume
  import opened SyncTask

  /** One progress line of the run: `[finished / total]` and the task's
      result. */
  datatype Progress = Progress(finished: nat, total: nat, outcome: Outcome)

  function Outcomes(log: seq<Progress>): (r: seq<Outcome>)
    ensures |r| == |log| && forall k :: 0 <= k < |log| ==> r[k] == log[k].outcome
  {
    seq(|log|, k requires 0 <= k < |log| => log[k].outcome)
  }

  /** Progress line k reports k + 1 tasks finished out of `total`. */
  predicate Counted(log: seq<Progress>, total: nat) {
    forall k :: 0 <= k < |log| ==> log[k].finished == k + 1 && log[k].total == total
  }

  lemma CountedSnoc(log: seq<Progress>, total: nat, p: Progress)
    requires Counted(log, total) && p.finished == |log| + 1 && p.total == total
    ensures Counted(log + [p], total)
  {
  }

  lemma OutcomesSnoc(log: seq<Progress>, p: Progress)
    ensures Outcomes(log + [p]) == Outcomes(log) + [p.outcome]
  {
  }

  predicate AllUnder(order: seq<SourceEntry>) {
    forall e :: e in order ==> Under(e.path, SourceRoot)
  }

  /** The target files of the tasks in `order`. */
  function Targets(targetRoot: Path, order: seq<SourceEntry>): set<Path>
    requires AllUnder(order)
  {
    set e | e in order :: TargetPath(targetRoot, e.path)
  }

  /** The tasks run one after another in completion order `order`: the final
      volume and each task's result. Files other than the tasks' targets are
      never touched, and directories are only ever added. */
  function RunSteps(d: Disk, faults: Faults, source: SourceFiles, targetRoot: Path,
                    order: seq<SourceEntry>, now: int): (r: (Disk, seq<Outcome>))
    requires AllUnder(order)
    ensures |r.1| == |order|
    ensures forall k :: 0 <= k < |order| && r.1[k].Ok? ==>
              r.1[k].value.relative == RelativePath(order[k].path)
    ensures r.0.files - Targets(targetRoot, order) == d.files - Targets(targetRoot, order)
    ensures d.dirs <= r.0.dirs
    decreases |order|
  {
    if order == [] then (d, [])
    else
      var init := order[..|order| - 1];
      var last := order[|order| - 1];
      TargetsSnoc(targetRoot, order);
      var (d1, outcomes) := RunSteps(d, faults, source, targetRoot, init, now);
      var (d2, outcome) := SyncStep(d1, faults, source, targetRoot, last, now);
      UntouchedGrows(d.files, d1.files, d2.files, Targets(targetRoot, init), TargetPath(targetRoot, last.path));
      (d2, outcomes + [outcome])
  }

  lemma TargetsSnoc(targetRoot: Path, order: seq<SourceEntry>)
    requires AllUnder(order) && order != []
    ensures var init, last := order[..|order| - 1], order[|order| - 1];
      AllUnder(init) &&
      Targets(targetRoot, order) == Targets(targetRoot, init) + {TargetPath(targetRoot, last.path)}
  {
    var init, last := order[..|order| - 1], order[|order| - 1];
    assert order == init + [last];
    assert forall e :: e in init ==> e in order;
  }

  /** One more completed task: the run over `order + [entry]` is the run over
      `order` followed by the sync task for `entry`. */
  lemma RunStepsSnoc(d: Disk, faults: Faults, source: SourceFiles, targetRoot: Path,
                     order: seq<SourceEntry>, entry: SourceEntry, now: int)
    requires AllUnder(order) && Under(entry.path, SourceRoot)
    ensures AllUnder(order + [entry])
    ensures var r1 := RunSteps(d, faults, source, targetRoot, order, now);
      var r2 := SyncStep(r1.0, faults, source, targetRoot, entry, now);
      RunSteps(d, faults, source, targetRoot, order + [entry], now) == (r2.0, r1.1 + [r2.1])
  {
    assert (order + [entry])[..|order|] == order;
  }

  lemma UntouchedGrows<K, V>(m0: map<K, V>, m1: map<K, V>, m2: map<K, V>, a: set<K>, t: K)
    requires m1 - a == m0 - a && m2 - {t} == m1 - {t}
    ensures m2 - (a + {t}) == m0 - (a + {t})
  {
    forall k | k !in a + {t}
      ensures (k in m2 <==> k in m0) && (k in m2 ==> m2[k] == m0[k])
    {
      assert k in m2 <==> k in m2 - {t};
      assert k in m1 <==> k in m1 - {t};
      assert k in m1 <==> k in m1 - a;
      assert k in m0 <==> k in m0 - a;
      if k in m2 {
        assert m2[k] == (m2 - {t})[k] == (m1 - {t})[k] == (m1 - a)[k] == (m0 - a)[k];
      }
    }
  }

  lemma SameOutside<K, V>(m: map<K, V>, m': map<K, V>, a: set<K>, p: K)
    requires m' - a == m - a && p !in a
    ensures (p in m' <==> p in m) && (p in m ==> m'[p] == m[p])
  {
    assert p in m' <==> p in m' - a;
    assert p in m <==> p in m - a;
    if p in m {
      assert m'[p] == (m' - a)[p];
    }
  }

  lemma TargetsApart(targetRoot: Path, order: seq<SourceEntry>, k: nat)
    requires AllUnder(order) && PathsDistinct(order) && k < |order|
    ensures TargetPath(targetRoot, order[k].path) !in Targets(targetRoot, order[..k])
  {
    forall e | e in order[..k]
      ensures TargetPath(targetRoot, e.path) != TargetPath(targetRoot, order[k].path)
    {
      if TargetPath(targetRoot, e.path) == TargetPath(targetRoot, order[k].path) {
        TargetPathInjective(targetRoot, e.path, order[k].path);
      }
    }
  }

  /** How a successful task for `e` that found the target as it was on `d`
      relates to the volume `final` at the end of the run: it reports a
      download exactly when the target was stale on `d`; a downloaded file
      holds the source's bytes and modification time; a file reported up to
      date is as it was on `d`. */
  ghost predicate Decided(d: Disk, faults: Faults, source: SourceFiles, targetRoot: Path, e: SourceEntry, o: Outcome, final: Disk)
    requires Under(e.path, SourceRoot)
  {
    var target := TargetPath(targetRoot, e.path);
    o.Ok? ==>
      && (o.value.downloaded <==> NeedsUpdate(e.meta, Probe(d, faults, target)))
      && (o.value.downloaded ==>
            e.path in source && target in final.files &&
            final.files[target] == FileData(source[e.path], e.meta.modified))
      && (!o.value.downloaded ==>
            Probe(final, faults, target) == Probe(d, faults, target) &&
            target in d.files && target in final.files && final.files[target] == d.files[target])
  }

  /** A later task on another target keeps an earlier task's result decided. */
  lemma DecidedKept(d: Disk, faults: Faults, source: SourceFiles, targetRoot: Path, e: SourceEntry, o: Outcome,
                    d1: Disk, d2: Disk, other: Path)
    requires Under(e.path, SourceRoot) && Decided(d, faults, source, targetRoot, e, o, d1)
    requires d2.files - {other} == d1.files - {other} && TargetPath(targetRoot, e.path) != other
    ensures Decided(d, faults, source, targetRoot, e, o, d2)
  {
    SameOutside(d1.files, d2.files, {other}, TargetPath(targetRoot, e.path));
  }

  /** The last task of a run with distinct paths keeps the earlier tasks'
      results decided. */
  lemma DecidedAllKept(d: Disk, faults: Faults, source: SourceFiles, targetRoot: Path, order: seq<SourceEntry>,
                       outcomes: seq<Outcome>, d1: Disk, d2: Disk, lastTarget: Path)
    requires AllUnder(order) && PathsDistinct(order) && order != [] && |outcomes| == |order| - 1
    requires lastTarget == TargetPath(targetRoot, order[|order| - 1].path)
    requires forall k :: 0 <= k < |order| - 1 ==> Decided(d, faults, source, targetRoot, order[k], outcomes[k], d1)
    requires d2.files - {lastTarget} == d1.files - {lastTarget}
    ensures forall k :: 0 <= k < |order| - 1 ==> Decided(d, faults, source, targetRoot, order[k], outcomes[k], d2)
  {
    var last := order[|order| - 1];
    forall k | 0 <= k < |order| - 1
      ensures Decided(d, faults, source, targetRoot, order[k], outcomes[k], d2)
    {
      if TargetPath(targetRoot, order[k].path) == lastTarget {
        TargetPathInjective(targetRoot, order[k].path, last.path);
      }
      DecidedKept(d, faults, source, targetRoot, order[k], outcomes[k], d1, d2, lastTarget);
    }
  }

  lemma DistinctInit(order: seq<SourceEntry>)
    requires AllUnder(order) && PathsDistinct(order) && order != []
    ensures var init := order[..|order| - 1];
      AllUnder(init) && PathsDistinct(init) && order == init + [order[|order| - 1]]
  {
    assert forall e :: e in order[..|order| - 1] ==> e in order;
  }

  /** A task whose target no earlier task touched is decided by the volume
      as it was before the run. */
  lemma DecidedLast(d: Disk, faults: Faults, source: SourceFiles, targetRoot: Path, e: SourceEntry,
                    d1: Disk, now: int)
    requires Under(e.path, SourceRoot)
    requires var target := TargetPath(targetRoot, e.path);
      (target in d1.files <==> target in d.files) && (target in d.files ==> d1.files[target] == d.files[target])
    ensures var r := SyncStep(d1, faults, source, targetRoot, e, now);
      Decided(d, faults, source, targetRoot, e, r.1, r.0)
  {
  }

  /** What a run does to each file, whatever the completion order: a task's
      result is decided by the target as it was before the run (other tasks
      never touch its target); a file reported downloaded ends with the
      source's bytes and modification time; a file reported up to date is
      left as it was. */
  lemma {:induction false} RunDecidesEachFile(d: Disk, faults: Faults, source: SourceFiles, targetRoot: Path,
                                              order: seq<SourceEntry>, now: int)
    requires AllUnder(order) && PathsDistinct(order)
    ensures var r := RunSteps(d, faults, source, targetRoot, order, now);
      forall k :: 0 <= k < |order| ==> Decided(d, faults, source, targetRoot, order[k], r.1[k], r.0)
    decreases |order|
  {
    if order != [] {
      var n := |order|;
      var init, last := order[..n - 1], order[n - 1];
      assert order == init + [last];
      DistinctInit(order);
      RunDecidesEachFile(d, faults, source, targetRoot, init, now);
      RunStepsSnoc(d, faults, source, targetRoot, init, last, now);
      var r1 := RunSteps(d, faults, source, targetRoot, init, now);
      var r2 := SyncStep(r1.0, faults, source, targetRoot, last, now);
      var r := RunSteps(d, faults, source, targetRoot, order, now);
      var lastTarget := TargetPath(targetRoot, last.path);
      DecidedAllKept(d, faults, source, targetRoot, order, r1.1, r1.0, r2.0, lastTarget);
      forall k | 0 <= k < n - 1
        ensures Decided(d, faults, source, targetRoot, order[k], r.1[k], r.0)
      {
        assert r.1[k] == r1.1[k];
      }
      TargetsApart(targetRoot, order, n - 1);
      SameOutside(d.files, r1.0.files, Targets(targetRoot, init), lastTarget);
      DecidedLast(d, faults, source, targetRoot, last, r1.0, now);
      assert r.1[n - 1] == r2.1;
    }
  }

  /** After a run every file whose task succeeded is up to date by the
      oracle, provided the source did not change under the walker and its
      modification time can be read. */
  lemma RunLeavesUpToDate(d: Disk, faults: Faults, source: SourceFiles, targetRoot: Path,
                          order: seq<SourceEntry>, now: int)
    requires AllUnder(order) && PathsDistinct(order)
    requires forall e :: e in order ==> Consistent(source, e)
    ensures var r := RunSteps(d, faults, source, targetRoot, order, now);
      forall k :: 0 <= k < |order| && r.1[k].Ok? && order[k].meta.modified.Some? &&
                  TargetPath(targetRoot, order[k].path) !in faults.noProbe ==>
        !NeedsUpdate(order[k].meta, Probe(r.0, faults, TargetPath(targetRoot, order[k].path)))
  {
    RunDecidesEachFile(d, faults, source, targetRoot, order, now);
    var r := RunSteps(d, faults, source, targetRoot, order, now);
    forall k | 0 <= k < |order| && r.1[k].Ok? && order[k].meta.modified.Some? &&
               TargetPath(targetRoot, order[k].path) !in faults.noProbe
      ensures !NeedsUpdate(order[k].meta, Probe(r.0, faults, TargetPath(targetRoot, order[k].path)))
    {
      assert Consistent(source, order[k]);
    }
  }

  /** A run over files that are all up to date changes nothing and reports
      every file up to date. */
  lemma {:induction false} RunSkipsUpToDate(d: Disk, faults: Faults, source: SourceFiles, targetRoot: Path,
                                            order: seq<SourceEntry>, now: int)
    requires AllUnder(order)
    requires forall e :: e in order ==> !NeedsUpdate(e.meta, Probe(d, faults, TargetPath(targetRoot, e.path)))
    ensures var r := RunSteps(d, faults, source, targetRoot, order, now);
      && r.0 == d
      && forall k :: 0 <= k < |order| ==> r.1[k] == Ok(Synced(RelativePath(order[k].path), false))
    decreases |order|
  {
    if order != [] {
      var init := order[..|order| - 1];
      assert forall e :: e in init ==> e in order;
      RunSkipsUpToDate(d, faults, source, targetRoot, init, now);
      assert order[|order| - 1] in order;
    }
  }

  /** Idempotence of a run: once a run has succeeded for every file, running
      again over the same files, in any completion order and at any time,
      copies nothing and reports every file up to date. */
  lemma SecondRunIsNoOp(d: Disk, faults: Faults, source: SourceFiles, targetRoot: Path,
                        first: seq<SourceEntry>, second: seq<SourceEntry>, now: int, later: int)
    requires AllUnder(first) && PathsDistinct(first)
    requires forall e :: e in first ==> Consistent(source, e) && e.meta.modified.Some?
    requires forall e :: e in first ==> TargetPath(targetRoot, e.path) !in faults.noProbe
    requires forall k :: 0 <= k < |first| ==> RunSteps(d, faults, source, targetRoot, first, now).1[k].Ok?
    requires forall e :: e in second ==> e in first
    ensures var d1 := RunSteps(d, faults, source, targetRoot, first, now).0;
      var r := RunSteps(d1, faults, source, targetRoot, second, later);
      && r.0 == d1
      && forall k :: 0 <= k < |second| ==> r.1[k] == Ok(Synced(RelativePath(second[k].path), false))
  {
    RunLeavesUpToDate(d, faults, source, targetRoot, first, now);
    var d1 := RunSteps(d, faults, source, targetRoot, first, now).0;
    forall e | e in second
      ensures !NeedsUpdate(e.meta, Probe(d1, faults, TargetPath(targetRoot, e.path)))
    {
      var k :| 0 <= k < |first| && first[k] == e;
    }
    RunSkipsUpToDate(d1, faults, source, targetRoot, second, later);
  }

  /** A run keeps a well-formed volume well-formed, in any completion order. */
  lemma {:induction false} RunKeepsDiskOk(d: Disk, faults: Faults, source: SourceFiles, targetRoot: Path,
                                          order: seq<SourceEntry>, now: int)
    requires AllUnder(order) && DiskOk(d)
    ensures DiskOk(RunSteps(d, faults, source, targetRoot, order, now).0)
    decreases |order|
  {
    if order != [] {
      var init, last := order[..|order| - 1], order[|order| - 1];
      assert forall e :: e in init ==> e in order;
      RunKeepsDiskOk(d, faults, source, targetRoot, init, now);
      assert order == init + [last];
      RunStepsSnoc(d, faults, source, targetRoot, init, last, now);
      var d1 := RunSteps(d, faults, source, targetRoot, init, now).0;
      SyncStepKeepsDiskOk(d1, faults, source, targetRoot, last, now);
    }
  }

  /** A run leaves a target unobstructed when every task's target is
      either that very target or neither its ancestor nor its descendant. */
  lemma {:induction false} RunKeepsUnobstructed(d: Disk, faults: Faults, source: SourceFiles, targetRoot: Path,
                                                order: seq<SourceEntry>, now: int, t: Path)
    requires AllUnder(order) && Unobstructed(d, faults, t)
    requires forall e :: e in order ==> var target := TargetPath(targetRoot, e.path);
               target == t || (!IsPrefix(target, t) && !IsPrefix(t, target))
    ensures Unobstructed(RunSteps(d, faults, source, targetRoot, order, now).0, faults, t)
    decreases |order|
  {
    if order != [] {
      var init, last := order[..|order| - 1], order[|order| - 1];
      assert forall e :: e in init ==> e in order;
      RunKeepsUnobstructed(d, faults, source, targetRoot, init, now, t);
      var d1 := RunSteps(d, faults, source, targetRoot, init, now).0;
      var d2 := SyncStep(d1, faults, source, targetRoot, last, now).0;
      var lastTarget := TargetPath(targetRoot, last.path);
      assert last in order;
      forall k | 0 < k < |t|
        ensures t[..k] !in d2.files
      {
        if t[..k] == lastTarget {
          assert IsPrefix(lastTarget, t);
        }
        SameOutside(d1.files, d2.files, {lastTarget}, t[..k]);
      }
      if t in d2.dirs && t !in d1.dirs {
        SyncCreatesOnlyAncestors(d1, faults, source, targetRoot, last, now, t);
      }
    }
  }

  /** Dropping the last task keeps the rest prefix-free. */
  lemma InitPrefixFree(order: seq<SourceEntry>)
    requires PrefixFree(order) && order != []
    ensures PrefixFree(order[..|order| - 1])
  {
    var init := order[..|order| - 1];
    forall i, j | 0 <= i < |init| && 0 <= j < |init| && i != j
      ensures !IsPrefix(init[i].path, init[j].path)
    {
      assert init[i] == order[i] && init[j] == order[j];
    }
  }

  /** In a prefix-free run, the tasks before the last one are prefix-free too,
      and the last task's target is neither an ancestor nor a descendant of
      theirs. */
  lemma LastTaskApart(targetRoot: Path, order: seq<SourceEntry>)
    requires AllUnder(order) && PrefixFree(order) && order != []
    ensures var init, last := order[..|order| - 1], order[|order| - 1];
      && AllUnder(init) && PrefixFree(init) && (forall e :: e in init ==> e in order)
      && forall e :: e in init ==>
           var target, lastTarget := TargetPath(targetRoot, e.path), TargetPath(targetRoot, last.path);
           !IsPrefix(target, lastTarget) && !IsPrefix(lastTarget, target)
  {
    var n := |order|;
    var init, last := order[..n - 1], order[n - 1];
    assert forall e :: e in init ==> e in order;
    InitPrefixFree(order);
    forall e | e in init
      ensures !IsPrefix(TargetPath(targetRoot, e.path), TargetPath(targetRoot, last.path))
      ensures !IsPrefix(TargetPath(targetRoot, last.path), TargetPath(targetRoot, e.path))
    {
      var i :| 0 <= i < n - 1 && init[i] == e;
      assert order[i] == e;
      TargetPathPrefix(targetRoot, e.path, last.path);
      TargetPathPrefix(targetRoot, last.path, e.path);
    }
  }

  /** A run in which every source file is present and every target is
      unobstructed, with no task's target on the way to another's, succeeds
      for every file, in any completion order. */
  lemma {:induction false} RunSucceeds(d: Disk, faults: Faults, source: SourceFiles, targetRoot: Path,
                                       order: seq<SourceEntry>, now: int)
    requires AllUnder(order) && PrefixFree(order)
    requires forall e :: e in order ==>
               e.path in source && Unobstructed(d, faults, TargetPath(targetRoot, e.path))
    ensures forall k :: 0 <= k < |order| ==> RunSteps(d, faults, source, targetRoot, order, now).1[k].Ok?
    decreases |order|
  {
    if order != [] {
      var n := |order|;
      var init, last := order[..n - 1], order[n - 1];
      LastTaskApart(targetRoot, order);
      RunSucceeds(d, faults, source, targetRoot, init, now);
      var lastTarget := TargetPath(targetRoot, last.path);
      assert last in order;
      RunKeepsUnobstructed(d, faults, source, targetRoot, init, now, lastTarget);
      var r1 := RunSteps(d, faults, source, targetRoot, init, now);
      SyncSucceeds(r1.0, faults, source, targetRoot, last, now);
      assert order == init + [last];
      RunStepsSnoc(d, faults, source, targetRoot, init, last, now);
      var r := RunSteps(d, faults, source, targetRoot, order, now).1;
      forall k | 0 <= k < n
        ensures r[k].Ok?
      {
        if k < n - 1 {
          assert r[k] == r1.1[k];
        }
      }
    }
  }

  // ---------------------------------------------------------------------
  // The run loop and `main_async`.

  /** `tasks.next()`: the next task to complete, whichever it is, together
      with its result; `None` once every task has completed. */
  method NextCompletion(vol: TargetVolume, pool: TaskPool, targetRoot: Path, source: SourceFiles, now: int)
    returns (done: Option<(SourceEntry, Outcome)>)
    requires AllUnder(pool.pending)
    modifies vol, pool
    ensures done.None? <==> old(pool.pending) == []
    ensures done.None? ==> pool.pending == [] && vol.State() == old(vol.State())
    ensures done.Some? ==>
      && multiset(pool.pending) + multiset{done.value.0} == multiset(old(pool.pending))
      && |pool.pending| + 1 == |old(pool.pending)|
      && AllUnder(pool.pending) && Under(done.value.0.path, SourceRoot)
      && (vol.State(), done.value.1) == SyncStep(old(vol.State()), vol.faults, source, targetRoot, done.value.0, now)
  {
    var next := pool.Next();
    if next.None? {
      return None;
    }
    assert forall e :: e in pool.pending ==> e in multiset(old(pool.pending));
    var outcome := SyncFile(vol, targetRoot, next.value, source, now);
    done := Some((next.value, outcome));
  }

  /** The completion loop of `main_async`: take whichever task completes
      next, count it and report it, until no task is left. Every
      completion, success or failure, advances `finished` by exactly one;
      a failure never stops the loop. */
  method Run(vol: TargetVolume, pool: TaskPool, targetRoot: Path, source: SourceFiles, now: int)
    returns (total: nat, finished: nat, log: seq<Progress>, ghost order: seq<SourceEntry>)
    requires AllUnder(pool.pending)
    modifies vol, pool
    ensures total == |old(pool.pending)| && finished == total && pool.pending == []
    ensures multiset(order) == multiset(old(pool.pending))
    ensures |log| == total
    ensures forall k :: 0 <= k < |log| ==> log[k].finished == k + 1 && log[k].total == total
    ensures AllUnder(order)
    ensures (vol.State(), Outcomes(log)) == RunSteps(old(vol.State()), vol.faults, source, targetRoot, order, now)
  {
    total := |pool.pending|;
    finished := 0;
    log := [];
    order := [];
    while true
      invariant finished == |order| == |log| && finished + |pool.pending| == total
      invariant multiset(order) + multiset(pool.pending) == multiset(old(pool.pending))
      invariant AllUnder(pool.pending) && AllUnder(order)
      invariant Counted(log, total)
      invariant (vol.State(), Outcomes(log)) == RunSteps(old(vol.State()), vol.faults, source, targetRoot, order, now)
      decreases |pool.pending|
    {
      var done := NextCompletion(vol, pool, targetRoot, source, now);
      if done.None? {
        break;
      }
      var (entry, outcome) := done.value;
      RunStepsSnoc(old(vol.State()), vol.faults, source, targetRoot, order, entry, now);
      finished := finished + 1;
      var p := Progress(finished, total, outcome);
      OutcomesSnoc(log, p);
      CountedSnoc(log, total, p);
      log := log + [p];
      order := order + [entry];
    }
  }

  /** `main_async`: without a target directory argument nothing happens (the
      usage line is output only); otherwise walk the source root, launching
      one task per file found, then run the tasks to completion. */
  method MainAsync(vol: TargetVolume, targetDir: Option<Path>, tree: Listing, source: SourceFiles, now: int)
    returns (total: nat, finished: nat, log: seq<Progress>, ghost order: seq<SourceEntry>)
    modifies vol
    ensures targetDir.None? ==> vol.State() == old(vol.State()) && total == finished == 0 && log == []
    ensures targetDir.Some? ==> total == |Walk(SourceRoot, tree)| && finished == total && |log| == total
    ensures forall k :: 0 <= k < |log| ==> log[k].finished == k + 1 && log[k].total == total
    ensures targetDir.Some? ==> multiset(order) == multiset(Walk(SourceRoot, tree)) && AllUnder(order)
    ensures targetDir.Some? ==>
      (vol.State(), Outcomes(log)) == RunSteps(old(vol.State()), vol.faults, source, targetDir.value, order, now)
  {
    if targetDir.None? {
      return 0, 0, [], [];
    }
    var pool := new TaskPool();
    WalkDir(SourceRoot, tree, pool);
    total, finished, log, order := Run(vol, pool, targetDir.value, source, now);
  }

  // ---------------------------------------------------------------------
  // The whole mirror.

  /** `order` is an order in which the tasks `launched` can complete: every
      launched task exactly once, and nothing else. */
  ghost predicate CompletionOrder(order: seq<SourceEntry>, launched: seq<SourceEntry>) {
    multiset(order) == multiset(launched) && forall e :: e in order ==> e in launched
  }

  lemma {:induction false} DistinctCountsOnce(t: seq<SourceEntry>, x: SourceEntry)
    requires PathsDistinct(t)
    ensures multiset(t)[x] <= 1
    decreases |t|
  {
    if t != [] {
      var init, last := t[..|t| - 1], t[|t| - 1];
      assert t == init + [last];
      assert PathsDistinct(init);
      DistinctCountsOnce(init, x);
    }
  }

  lemma RepeatCountsTwice(s: seq<SourceEntry>, i: nat, j: nat)
    requires i < j < |s| && s[i] == s[j]
    ensures multiset(s)[s[i]] >= 2
  {
    assert s == s[..j] + [s[j]] + s[j + 1..];
    assert s[i] in s[..j];
  }

  lemma PrefixFreeDistinct(s: seq<SourceEntry>)
    requires PrefixFree(s)
    ensures PathsDistinct(s)
  {
    forall i, j | 0 <= i < j < |s|
      ensures s[i].path != s[j].path
    {
      assert !IsPrefix(s[i].path, s[j].path);
    }
  }

  /** Any completion order of tasks whose paths are prefix-free is itself
      prefix-free. */
  lemma PrefixFreePermutation(s: seq<SourceEntry>, t: seq<SourceEntry>)
    requires multiset(s) == multiset(t) && PrefixFree(t)
    ensures PrefixFree(s)
  {
    PrefixFreeDistinct(t);
    forall i, j | 0 <= i < |s| && 0 <= j < |s| && i != j
      ensures !IsPrefix(s[i].path, s[j].path)
    {
      if s[i] == s[j] {
        if i < j {
          RepeatCountsTwice(s, i, j);
        } else {
          RepeatCountsTwice(s, j, i);
        }
        DistinctCountsOnce(t, s[i]);
      } else {
        assert s[i] in multiset(t) && s[j] in multiset(t);
        var a :| 0 <= a < |t| && t[a] == s[i];
        var b :| 0 <= b < |t| && t[b] == s[j];
        assert a != b;
      }
    }
  }

  /** The mirror is idempotent: in a well-formed source tree that does not
      change between runs and whose modification times can be read, once a
      run has succeeded for every file found, a second run, in whatever
      completion order, leaves the target volume unchanged and reports every
      file up to date. */
  lemma MirrorIsIdempotent(tree: Listing, d: Disk, faults: Faults, source: SourceFiles, targetRoot: Path,
                           first: seq<SourceEntry>, second: seq<SourceEntry>, now: int, later: int)
    requires WellFormed(tree)
    requires forall e :: e in Walk(SourceRoot, tree) ==> Consistent(source, e) && e.meta.modified.Some?
    requires forall e :: e in Walk(SourceRoot, tree) ==> TargetPath(targetRoot, e.path) !in faults.noProbe
    requires CompletionOrder(first, Walk(SourceRoot, tree))
    requires CompletionOrder(second, Walk(SourceRoot, tree))
    requires forall k :: 0 <= k < |first| ==> RunSteps(d, faults, source, targetRoot, first, now).1[k].Ok?
    ensures var d1 := RunSteps(d, faults, source, targetRoot, first, now).0;
      var r := RunSteps(d1, faults, source, targetRoot, second, later);
      && r.0 == d1
      && forall k :: 0 <= k < |second| ==> r.1[k] == Ok(Synced(RelativePath(second[k].path), false))
  {
    WalkReportsEachFileOnce(SourceRoot, tree);
    PrefixFreePermutation(first, Walk(SourceRoot, tree));
    PrefixFreeDistinct(first);
    forall e | e in second
      ensures e in first
    {
      assert e in multiset(Walk(SourceRoot, tree));
    }
    SecondRunIsNoOp(d, faults, source, targetRoot, first, second, now, later);
  }
}
