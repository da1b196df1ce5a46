/** The sync task (`sync_file`): mirror one discovered source file into the
    target directory when the staleness oracle says it is out of date. */
module SyncTask {
  import opened Wrappers
  import opened Paths
  import opened Staleness
  import opened Tasks
  import opened Volume

  /** The fixed source root, `\\live.sysinternals.com\tools`, as a single
      component (the UNC prefix). */
  const SourceRoot: Path := [@"\\live.sysinternals.com\tools"]

  /** A successful task's result: the file's path relative to the source
      root, and whether its content was copied. */
  datatype Synced = Synced(relative: Path, downloaded: bool)

  /** The result of one task; a failure carries only the I/O error. */
  type Outcome = Result<Synced, IoError>

  /** `source_path.strip_prefix(SOURCE).unwrap()`. */
  function RelativePath(p: Path): (rel: Path)
    requires Under(p, SourceRoot)
    ensures |rel| > 0 && SourceRoot + rel == p
  {
    StripPrefix(p, SourceRoot).value
  }

  /** `target_dir.join(relative_path)`: the target root followed by exactly
      the components of the source path after the source root. */
  function TargetPath(targetRoot: Path, p: Path): (t: Path)
    requires Under(p, SourceRoot)
    ensures |t| == |targetRoot| + |p| - |SourceRoot| && |t| > |targetRoot|
    ensures t[..|targetRoot|] == targetRoot
    ensures forall i :: |SourceRoot| <= i < |p| ==> t[|targetRoot| + i - |SourceRoot|] == p[i]
  {
    Join(targetRoot, RelativePath(p))
  }

  /** Distinct source files map to distinct target files. */
  lemma TargetPathInjective(targetRoot: Path, p: Path, q: Path)
    requires Under(p, SourceRoot) && Under(q, SourceRoot)
    requires TargetPath(targetRoot, p) == TargetPath(targetRoot, q)
    ensures p == q
  {
    var t := TargetPath(targetRoot, p);
    assert RelativePath(p) == t[|targetRoot|..] == RelativePath(q);
  }

  /** Target paths are ancestors of each other exactly when their source
      paths are. */
  lemma TargetPathPrefix(targetRoot: Path, p: Path, q: Path)
    requires Under(p, SourceRoot) && Under(q, SourceRoot)
    ensures IsPrefix(TargetPath(targetRoot, p), TargetPath(targetRoot, q)) <==> IsPrefix(p, q)
  {
    var tp, tq := TargetPath(targetRoot, p), TargetPath(targetRoot, q);
    assert tp == targetRoot + RelativePath(p) && tq == targetRoot + RelativePath(q);
    assert p == SourceRoot + RelativePath(p) && q == SourceRoot + RelativePath(q);
    if IsPrefix(tp, tq) {
      assert RelativePath(q)[..|RelativePath(p)|] == tq[..|tp|][|targetRoot|..];
    }
    if IsPrefix(p, q) {
      assert RelativePath(q)[..|RelativePath(p)|] == q[..|p|][|SourceRoot|..];
    }
  }

  /** The effect and result of one task on target volume `d`: probe the
      target, and if it is stale create its parent directories, copy the
      source bytes and stamp the source's modification time, stopping at the
      first failure. */
  function SyncStep(d: Disk, faults: Faults, source: SourceFiles, targetRoot: Path,
                    entry: SourceEntry, now: int): (r: (Disk, Outcome))
    requires Under(entry.path, SourceRoot)
    ensures var target := TargetPath(targetRoot, entry.path);
      && (r.1.Ok? ==> r.1.value.relative == RelativePath(entry.path))
      && (r.1.Ok? ==> (r.1.value.downloaded <==> NeedsUpdate(entry.meta, Probe(d, faults, target))))
      && (!NeedsUpdate(entry.meta, Probe(d, faults, target)) ==> r == (d, Ok(Synced(RelativePath(entry.path), false))))
      && (r.1.Ok? && r.1.value.downloaded ==>
            entry.path in source && target in r.0.files &&
            r.0.files[target] == FileData(source[entry.path], entry.meta.modified))
      && r.0.files - {target} == d.files - {target}
      && d.dirs <= r.0.dirs
  {
    var relative := RelativePath(entry.path);
    var target := Join(targetRoot, relative);
    if !NeedsUpdate(entry.meta, Probe(d, faults, target)) then
      (d, Ok(Synced(relative, false)))
    else
      var (d1, created) := ApplyCreateDirAll(d, faults, Parent(target));
      if created.Err? then (d1, Err(created.error))
      else
        var (d2, copied) := ApplyCopy(d1, faults, source, entry.path, target, now);
        if copied.Err? then (d2, Err(copied.error))
        else
          var (d3, stamped) := ApplySetModified(d2, faults, target, entry.meta.modified);
          if stamped.Err? then (d3, Err(stamped.error))
          else (d3, Ok(Synced(relative, true)))
  }

  /** A task keeps a well-formed volume well-formed. */
  lemma SyncStepKeepsDiskOk(d: Disk, faults: Faults, source: SourceFiles, targetRoot: Path,
                            entry: SourceEntry, now: int)
    requires Under(entry.path, SourceRoot) && DiskOk(d)
    ensures DiskOk(SyncStep(d, faults, source, targetRoot, entry, now).0)
  {
    var target := TargetPath(targetRoot, entry.path);
    if NeedsUpdate(entry.meta, Probe(d, faults, target)) {
      var (d1, created) := ApplyCreateDirAll(d, faults, Parent(target));
      CreateDirAllKeepsDiskOk(d, faults, Parent(target));
      if created.Ok? {
        var (d2, copied) := ApplyCopy(d1, faults, source, entry.path, target, now);
        CopyKeepsDiskOk(d1, faults, source, entry.path, target, now);
        if copied.Ok? {
          SetModifiedKeepsDiskOk(d2, faults, target, entry.meta.modified);
        }
      }
    }
  }

  /** A target whose metadata cannot be read counts as absent, so a task
      that succeeds on it always copies, run after run. */
  lemma SyncUnreadableTargetIsCopied(d: Disk, faults: Faults, source: SourceFiles, targetRoot: Path,
                                     entry: SourceEntry, now: int)
    requires Under(entry.path, SourceRoot) && TargetPath(targetRoot, entry.path) in faults.noProbe
    ensures var r := SyncStep(d, faults, source, targetRoot, entry, now);
      r.1.Ok? ==> r.1.value.downloaded
  {
  }

  /** The only directories a task creates are ancestors of its target. */
  lemma SyncCreatesOnlyAncestors(d: Disk, faults: Faults, source: SourceFiles, targetRoot: Path,
                                 entry: SourceEntry, now: int, q: Path)
    requires Under(entry.path, SourceRoot)
    requires q in SyncStep(d, faults, source, targetRoot, entry, now).0.dirs && q !in d.dirs
    ensures var target := TargetPath(targetRoot, entry.path);
      |q| < |target| && IsPrefix(q, target)
  {
    var target := TargetPath(targetRoot, entry.path);
    assert Parent(target) == target[..|target| - 1];
    if NeedsUpdate(entry.meta, Probe(d, faults, target)) {
      var d1 := ApplyCreateDirAll(d, faults, Parent(target)).0;
      assert q in d1.dirs;
      assert q == Parent(target)[..|q|];
    }
  }

  /** `sync_file`: the task itself, changing the target volume in place. */
  method SyncFile(vol: TargetVolume, targetRoot: Path, entry: SourceEntry, source: SourceFiles, now: int)
    returns (r: Outcome)
    requires Under(entry.path, SourceRoot)
    modifies vol
    ensures (vol.State(), r) == SyncStep(old(vol.State()), vol.faults, source, targetRoot, entry, now)
  {
    var relative := RelativePath(entry.path);
    var target := Join(targetRoot, relative);
    var targetMeta := vol.Metadata(target);
    if NeedsUpdate(entry.meta, targetMeta) {
      var created := vol.CreateDirAll(Parent(target));
      if created.Err? {
        return Err(created.error);
      }
      var copied := vol.Copy(source, entry.path, target, now);
      if copied.Err? {
        return Err(copied.error);
      }
      var stamped := vol.SetModified(target, entry.meta.modified);
      if stamped.Err? {
        return Err(stamped.error);
      }
      r := Ok(Synced(relative, true));
    } else {
      r := Ok(Synced(relative, false));
    }
  }

  /** The source did not change under the walker: a file still present has
      the length its metadata reported. */
  predicate Consistent(source: SourceFiles, entry: SourceEntry) {
    entry.path in source ==> |source[entry.path]| == entry.meta.len
  }

  /** After a successful task the oracle reports the target up to date,
      provided the source's modification time can be read. */
  lemma SyncLeavesUpToDate(d: Disk, faults: Faults, source: SourceFiles, targetRoot: Path,
                           entry: SourceEntry, now: int)
    requires Under(entry.path, SourceRoot)
    requires Consistent(source, entry) && entry.meta.modified.Some?
    ensures var r := SyncStep(d, faults, source, targetRoot, entry, now);
      r.1.Ok? && TargetPath(targetRoot, entry.path) !in faults.noProbe ==>
        !NeedsUpdate(entry.meta, Probe(r.0, faults, TargetPath(targetRoot, entry.path)))
  {
    var r := SyncStep(d, faults, source, targetRoot, entry, now);
    var target := TargetPath(targetRoot, entry.path);
    if r.1.Ok? && r.1.value.downloaded && target !in faults.noProbe {
      assert Probe(r.0, faults, target) == Some(entry.meta);
    }
  }

  /** Idempotence of one task: running it again right after a success
      copies nothing and reports the file up to date. */
  lemma SyncTwiceIsNoOp(d: Disk, faults: Faults, source: SourceFiles, targetRoot: Path,
                        entry: SourceEntry, now: int, later: int)
    requires Under(entry.path, SourceRoot)
    requires Consistent(source, entry) && entry.meta.modified.Some?
    requires TargetPath(targetRoot, entry.path) !in faults.noProbe
    requires SyncStep(d, faults, source, targetRoot, entry, now).1.Ok?
    ensures var d1 := SyncStep(d, faults, source, targetRoot, entry, now).0;
      SyncStep(d1, faults, source, targetRoot, entry, later) == (d1, Ok(Synced(RelativePath(entry.path), false)))
  {
    SyncLeavesUpToDate(d, faults, source, targetRoot, entry, now);
  }

  /** Nothing stands in the way of writing file `t`: no directory is there,
      no ancestor of it is a file, and the volume refuses none of the writes
      the task makes. */
  ghost predicate Unobstructed(d: Disk, faults: Faults, t: Path) {
    && t !in d.dirs && t !in faults.noCreate && t !in faults.noStamp
    && forall k :: 0 < k < |t| ==> t[..k] !in d.files && t[..k] !in faults.noCreate
  }

  /** `create_dir_all` succeeds when no ancestor on the way is a file and the
      volume refuses none of them. */
  lemma {:induction false} CreateDirAllSucceeds(d: Disk, faults: Faults, p: Path)
    requires forall k :: 0 < k <= |p| ==> p[..k] !in d.files && p[..k] !in faults.noCreate
    ensures ApplyCreateDirAll(d, faults, p).1.Ok?
    decreases |p|
  {
    if !IsDir(d, p) {
      var parent := Parent(p);
      forall k | 0 < k <= |parent|
        ensures parent[..k] !in d.files && parent[..k] !in faults.noCreate
      {
        assert parent[..k] == p[..k];
      }
      CreateDirAllSucceeds(d, faults, parent);
      assert p[..|p|] == p;
    }
  }

  /** A task whose source file is present and whose target is unobstructed
      succeeds. */
  lemma SyncSucceeds(d: Disk, faults: Faults, source: SourceFiles, targetRoot: Path,
                     entry: SourceEntry, now: int)
    requires Under(entry.path, SourceRoot) && entry.path in source
    requires Unobstructed(d, faults, TargetPath(targetRoot, entry.path))
    ensures SyncStep(d, faults, source, targetRoot, entry, now).1.Ok?
  {
    var target := TargetPath(targetRoot, entry.path);
    if NeedsUpdate(entry.meta, Probe(d, faults, target)) {
      var parent := Parent(target);
      forall k | 0 < k <= |parent|
        ensures parent[..k] !in d.files && parent[..k] !in faults.noCreate
      {
        assert parent[..k] == target[..k];
      }
      CreateDirAllSucceeds(d, faults, parent);
    }
  }
}
