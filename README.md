# sysinternals-updater, modelled in Dafny

`sysinternals-updater` mirrors the Sysinternals tools share
`\\live.sysinternals.com\tools` into a local target directory. It works in
four steps:

1. It walks the share recursively with `walk_dir`.
2. It launches one `sync_file` task for every readable file it finds.
3. Each task maps the source path to a target path. It then asks the
   staleness oracle `needs_update` whether the target copy is out of date.
   If it is, the task creates the parent directories, copies the bytes and
   stamps the source's modification time on the copy.
4. `main_async` drains the tasks in whatever order they complete. It counts
   each completion against the total and reports the task's result.

The project models that core on abstract data and proves what it promises.
The target volume is a map from paths to file data plus a set of
directories. The source share is a tree of directory listings. Tasks
complete in an arbitrary order.

Modules, one per part of the program:

- `Paths`: segment-sequence paths, `strip_prefix`, `join`, `parent`.
- `Staleness`: the oracle `needs_update`.
- `Tasks`: the task collection (`FuturesUnordered`) as a class with a
  pending sequence.
- `Walker`: the source tree, the walk as functions, the recursive
  `WalkDir` method that pushes tasks, and what the walk reports.
- `Volume`: the target volume, as a value (`Disk`) with its operations as
  functions, and as a class (`TargetVolume`) whose methods change it in
  place. Its operations are metadata, `create_dir_all`, `copy` and
  `set_file_mtime`, with injectable failures (`Faults`).
- `SyncTask`: `sync_file` as a method proved against the function
  `SyncStep`, with the path mapping and the single-task properties.
- `Scheduler`: the completion loop, `main_async`, and the properties of a
  whole run. A run is `RunSteps` over a completion order, which can be any
  permutation of the launched tasks.
- `Scenario`: a worked two-file mirror that exercises the run lemmas on
  concrete data.

Two details of the code shape the model:

- **Failed target probe.** Every error of the target's metadata call, not
  just "not found", becomes "no metadata" through `.ok()`
  (src/main.rs:182-184). Such a target is stale and is copied again on every
  run. The model expresses this with the `noProbe` fault: `Volume.Probe`
  answers `None` for a missing file and for a file whose metadata cannot be
  read.
- **Failure payload.** A failed task carries only the `io::Error`
  (src/main.rs:178, 233-236), not the file's path, so `Outcome` is
  `Result<Synced, IoError>`.

## Model

| member | source | states |
|---|---|---|
| Staleness.NeedsUpdate | src/main.rs:161-172 | Stale whenever the target metadata is absent, or either modification time is unreadable. When both times are present, stale exactly when the lengths differ or the times differ (inequality, not newer-than). Up to date exactly when the source time is readable and the target metadata equals the source's. |
| Paths.StripPrefix | src/main.rs:180 | Succeeds exactly when the base is a component-wise prefix of the path. The remainder appended to the base gives back the path. |
| Paths.Join | src/main.rs:181 | The joined path is the base followed by exactly the components of the relative path. |
| Paths.StripJoin | src/main.rs:180-181 | Stripping a base from base-joined-with-rel gives back exactly rel. |
| Paths.Parent | src/main.rs:185 | The parent of a non-empty path is the prefix of that path one component shorter. |
| Tasks.TaskPool.Push | src/main.rs:207 | A pushed task is appended to the pending tasks, and nothing else changes. |
| Tasks.TaskPool.Next | src/main.rs:216 | `None` exactly when nothing is pending. Otherwise it returns some pending task and removes exactly that one occurrence (multiset), shortening the pending sequence by one. |
| Walker.Walk | src/main.rs:145-159 | Every reported entry lies strictly under the directory walked. Which entries are reported, and that nothing is reported below an unreadable listing, is stated by its partner `Walker.WalkFindsExactlyTheFiles`. |
| Walker.Visit | src/main.rs:148-154 | Every entry reported for one directory entry lies under the directory, and its next component is that entry's name. An entry that failed to read has no name, so it reports nothing. |
| Walker.WalkDir | src/main.rs:145-159 | The method appends to the task pool exactly the entries `Walk` reports, in visiting order. Loop invariant: the entries reported for the first i listing entries have been pushed. |
| Walker.WalkFindsExactlyTheFiles | src/main.rs:146-154 | An entry is reported if and only if the tree holds a readable non-directory entry at that relative path with that metadata, reached through listable directories. No directory, no broken entry and nothing below an unreadable directory is reported. |
| Walker.WalkReportsEachFileOnce | src/main.rs:147-154 | In a tree whose sibling names are distinct, no reported path equals another or lies on the way to another. Every file is therefore reported once. |
| Volume.Probe | src/main.rs:182-184 | Metadata exactly when a file is there and its metadata can be read; its length and modification time are taken from the stored data. Otherwise `None`, whatever the error. |
| Volume.ApplyCreateDirAll | src/main.rs:185 | Files are never touched and directories only grow. Every directory created is a prefix of the requested path. On success the path is a directory, and on a well-formed volume so is every one of its ancestors. |
| Volume.CreateDirAllKeepsDiskOk | src/main.rs:185 | `create_dir_all` keeps a well-formed volume well-formed: no path is both a file and a directory, and every ancestor of a file or directory is a directory. |
| Volume.CopyKeepsDiskOk | src/main.rs:186 | `copy` keeps a well-formed volume well-formed. |
| Volume.SetModifiedKeepsDiskOk | src/main.rs:188-191 | `set_file_mtime` keeps a well-formed volume well-formed. |
| Volume.ApplyCopy | src/main.rs:186 | Succeeds exactly when the source file exists, the destination is not a directory, its parent is a directory and the volume allows the write. On success the destination holds the source bytes stamped with the current time, nothing else changes, and the byte count is returned. On failure nothing changes. |
| Volume.ApplySetModified | src/main.rs:188-191 | Succeeds exactly when the file exists and the volume allows the stamp. On success only that file's modification time changes, to the given one, and its content is kept. On failure nothing changes. |
| Volume.TargetVolume.Metadata | src/main.rs:182 | The method returns what `Probe` says about the current volume, and changes nothing. |
| Volume.TargetVolume.CreateDirAll | src/main.rs:185 | The method changes the volume and returns the result exactly as `ApplyCreateDirAll` describes (recursive, parent first). |
| Volume.TargetVolume.Copy | src/main.rs:186 | The method changes the volume and returns the result exactly as `ApplyCopy` describes. |
| Volume.TargetVolume.SetModified | src/main.rs:188-191 | The method changes the volume and returns the result exactly as `ApplySetModified` describes. |
| SyncTask.RelativePath | src/main.rs:180 | For a path under the source root: a non-empty relative path which, appended to the source root, gives back the path. |
| SyncTask.TargetPath | src/main.rs:181 | The target root followed by exactly the components of the source path after the source root. |
| SyncTask.TargetPathInjective | src/main.rs:180-181 | Distinct source files map to distinct target files. |
| SyncTask.TargetPathPrefix | src/main.rs:180-181 | One target path leads to another exactly when the corresponding source paths do. |
| SyncTask.SyncStep | src/main.rs:174-197 | A successful result names the relative path, and reports a download exactly when the oracle said stale. When not stale, the volume is unchanged and the result is (relative path, false). A download leaves the target holding the source bytes and the source modification time. No file other than the target changes, and directories only grow. |
| SyncTask.SyncStepKeepsDiskOk | src/main.rs:184-193 | A task keeps a well-formed volume well-formed. |
| SyncTask.SyncUnreadableTargetIsCopied | src/main.rs:182-184 | A target whose metadata cannot be read counts as stale, so a successful task on it always reports a download. |
| SyncTask.SyncCreatesOnlyAncestors | src/main.rs:185 | The only directories a task creates are proper ancestors of its target. |
| SyncTask.SyncFile | src/main.rs:174-197 | The method changes the volume and returns the outcome exactly as `SyncStep` describes: probe, decide, create parents, copy, stamp, with the first failure returned. |
| SyncTask.SyncLeavesUpToDate | src/main.rs:184-195 | After a successful task, the oracle says the target is up to date. This holds when the source length matches the walked metadata, the source time is readable and the target's metadata can be read. |
| SyncTask.SyncTwiceIsNoOp | src/main.rs:184-195 | A second sync of the same file after a successful first one changes nothing and reports (relative path, false), when the target's metadata can be read. |
| SyncTask.CreateDirAllSucceeds | src/main.rs:185 | `create_dir_all` succeeds when no prefix of the path is a file or refused. |
| SyncTask.SyncSucceeds | src/main.rs:184-193 | A task succeeds when its source file is present and nothing is in the way of its target. |
| Scheduler.RunSteps | src/main.rs:216-238 | One outcome per completed task, and each success names that task's relative path. Files other than the tasks' targets are never touched, and directories only grow. |
| Scheduler.RunDecidesEachFile | src/main.rs:184-195 | Whatever the completion order, each successful task reports a download exactly when its target was stale before the run. A downloaded file ends with the source bytes and time. A file reported up to date was present before the run and ends with exactly the same bytes and time. |
| Scheduler.RunLeavesUpToDate | src/main.rs:184-195 | After a run, the oracle says every successfully synced file is up to date when its source time and its target's metadata can be read. |
| Scheduler.RunKeepsDiskOk | src/main.rs:216-238 | A run keeps a well-formed volume well-formed, in any completion order. |
| Scheduler.RunSkipsUpToDate | src/main.rs:184-216 | A run over up-to-date files changes nothing and reports every file up to date. |
| Scheduler.SecondRunIsNoOp | src/main.rs:184-216 | After a run in which every task succeeded, a second run over those files (in any order, at any time) leaves the volume unchanged and reports every file up to date, provided every target's metadata can be read. |
| Scheduler.RunKeepsUnobstructed | src/main.rs:185-191 | A run keeps a target unobstructed when every task's target is either that target or neither its ancestor nor its descendant. |
| Scheduler.RunSucceeds | src/main.rs:184-216 | Every task of a run succeeds, in any completion order, when each source file is present, each target is unobstructed at the start and no task's path leads to another's. |
| Scheduler.NextCompletion | src/main.rs:216 | `tasks.next()`: `None` exactly when no task is left, and then nothing changes. Otherwise one pending task is removed and run to completion, and its result is the `SyncStep` of that task. |
| Scheduler.Run | src/main.rs:210-238 | `total` is the number of launched tasks. `finished` goes up by exactly one per completion (progress line k says k+1 of `total`), success or failure, and ends equal to `total`. The completion order is a permutation of the launched tasks. The volume and the reported outcomes are `RunSteps` over that order. |
| Scheduler.MainAsync | src/main.rs:199-238 | Without a target argument nothing happens. Otherwise `total` is the number of files the walk found, every one of them completes once (multiset), and the volume and outcomes are `RunSteps` over that completion order. |
| Scheduler.PrefixFreePermutation | src/main.rs:216 | Reordering the walk's entries keeps them prefix-free, so any completion order inherits what the walk guarantees. |
| Scheduler.MirrorIsIdempotent | src/main.rs:145-238 | For a tree with distinct sibling names, a source that agrees with the walked metadata with readable times, and targets whose metadata can be read: once every task of a mirror run succeeded, a second mirror run (any completion order) leaves the target unchanged and reports every file up to date. |
| Scenario.ScenarioWalk | src/main.rs:145-159 | The two-file share `a/b.txt`, `a/c/d.txt` is walked to exactly those two entries, in listing order. |
| Scenario.ScenarioFirstRun | src/main.rs:174-238 | Mirroring into an empty volume downloads both files in either completion order. Each target holds the source bytes and modification time. |
| Scenario.ScenarioSecondRun | src/main.rs:174-238 | Mirroring again copies nothing and reports both files up to date. |
| Scenario.ScenarioRewrittenWalk | src/main.rs:145-159 | After the rewrite, the share is walked to the same two files, `a/b.txt` with its new metadata. |
| Scenario.ScenarioRewrite | src/main.rs:161-197 | On any volume where both targets are up to date and unobstructed: after `a/b.txt` is rewritten with the same length and a newer time, the next run over the walk of the rewritten share, in either completion order, downloads `a/b.txt` only. That file gets the new bytes and time, and the `a/c/d.txt` target keeps its exact file data. |
| Scenario.ScenarioMirrorThenRewrite | src/main.rs:145-238 | Mirror into an empty volume, rewrite `a/b.txt`, mirror again (any completion orders): `a/b.txt` ends with the new bytes and time, and `a/c/d.txt` still holds the bytes and time the first run copied. |

## Left out

- The tokio runtime and `block_on` (src/main.rs:252-257) are not modelled. Neither is the interleaving of concurrently running tasks in `FuturesUnordered`: each task runs whole at its completion point, and the completion order is arbitrary.
- Real file-system and network I/O is replaced by values: the share is a `Listing` tree and the target is a `Disk` of files and directories. Which operations fail is a parameter (`Faults`), not the environment.
- Only four kinds of I/O error are distinguished: not found, already exists, is a directory, permission denied.
- The clock is a parameter `now`. It stamps copies before `set_file_mtime` overwrites the stamp.
- `SyncStep`: when the source modification time cannot be read, the model stamps "no time". The `filetime` crate's fallback value is not modelled.
- Volume.ApplyCopy: a copy fails all at once, before anything is written, so a failed copy never touches the destination. The program's `copy` (src/main.rs:186) opens the destination, truncating it, and then transfers the bytes. An error part-way through can leave the target truncated or partly written while the task reports the error. The next run copies it again, because its length differs.
- Volume.ApplyCopy: the copy's own modification time is the parameter `now`. The platform's copy may keep the source's time instead. The difference shows only when `set_file_mtime` then fails (src/main.rs:188-191).
- Volume.Probe: a target that is a directory is probed as absent rather than given directory metadata, so the task copies and fails with "is a directory". The program reads the directory's own metadata instead. If that length and time happen to equal the source's, the program reports the file up to date where the model's task fails.
- A well-formed volume (`DiskOk`) is preserved by every operation, but no contract requires it: the operations are also defined on volumes no real file system could hold.
- Symbolic links are treated as non-directory entries, as `file_type()` reports them.
- Logging, the progress line format and the usage message are not modelled. The model records each progress line as (finished, total, outcome).
- Argument parsing becomes an optional target directory.
- The lint attribute block has no behaviour and is not modelled.
- The walker's visitor is fixed to the one the program passes: push a sync task.
- The source share is assumed not to change during a run. The source bytes a copy reads are a map given for the whole run.
