/** The target filesystem as the sync step sees it: a map from file paths to
    contents and modification times, a set of directories, and the three
    operations the step performs on it (`create_dir_all`, `copy` and
    `set_file_mtime`) together with the metadata probe. Which operations the
    volume refuses is fixed for the run by a `Faults` value. */
module Volume {
  import opened Wrappers
  import opened Paths
  import opened Staleness

  newtype byte = x: int | 0 <= x < 256

  /** A regular file: its bytes and its modification time (`None` when the
      platform cannot report it). */
  datatype FileData = FileData(content: seq<byte>, modified: Option<int>)

  /** The `io::ErrorKind`s the modelled operations can fail with. */
  datatype IoError = NotFound | AlreadyExists | IsADirectory | PermissionDenied

  /** Paths whose metadata cannot be read (access denied, for instance),
      paths at which the volume refuses to create an entry, and paths whose
      modification time it refuses to set (permissions, read-only media). */
  datatype Faults = Faults(noProbe: set<Path>, noCreate: set<Path>, noStamp: set<Path>)

  /** The contents of the volume. */
  datatype Disk = Disk(files: map<Path, FileData>, dirs: set<Path>)

  /** The source files' contents, by absolute path. */
  type SourceFiles = map<Path, seq<byte>>

  function MetadataOf(file: FileData): (m: Metadata)
    ensures m.len == |file.content| && m.modified == file.modified
  {
    Metadata(|file.content|, file.modified)
  }

  /** The root always exists as a directory. */
  predicate IsDir(d: Disk, p: Path) {
    p == [] || p in d.dirs
  }

  /** `tokio::fs::metadata(p).ok()`: the file's metadata when a file exists
      at `p` and its metadata can be read; `None` when nothing is there or
      the call fails, every error alike. */
  function Probe(d: Disk, faults: Faults, p: Path): (m: Option<Metadata>)
    ensures m.Some? <==> p in d.files && p !in faults.noProbe
    ensures m.Some? ==> m.value.len == |d.files[p].content| && m.value.modified == d.files[p].modified
  {
    if p in d.files && p !in faults.noProbe then Some(MetadataOf(d.files[p])) else None
  }

  /** What every real volume satisfies: nothing is both a file and a
      directory, and every proper ancestor of a file or a directory is a
      directory. */
  ghost predicate DiskOk(d: Disk) {
    && (forall p :: p in d.files ==> p !in d.dirs)
    && (forall p, k :: p in d.files && 0 < k < |p| ==> p[..k] in d.dirs)
    && (forall p, k :: p in d.dirs && 0 < k < |p| ==> p[..k] in d.dirs)
  }

  /** `create_dir_all(p)`: an existing directory is success; an existing
      file is `AlreadyExists`; otherwise the parent is created first, then
      `p` itself unless the volume refuses it. */
  function ApplyCreateDirAll(d: Disk, faults: Faults, p: Path): (r: (Disk, Result<(), IoError>))
    ensures r.0.files == d.files
    ensures d.dirs <= r.0.dirs
    ensures forall q :: q in r.0.dirs && q !in d.dirs ==> 0 < |q| <= |p| && q == p[..|q|]
    ensures r.1.Ok? ==> IsDir(r.0, p)
    ensures DiskOk(d) && r.1.Ok? ==> forall k :: 0 < k <= |p| ==> IsDir(r.0, p[..k])
    decreases |p|
  {
    if IsDir(d, p) then assert p[..|p|] == p; (d, Ok(()))
    else if p in d.files then (d, Err(AlreadyExists))
    else
      var (d1, res) := ApplyCreateDirAll(d, faults, Parent(p));
      if res.Err? then (d1, res)
      else if p in faults.noCreate then (d1, Err(PermissionDenied))
      else ParentPrefixes(p); assert p[..|p|] == p; (d1.(dirs := d1.dirs + {p}), Ok(()))
  }

  /** `copy(src, dst)`: the whole content of source file `src` replaces
      whatever file was at `dst`; the new file's time is the time of the copy
      (`now`). Returns the number of bytes copied. */
  function ApplyCopy(d: Disk, faults: Faults, source: SourceFiles, src: Path, dst: Path, now: int)
    : (r: (Disk, Result<nat, IoError>))
    requires dst != []
    ensures r.1.Ok? <==> src in source && !IsDir(d, dst) && IsDir(d, Parent(dst)) && dst !in faults.noCreate
    ensures r.1.Ok? ==> r.1.value == |source[src]|
    ensures r.1.Ok? ==> r.0 == d.(files := d.files[dst := FileData(source[src], Some(now))])
    ensures r.1.Err? ==> r.0 == d
  {
    if src !in source then (d, Err(NotFound))
    else if IsDir(d, dst) then (d, Err(IsADirectory))
    else if !IsDir(d, Parent(dst)) then (d, Err(NotFound))
    else if dst in faults.noCreate then (d, Err(PermissionDenied))
    else (d.(files := d.files[dst := FileData(source[src], Some(now))]), Ok(|source[src]|))
  }

  /** `set_file_mtime(p, t)`: replaces the modification time of the file at
      `p`, leaving its content alone. */
  function ApplySetModified(d: Disk, faults: Faults, p: Path, t: Option<int>): (r: (Disk, Result<(), IoError>))
    ensures r.1.Ok? <==> p in d.files && p !in faults.noStamp
    ensures r.1.Ok? ==> r.0 == d.(files := d.files[p := FileData(d.files[p].content, t)])
    ensures r.1.Err? ==> r.0 == d
  {
    if p !in d.files then (d, Err(NotFound))
    else if p in faults.noStamp then (d, Err(PermissionDenied))
    else (d.(files := d.files[p := d.files[p].(modified := t)]), Ok(()))
  }

  /** `create_dir_all` keeps a well-formed volume well-formed. */
  lemma {:induction false} CreateDirAllKeepsDiskOk(d: Disk, faults: Faults, p: Path)
    requires DiskOk(d)
    ensures DiskOk(ApplyCreateDirAll(d, faults, p).0)
    decreases |p|
  {
    if !IsDir(d, p) && p !in d.files {
      CreateDirAllKeepsDiskOk(d, faults, Parent(p));
      ParentPrefixes(p);
    }
  }

  /** `copy` keeps a well-formed volume well-formed: it only writes a file
      whose parent is a directory and which is not one. */
  lemma CopyKeepsDiskOk(d: Disk, faults: Faults, source: SourceFiles, src: Path, dst: Path, now: int)
    requires DiskOk(d) && dst != []
    ensures DiskOk(ApplyCopy(d, faults, source, src, dst, now).0)
  {
    var r := ApplyCopy(d, faults, source, src, dst, now);
    if r.1.Ok? {
      ParentPrefixes(dst);
      var parent := Parent(dst);
      forall k | 0 < k < |dst|
        ensures dst[..k] in d.dirs
      {
        assert parent != [] && parent in d.dirs;
        if k < |parent| {
          assert parent[..k] in d.dirs;
        }
      }
    }
  }

  /** `set_file_mtime` keeps a well-formed volume well-formed: no path is
      added or removed. */
  lemma SetModifiedKeepsDiskOk(d: Disk, faults: Faults, p: Path, t: Option<int>)
    requires DiskOk(d)
    ensures DiskOk(ApplySetModified(d, faults, p, t).0)
  {
    var r := ApplySetModified(d, faults, p, t);
    assert r.0.files.Keys == d.files.Keys && r.0.dirs == d.dirs;
  }

  /** The target volume, changed in place by the sync step. */
  class TargetVolume {
    var files: map<Path, FileData>
    var dirs: set<Path>
    const faults: Faults

    function State(): Disk
      reads this
    {
      Disk(files, dirs)
    }

    constructor (d: Disk, faults: Faults)
      ensures State() == d && this.faults == faults
    {
      files, dirs := d.files, d.dirs;
      this.faults := faults;
    }

    /** `tokio::fs::metadata(p)`, every error read as "no metadata", as the
        sync step does with `.ok()`. */
    method Metadata(p: Path) returns (m: Option<Metadata>)
      ensures m == Probe(State(), faults, p)
    {
      if p in files && p !in faults.noProbe {
        m := Some(MetadataOf(files[p]));
      } else {
        m := None;
      }
    }

    method CreateDirAll(p: Path) returns (r: Result<(), IoError>)
      modifies this
      ensures (State(), r) == ApplyCreateDirAll(old(State()), faults, p)
      decreases |p|
    {
      if p == [] || p in dirs {
        return Ok(());
      }
      if p in files {
        return Err(AlreadyExists);
      }
      r := CreateDirAll(Parent(p));
      if r.Err? {
        return;
      }
      if p in faults.noCreate {
        return Err(PermissionDenied);
      }
      dirs := dirs + {p};
    }

    method Copy(source: SourceFiles, src: Path, dst: Path, now: int) returns (r: Result<nat, IoError>)
      requires dst != []
      modifies this
      ensures (State(), r) == ApplyCopy(old(State()), faults, source, src, dst, now)
    {
      if src !in source {
        return Err(NotFound);
      }
      if dst == [] || dst in dirs {
        return Err(IsADirectory);
      }
      var parent := Parent(dst);
      if parent != [] && parent !in dirs {
        return Err(NotFound);
      }
      if dst in faults.noCreate {
        return Err(PermissionDenied);
      }
      files := files[dst := FileData(source[src], Some(now))];
      r := Ok(|source[src]|);
    }

    method SetModified(p: Path, t: Option<int>) returns (r: Result<(), IoError>)
      modifies this
      ensures (State(), r) == ApplySetModified(old(State()), faults, p, t)
    {
      if p !in files {
        return Err(NotFound);
      }
      if p in faults.noStamp {
        return Err(PermissionDenied);
      }
      files := files[p := FileData(files[p].content, t)];
      r := Ok(());
    }
  }
}
