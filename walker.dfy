/** The directory walker (`walk_dir`): a recursive descent that hands every
    readable non-directory entry to its visitor and silently skips whatever
    cannot be read. The source tree is an inductive value: each entry of a
    directory listing is a file, a directory, or an entry that failed to
    read. */
module Walker {
  import opened Wrappers
  import opened Paths
  import opened Staleness
  import opened Tasks

  /** One entry of a directory listing. */
  datatype Node =
    /** A non-directory entry whose metadata and file type were read. */
    | File(name: Segment, meta: Metadata)
    /** A directory entry; its listing is read when the walker descends. */
    | Dir(name: Segment, listing: Listing)
    /** An entry whose `DirEntry`, `metadata()` or `file_type()` failed. */
    | Broken

  /** The outcome of `fs::read_dir` on a directory. */
  datatype Listing = Listed(entries: seq<Node>) | Unreadable

  function NameOf(node: Node): Option<Segment> {
    match node
    case File(name, _) => Some(name)
    case Dir(name, _) => Some(name)
    case Broken => None
  }

  // ---------------------------------------------------------------------
  // What the walker reports, as functions of the tree.

  /** The entries reported by walking directory `dir` whose listing is
      `listing`, in visiting order. */
  function Walk(dir: Path, listing: Listing): (found: seq<SourceEntry>)
    ensures forall e :: e in found ==> Under(e.path, dir)
    decreases listing, 1
  {
    match listing
    case Unreadable => []
    case Listed(entries) => WalkPrefix(dir, listing, |entries|)
  }

  /** What the walk has reported after the first `n` entries of `listing`. */
  function WalkPrefix(dir: Path, listing: Listing, n: nat): (found: seq<SourceEntry>)
    requires listing.Listed? && n <= |listing.entries|
    ensures forall e :: e in found ==> Under(e.path, dir)
    decreases listing, 0, n
  {
    if n == 0 then []
    else WalkPrefix(dir, listing, n - 1) + Visit(dir, listing.entries[n - 1])
  }

  /** What the walk reports for one entry of directory `dir`. */
  function Visit(dir: Path, node: Node): (found: seq<SourceEntry>)
    ensures forall e :: e in found ==> Under(e.path, dir) && NameOf(node) == Some(e.path[|dir|])
    decreases node
  {
    match node
    case File(name, meta) => [SourceEntry(dir + [name], meta)]
    case Dir(name, sub) => Walk(dir + [name], sub)
    case Broken => []
  }

  // ---------------------------------------------------------------------
  // An independent description: the readable files of a tree.

  /** The tree holds a readable non-directory entry with metadata `meta` at
      relative path `rel`, reached through directories that could be listed. */
  ghost predicate HasFile(listing: Listing, rel: Path, meta: Metadata)
    decreases listing, 1
  {
    listing.Listed? &&
    exists i :: 0 <= i < |listing.entries| && EntryHasFile(listing.entries[i], rel, meta)
  }

  ghost predicate EntryHasFile(node: Node, rel: Path, meta: Metadata)
    decreases node
  {
    match node
    case File(name, m) => rel == [name] && m == meta
    case Dir(name, sub) => |rel| > 0 && rel[0] == name && HasFile(sub, rel[1..], meta)
    case Broken => false
  }

  /** Sibling entries have distinct names, at every level: what any real
      directory guarantees. */
  ghost predicate WellFormed(listing: Listing)
    decreases listing, 1
  {
    listing.Listed? ==>
      (forall i, j :: 0 <= i < j < |listing.entries| && NameOf(listing.entries[i]).Some? ==>
         NameOf(listing.entries[i]) != NameOf(listing.entries[j])) &&
      (forall i :: 0 <= i < |listing.entries| ==> NodeWellFormed(listing.entries[i]))
  }

  ghost predicate NodeWellFormed(node: Node)
    decreases node
  {
    node.Dir? ==> WellFormed(node.listing)
  }

  /** No two reported entries share a path. */
  ghost predicate PathsDistinct(s: seq<SourceEntry>) {
    forall i, j :: 0 <= i < j < |s| ==> s[i].path != s[j].path
  }

  /** No reported path is the path of, or an ancestor of, another reported
      entry. */
  ghost predicate PrefixFree(s: seq<SourceEntry>) {
    forall i, j :: 0 <= i < |s| && 0 <= j < |s| && i != j ==> !IsPrefix(s[i].path, s[j].path)
  }

  // ---------------------------------------------------------------------
  // The walker itself.

  /** `walk_dir(dir, visitor)` with the visitor of the run: push a task for
      every reported file onto `pool`. */
  method WalkDir(dir: Path, listing: Listing, pool: TaskPool)
    modifies pool
    ensures pool.pending == old(pool.pending) + Walk(dir, listing)
    decreases listing
  {
    match listing {
      case Unreadable =>
      case Listed(entries) =>
        for i := 0 to |entries|
          invariant pool.pending == old(pool.pending) + WalkPrefix(dir, listing, i)
        {
          match entries[i] {
            case File(name, meta) =>
              pool.Push(SourceEntry(dir + [name], meta));
            case Dir(name, sub) =>
              WalkDir(dir + [name], sub, pool);
            case Broken =>
          }
        }
    }
  }

  // ---------------------------------------------------------------------
  // Properties of the walk.

  /** The walk reports exactly the readable files of the tree: an entry is
      reported for relative path `rel` with metadata `meta` if and only if the
      tree has a non-directory entry there, reached through listable
      directories. Directories, broken entries and the contents of unlistable
      directories are never reported. */
  lemma {:induction false} WalkFindsExactlyTheFiles(dir: Path, listing: Listing, rel: Path, meta: Metadata)
    ensures SourceEntry(dir + rel, meta) in Walk(dir, listing) <==> HasFile(listing, rel, meta)
    decreases listing, 1
  {
    if listing.Listed? {
      WalkPrefixFinds(dir, listing, |listing.entries|, rel, meta);
    }
  }

  lemma {:induction false} WalkPrefixFinds(dir: Path, listing: Listing, n: nat, rel: Path, meta: Metadata)
    requires listing.Listed? && n <= |listing.entries|
    ensures SourceEntry(dir + rel, meta) in WalkPrefix(dir, listing, n) <==>
            exists i :: 0 <= i < n && EntryHasFile(listing.entries[i], rel, meta)
    decreases listing, 0, n
  {
    if n > 0 {
      WalkPrefixFinds(dir, listing, n - 1, rel, meta);
      VisitFinds(dir, listing.entries[n - 1], rel, meta);
      if EntryHasFile(listing.entries[n - 1], rel, meta) {
        assert SourceEntry(dir + rel, meta) in Visit(dir, listing.entries[n - 1]);
      }
    }
  }

  lemma {:induction false} VisitFinds(dir: Path, node: Node, rel: Path, meta: Metadata)
    ensures SourceEntry(dir + rel, meta) in Visit(dir, node) <==> EntryHasFile(node, rel, meta)
    decreases node
  {
    match node
    case File(name, m) =>
      if dir + rel == dir + [name] {
        assert rel == (dir + rel)[|dir|..] == (dir + [name])[|dir|..] == [name];
      }
    case Dir(name, sub) =>
      if |rel| > 0 && rel[0] == name {
        assert dir + rel == (dir + [name]) + rel[1..];
        WalkFindsExactlyTheFiles(dir + [name], sub, rel[1..], meta);
      } else if SourceEntry(dir + rel, meta) in Visit(dir, node) {
        assert false;
      }
    case Broken =>
  }

  /** In a well-formed tree the walk reports every file exactly once, and
      no reported path lies on the way to another: no two reported entries
      share a path, and no reported path is an ancestor of another. */
  lemma {:induction false} WalkReportsEachFileOnce(dir: Path, listing: Listing)
    requires WellFormed(listing)
    ensures PrefixFree(Walk(dir, listing)) && PathsDistinct(Walk(dir, listing))
    decreases listing, 1
  {
    if listing.Listed? {
      WalkPrefixOnce(dir, listing, |listing.entries|);
    }
  }

  lemma {:induction false} WalkPrefixOnce(dir: Path, listing: Listing, n: nat)
    requires WellFormed(listing) && listing.Listed? && n <= |listing.entries|
    ensures PrefixFree(WalkPrefix(dir, listing, n))
    decreases listing, 0, n
  {
    if n > 0 {
      var entries := listing.entries;
      var a, b := WalkPrefix(dir, listing, n - 1), Visit(dir, entries[n - 1]);
      WalkPrefixOnce(dir, listing, n - 1);
      assert NodeWellFormed(entries[n - 1]);
      VisitOnce(dir, entries[n - 1]);
      forall x, y | x in a && y in b
        ensures x.path[|dir|] != y.path[|dir|]
      {
        var rel := x.path[|dir|..];
        assert x.path == dir + rel;
        WalkPrefixFinds(dir, listing, n - 1, rel, x.meta);
        var i :| 0 <= i < n - 1 && EntryHasFile(entries[i], rel, x.meta);
        NameOfFile(entries[i], rel, x.meta);
        assert NameOf(entries[i]) == Some(x.path[|dir|]);
      }
      PrefixFreeConcat(dir, a, b);
    }
  }

  lemma {:induction false} VisitOnce(dir: Path, node: Node)
    requires NodeWellFormed(node)
    ensures PrefixFree(Visit(dir, node))
    decreases node
  {
    if node.Dir? {
      WalkReportsEachFileOnce(dir + [node.name], node.listing);
    }
  }

  lemma NameOfFile(node: Node, rel: Path, meta: Metadata)
    requires EntryHasFile(node, rel, meta)
    ensures |rel| > 0 && NameOf(node) == Some(rel[0])
  {
  }

  /** Two prefix-free runs of entries below `dir` that part ways at the
      first component after `dir` concatenate to a prefix-free run. */
  lemma PrefixFreeConcat(dir: Path, a: seq<SourceEntry>, b: seq<SourceEntry>)
    requires PrefixFree(a) && PrefixFree(b)
    requires forall x :: x in a + b ==> Under(x.path, dir)
    requires forall x, y :: x in a && y in b && Under(x.path, dir) && Under(y.path, dir) ==>
               x.path[|dir|] != y.path[|dir|]
    ensures PrefixFree(a + b)
  {
    var s := a + b;
    forall i, j | 0 <= i < |s| && 0 <= j < |s| && i != j
      ensures !IsPrefix(s[i].path, s[j].path)
    {
      if i < |a| && j < |a| {
        assert s[i] == a[i] && s[j] == a[j];
      } else if i >= |a| && j >= |a| {
        assert s[i] == b[i - |a|] && s[j] == b[j - |a|];
      } else {
        assert s[i] in a + b && s[j] in a + b;
        assert s[i].path[|dir|] != s[j].path[|dir|] by {
          if i < |a| {
            assert s[i] in a && s[j] in b;
          } else {
            assert s[j] in a && s[i] in b;
          }
        }
      }
    }
  }
}
