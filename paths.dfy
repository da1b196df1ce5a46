/** Paths as sequences of components, with the three path operations the
    sync step relies on: `strip_prefix`, `join` and `parent`. */
module Paths {
  import opened Wrappers

  type Segment = string

  /** A path is the sequence of its components; `[]` is the filesystem root. */
  type Path = seq<Segment>

  /** `p` lies strictly below `root`: `root` is a proper prefix of `p`. */
  predicate Under(p: Path, root: Path) {
    |root| < |p| && p[..|root|] == root
  }

  /** `p` is `q` or one of its ancestors. */
  predicate IsPrefix(p: Path, q: Path) {
    |p| <= |q| && q[..|p|] == p
  }

  /** `p.strip_prefix(base)`: the components of `p` after `base`, or `None`
      when `base` is not a prefix of `p`. */
  function StripPrefix(p: Path, base: Path): (r: Option<Path>)
    ensures r.Some? <==> |base| <= |p| && p[..|base|] == base
    ensures r.Some? ==> base + r.value == p
  {
    if |base| <= |p| && p[..|base|] == base then Some(p[|base|..]) else None
  }

  /** `base.join(rel)` for a relative `rel`. */
  function Join(base: Path, rel: Path): (r: Path)
    ensures |r| == |base| + |rel| && r[..|base|] == base && r[|base|..] == rel
  {
    base + rel
  }

  /** `p.parent()`, defined for every path but the root. */
  function Parent(p: Path): (r: Path)
    requires p != []
    ensures |r| + 1 == |p| && r == p[..|r|]
  {
    p[..|p| - 1]
  }

  /** The ancestors of a path's parent are the path's own ancestors. */
  lemma ParentPrefixes(p: Path)
    requires p != []
    ensures forall k :: 0 <= k <= |Parent(p)| ==> Parent(p)[..k] == p[..k]
  {
  }

  /** Joining and stripping the same base are inverse to each other. */
  lemma StripJoin(base: Path, rel: Path)
    ensures StripPrefix(Join(base, rel), base) == Some(rel)
  {
    assert (base + rel)[..|base|] == base;
    assert (base + rel)[|base|..] == rel;
  }
}
