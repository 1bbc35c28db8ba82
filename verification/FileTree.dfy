/** A file tree whose operations may fail at any time, and the failure-tolerant move built on them. */
module FileTree {
  import opened Wrappers

  type Path = seq<string>

  datatype Node =
    | File(content: string, mode: nat)
    | Symlink(target: string)
    | Dir(mode: nat)

  type Tree = map<Path, Node>

  function Parent(p: Path): Path
    requires p != []
  {
    p[..|p| - 1]
  }

  function Get(t: Tree, p: Path): Option<Node> {
    if p in t then Some(t[p]) else None
  }

  predicate InDirectory(t: Tree, p: Path) {
    p != [] ==> Parent(p) in t && t[Parent(p)].Dir?
  }

  /** Every entry other than the root lies in a directory. */
  ghost predicate WellFormed(t: Tree) {
    && (forall p {:trigger InDirectory(t, p)} :: p in t ==> InDirectory(t, p))
    && ([] in t ==> t[[]].Dir?)
  }

  /** `p` is `root` or lies below it. */
  predicate Under(p: Path, root: Path) {
    root <= p
  }

  predicate Apart(p: Path, q: Path) {
    !Under(p, q) && !Under(q, p)
  }

  ghost predicate NothingAt(t: Tree, root: Path) {
    forall p :: p in t ==> !Under(p, root)
  }

  /** The tree `a` at `p` and the tree `b` at `q` hold the same entries. */
  ghost predicate SameSubtree(a: Tree, p: Path, b: Tree, q: Path) {
    forall s: Path :: Get(a, p + s) == Get(b, q + s)
  }

  ghost predicate SameOutside(a: Tree, b: Tree, roots: set<Path>) {
    forall p :: (forall r :: r in roots ==> !Under(p, r)) ==> Get(a, p) == Get(b, p)
  }

  /** An entry's ancestors exist and are directories. */
  lemma {:induction false} AncestorIsDir(t: Tree, p: Path, root: Path)
    requires WellFormed(t) && p in t && Under(p, root)
    ensures root in t && (p != root ==> t[root].Dir?)
    decreases |p|
  {
    if p != root {
      assert InDirectory(t, p);
      assert Under(Parent(p), root);
      AncestorIsDir(t, Parent(p), root);
    }
  }

  lemma AbsentMeansNothing(t: Tree, root: Path)
    requires WellFormed(t) && root !in t
    ensures NothingAt(t, root)
  {
    forall p | p in t ensures !Under(p, root) {
      if Under(p, root) { AncestorIsDir(t, p, root); }
    }
  }

  lemma UnderSplit(p: Path, root: Path)
    requires Under(p, root)
    ensures p == root + p[|root|..]
  {
  }

  lemma UnderConcat(p: Path, s: Path, root: Path)
    ensures Under(p + s, root) ==> Under(p, root) || Under(root, p)
  {
    if Under(p + s, root) {
      if |root| <= |p| {
        assert root == (p + s)[..|root|] == p[..|root|];
      } else {
        assert p == (p + s)[..|root|][..|p|] == root[..|p|];
      }
    }
  }

  /** Subtrees apart from every changed root are unchanged. */
  lemma ApartIsUnchanged(a: Tree, b: Tree, roots: set<Path>, p: Path)
    requires SameOutside(a, b, roots)
    requires forall r :: r in roots ==> Apart(p, r)
    ensures SameSubtree(a, p, b, p)
  {
    forall s: Path ensures Get(a, p + s) == Get(b, p + s) {
      forall r | r in roots ensures !Under(p + s, r) {
        UnderConcat(p, s, r);
      }
    }
  }

  // ---------------------------------------------------------------------
  // What the operating system's calls do when they succeed.

  function Below(t: Tree, root: Path): set<Path> {
    set p | p in t && Under(p, root)
  }

  function Without(t: Tree, root: Path): Tree {
    map p | p in t && !Under(p, root) :: t[p]
  }

  function MovedKeys(t: Tree, from: Path, to: Path): set<Path> {
    (set p | p in t && !Under(p, from) && !Under(p, to)) +
    (set p | p in t && Under(p, from) :: to + p[|from|..])
  }

  /** The entry at `p` after renaming `from` to `to`: whatever was at `to` is replaced. */
  function MovedAt(t: Tree, from: Path, to: Path, p: Path): Option<Node> {
    if Under(p, to) then Get(t, from + p[|to|..])
    else if Under(p, from) then None
    else Get(t, p)
  }

  function Moved(t: Tree, from: Path, to: Path): (r: Tree)
    ensures forall p :: Get(r, p) == MovedAt(t, from, to, p)
  {
    var keys := MovedKeys(t, from, to);
    var r := map p | p in keys && MovedAt(t, from, to, p).Some? :: MovedAt(t, from, to, p).value;
    assert forall p :: Get(r, p) == MovedAt(t, from, to, p) by {
      forall p | MovedAt(t, from, to, p).Some? ensures p in keys {
        if Under(p, to) {
          var q := from + p[|to|..];
          assert q in t && Under(q, from) && q[|from|..] == p[|to|..];
          assert p == to + q[|from|..];
        }
      }
    }
    r
  }

  /** When a rename can succeed: an existing target must be of the same sort, and an empty directory. */
  ghost predicate CanRename(t: Tree, from: Path, to: Path) {
    && from in t
    && to != [] && Parent(to) in t && t[Parent(to)].Dir?
    && Apart(from, to)
    && (to in t && t[from].Dir? ==> t[to].Dir? && Below(t, to) == {to})
    && (to in t && !t[from].Dir? ==> !t[to].Dir?)
  }

  // ---------------------------------------------------------------------
  // Well-formedness is kept by each change.

  lemma ParentUnder(p: Path, root: Path)
    requires p != []
    ensures Under(p, root) <==> p == root || Under(Parent(p), root)
  {
  }

  lemma MovedParent(t: Tree, from: Path, to: Path, p: Path)
    requires WellFormed(t) && CanRename(t, from, to)
    requires p != [] && MovedAt(t, from, to, p).Some?
    ensures MovedAt(t, from, to, Parent(p)).Some? && MovedAt(t, from, to, Parent(p)).value.Dir?
  {
    ParentUnder(p, to);
    ParentUnder(p, from);
    if p != to {
      if Under(p, to) {
        var q := from + p[|to|..];
        assert q in t && InDirectory(t, q);
        assert Parent(q) == from + Parent(p)[|to|..];
      } else {
        assert InDirectory(t, p);
      }
    }
  }

  lemma MovedIsWellFormed(t: Tree, from: Path, to: Path)
    requires WellFormed(t) && CanRename(t, from, to)
    ensures WellFormed(Moved(t, from, to))
  {
    var r := Moved(t, from, to);
    forall p | p in r ensures InDirectory(r, p) {
      assert Get(r, p) == MovedAt(t, from, to, p);
      if p != [] {
        MovedParent(t, from, to, p);
        assert Get(r, Parent(p)) == MovedAt(t, from, to, Parent(p));
      }
    }
    assert Get(r, []) == MovedAt(t, from, to, []);
  }

  /** Nothing lies below an entry that is not a directory. */
  lemma NothingBelowLeaf(t: Tree, p: Path)
    requires WellFormed(t) && p in t && !t[p].Dir?
    ensures Below(t, p) == {p}
  {
    forall q | q in t && Under(q, p) ensures q == p {
      AncestorIsDir(t, q, p);
    }
  }

  lemma WithoutIsWellFormed(t: Tree, root: Path)
    requires WellFormed(t)
    ensures WellFormed(Without(t, root))
    ensures NothingAt(Without(t, root), root)
    ensures SameOutside(t, Without(t, root), {root})
  {
    var r := Without(t, root);
    forall p | p in r ensures InDirectory(r, p) {
      assert InDirectory(t, p);
      if p != [] { ParentUnder(p, root); }
    }
    assert root in {root};
  }

  /** Placing a new entry, or replacing one by another of the same sort. */
  lemma PlacedIsWellFormed(t: Tree, p: Path, node: Node)
    requires WellFormed(t)
    requires p != [] && Parent(p) in t && t[Parent(p)].Dir?
    requires NothingAt(t, p) || (p in t && t[p].Dir? == node.Dir?)
    ensures WellFormed(t[p := node])
    ensures SameOutside(t, t[p := node], {p})
  {
    var r := t[p := node];
    forall q | q in r ensures InDirectory(r, q) {
      if q in t { assert InDirectory(t, q); }
      if q != [] { ParentUnder(q, p); }
    }
    assert Under(p, p) && p in {p};
  }

  lemma SameOutsideTrans(a: Tree, b: Tree, c: Tree, small: set<Path>, large: set<Path>)
    requires SameOutside(a, b, large) && SameOutside(b, c, small)
    requires forall r :: r in small ==> exists l :: l in large && Under(r, l)
    ensures SameOutside(a, c, large)
  {
    forall p | forall l :: l in large ==> !Under(p, l) ensures Get(a, p) == Get(c, p) {
      forall r | r in small ensures !Under(p, r) {
        var l :| l in large && Under(r, l);
        assert !Under(p, l);
        assert Under(p, r) ==> Under(p, l);
      }
    }
  }
}
