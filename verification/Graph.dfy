/** Walks in a directed graph given by its edge relation. */
module Graph {
  type Relation<!T> = (T, T) -> bool

  /** A nonempty list of nodes, each joined to the next by an edge. */
  ghost predicate IsWalk<T(!new)>(e: Relation<T>, w: seq<T>) {
    w != [] && forall i :: 0 <= i < |w| - 1 ==> e(w[i], w[i + 1])
  }

  ghost predicate Joins<T(!new)>(e: Relation<T>, w: seq<T>, a: T, b: T) {
    IsWalk(e, w) && w[0] == a && w[|w| - 1] == b
  }

  /** Some walk, possibly of a single node, leads from `a` to `b`. */
  ghost predicate Reaches<T(!new)>(e: Relation<T>, a: T, b: T) {
    exists w :: Joins(e, w, a, b)
  }

  /** Some walk of at least one edge leads from `a` back to `a`. */
  ghost predicate OnCycle<T(!new)>(e: Relation<T>, a: T) {
    exists k :: e(a, k) && Reaches(e, k, a)
  }

  lemma ReachesSelf<T(!new)>(e: Relation<T>, a: T)
    ensures Reaches(e, a, a)
  {
    assert Joins(e, [a], a, a);
  }

  lemma ReachesPrepend<T(!new)>(e: Relation<T>, a: T, k: T, b: T)
    requires e(a, k) && Reaches(e, k, b)
    ensures Reaches(e, a, b)
  {
    var w :| Joins(e, w, k, b);
    var v := [a] + w;
    forall i | 0 <= i < |v| - 1 ensures e(v[i], v[i + 1]) {
      if i > 0 { assert e(w[i - 1], w[i]); }
    }
    assert Joins(e, v, a, b);
  }

  /** A walk is a single node or an edge followed by a walk. */
  lemma ReachesFirstStep<T(!new)>(e: Relation<T>, a: T, b: T)
    ensures Reaches(e, a, b) <==> a == b || exists k :: e(a, k) && Reaches(e, k, b)
  {
    if Reaches(e, a, b) && a != b {
      var w :| Joins(e, w, a, b);
      assert e(w[0], w[1]);
      var v := w[1..];
      forall i | 0 <= i < |v| - 1 ensures e(v[i], v[i + 1]) {
        assert e(w[i + 1], w[i + 2]);
      }
      assert Joins(e, v, w[1], b);
    }
    ReachesSelf(e, a);
    forall k | e(a, k) && Reaches(e, k, b) ensures Reaches(e, a, b) {
      ReachesPrepend(e, a, k, b);
    }
  }

  lemma ReachesAppend<T(!new)>(e: Relation<T>, a: T, k: T, b: T)
    requires Reaches(e, a, k) && e(k, b)
    ensures Reaches(e, a, b)
  {
    var w :| Joins(e, w, a, k);
    var v := w + [b];
    forall i | 0 <= i < |v| - 1 ensures e(v[i], v[i + 1]) {
      if i < |w| - 1 { assert e(w[i], w[i + 1]); }
    }
    assert Joins(e, v, a, b);
  }

  /** A cycle in part of a graph is a cycle of the graph. */
  lemma CycleInPart<T(!new)>(e: Relation<T>, f: Relation<T>, a: T)
    requires forall x, y :: e(x, y) ==> f(x, y)
    ensures OnCycle(e, a) ==> OnCycle(f, a)
  {
    if OnCycle(e, a) {
      var k :| e(a, k) && Reaches(e, k, a);
      var w :| Joins(e, w, k, a);
      assert Joins(f, w, k, a);
      assert f(a, k);
    }
  }
}
