/** Dependency forests built line by line along an index path. */
module DependencyForest {
  import opened Wrappers

  datatype Dependency = Dependency(
    group: string,
    artifact: string,
    version: string,
    scope: string,
    conflict: Option<string>)

  datatype Node = Node(dependency: Dependency, children: seq<Node>)

  /** A line of a printed forest: the depth (1 for the top level) and what stands there. */
  type Item = (nat, Dependency)

  function Preorder(forest: seq<Node>, depth: nat): seq<Item> {
    if forest == [] then []
    else [(depth, forest[0].dependency)] + Preorder(forest[0].children, depth + 1) + Preorder(forest[1..], depth)
  }

  // ---------------------------------------------------------------------
  // The index path.

  /** The path follows the last child from the top down to a leaf. */
  predicate Spine(forest: seq<Node>, path: seq<nat>)
    decreases path
  {
    if forest == [] then path == []
    else path != [] && path[0] == |forest| - 1 && Spine(forest[|forest| - 1].children, path[1..])
  }

  /** The path goes along last children, but may stop before the leaf. */
  predicate OnSpine(forest: seq<Node>, path: seq<nat>)
    decreases path
  {
    path != [] ==>
      && forest != [] && path[0] == |forest| - 1
      && OnSpine(forest[|forest| - 1].children, path[1..])
  }

  lemma {:induction false} TruncatedSpine(forest: seq<Node>, path: seq<nat>, n: nat)
    requires Spine(forest, path) && n <= |path|
    ensures OnSpine(forest, path[..n])
    decreases path
  {
    if n > 0 {
      TruncatedSpine(forest[|forest| - 1].children, path[1..], n - 1);
      assert path[..n][1..] == path[1..][..n - 1];
    }
  }

  /** The child list that the path leads to. */
  function ChildrenAt(forest: seq<Node>, path: seq<nat>): seq<Node>
    requires OnSpine(forest, path)
    decreases path
  {
    if path == [] then forest else ChildrenAt(forest[path[0]].children, path[1..])
  }

  /** The forest with a node appended to the child list that the path leads to. */
  function AppendAt(forest: seq<Node>, path: seq<nat>, node: Node): seq<Node>
    requires OnSpine(forest, path)
    decreases path
  {
    if path == [] then forest + [node]
    else
      var parent := forest[path[0]];
      forest[path[0] := parent.(children := AppendAt(parent.children, path[1..], node))]
  }

  lemma PreorderOfFirst(first: Node, rest: seq<Node>, depth: nat)
    ensures Preorder([first] + rest, depth) == PreorderOfTree(first, depth) + Preorder(rest, depth)
  {
    assert ([first] + rest)[1..] == rest;
  }

  function PreorderOfTree(node: Node, depth: nat): seq<Item> {
    [(depth, node.dependency)] + Preorder(node.children, depth + 1)
  }

  lemma PreorderAppendStep(first: Node, rest: seq<Node>, back: seq<Node>, depth: nat)
    requires Preorder(rest + back, depth) == Preorder(rest, depth) + Preorder(back, depth)
    ensures Preorder([first] + rest + back, depth) == Preorder([first] + rest, depth) + Preorder(back, depth)
  {
    hide *;
    PreorderOfFirst(first, rest, depth);
    PreorderOfFirst(first, rest + back, depth);
    assert [first] + rest + back == [first] + (rest + back);
  }

  lemma {:induction false} PreorderAppend(front: seq<Node>, back: seq<Node>, depth: nat)
    ensures Preorder(front + back, depth) == Preorder(front, depth) + Preorder(back, depth)
  {
    if front == [] {
      assert front + back == back;
    } else {
      hide *;
      PreorderAppend(front[1..], back, depth);
      PreorderAppendStep(front[0], front[1..], back, depth);
      assert front == [front[0]] + front[1..];
    }
  }

  lemma PreorderOfOne(node: Node, depth: nat)
    ensures Preorder([node], depth) == [(depth, node.dependency)] + Preorder(node.children, depth + 1)
  {
    assert Preorder([node][1..], depth) == [];
  }

  /** Appending along the spine adds one item, at the end of the listing. */
  lemma {:induction false} AppendExtendsPreorder(forest: seq<Node>, path: seq<nat>, d: Dependency, depth: nat)
    requires OnSpine(forest, path)
    ensures Preorder(AppendAt(forest, path, Node(d, [])), depth)
         == Preorder(forest, depth) + [(depth + |path|, d)]
    decreases path
  {
    var leaf := Node(d, []);
    if path == [] {
      PreorderAppend(forest, [leaf], depth);
      PreorderOfOne(leaf, depth);
    } else {
      var front, last := forest[..path[0]], forest[path[0]];
      var grown := last.(children := AppendAt(last.children, path[1..], leaf));
      AppendExtendsPreorder(last.children, path[1..], d, depth + 1);
      assert forest == front + [last];
      assert AppendAt(forest, path, leaf) == front + [grown];
      PreorderAppend(front, [last], depth);
      PreorderAppend(front, [grown], depth);
      PreorderOfOne(last, depth);
      PreorderOfOne(grown, depth);
    }
  }

  /** The path to the appended node is the new spine. */
  lemma {:induction false} AppendedIsSpine(forest: seq<Node>, path: seq<nat>, d: Dependency)
    requires OnSpine(forest, path)
    ensures Spine(AppendAt(forest, path, Node(d, [])), path + [|ChildrenAt(forest, path)|])
    decreases path
  {
    var full := path + [|ChildrenAt(forest, path)|];
    if path != [] {
      AppendedIsSpine(forest[path[0]].children, path[1..], d);
      assert full[1..] == path[1..] + [|ChildrenAt(forest, path)|];
    } else {
      assert full[1..] == [];
    }
  }

  /** The depth of the last item listed, 0 for an empty listing. */
  function LastDepth(items: seq<Item>): nat {
    if items == [] then 0 else items[|items| - 1].0
  }

  function Min(a: nat, b: nat): nat {
    if a < b then a else b
  }

  class Builder {
    var forest: seq<Node>
    var path: seq<nat>

    /** The path is the rightmost spine, so its length is the depth of the last node inserted. */
    ghost predicate Valid()
      reads this
    {
      Spine(forest, path) && |path| == LastDepth(Preorder(forest, 1))
    }

    constructor ()
      ensures Valid() && forest == []
    {
      forest, path := [], [];
    }

    method Clear()
      modifies this
      ensures Valid() && forest == []
    {
      forest, path := [], [];
    }

    /** Inserts exactly one node, at the requested depth or one below the previous node if that is less. */
    method Insert(depth: nat, d: Dependency)
      requires Valid() && depth >= 1
      modifies this
      ensures Valid()
      ensures Preorder(forest, 1) ==
              old(Preorder(forest, 1)) + [(Min(depth, LastDepth(old(Preorder(forest, 1))) + 1), d)]
    {
      var keep := Min(depth - 1, |path|);
      TruncatedSpine(forest, path, keep);
      path := path[..keep];
      AppendExtendsPreorder(forest, path, d, 1);
      AppendedIsSpine(forest, path, d);
      var index := |ChildrenAt(forest, path)|;
      forest := AppendAt(forest, path, Node(d, []));
      path := path + [index];
    }
  }

  // ---------------------------------------------------------------------
  // A listing determines its forest.

  lemma {:induction false} PreorderDepths(forest: seq<Node>, depth: nat)
    ensures forall i :: 0 <= i < |Preorder(forest, depth)| ==> Preorder(forest, depth)[i].0 >= depth
    ensures forest == [] <==> Preorder(forest, depth) == []
    ensures forest != [] ==> Preorder(forest, depth)[0].0 == depth
  {
    if forest != [] {
      PreorderDepths(forest[0].children, depth + 1);
      PreorderDepths(forest[1..], depth);
    }
  }

  lemma SplitIsUnique(a: seq<Item>, b: seq<Item>, c: seq<Item>, d: seq<Item>, depth: nat)
    requires a + b == c + d
    requires forall i :: 0 <= i < |a| ==> a[i].0 > depth
    requires forall i :: 0 <= i < |c| ==> c[i].0 > depth
    requires b != [] ==> b[0].0 == depth
    requires d != [] ==> d[0].0 == depth
    ensures a == c && b == d
  {
    var whole := a + b;
    assert forall k :: 0 <= k < |a| ==> whole[k].0 > depth;
    assert forall k :: 0 <= k < |c| ==> (c + d)[k].0 > depth;
    assert |a| < |whole| ==> whole[|a|].0 == depth;
    assert |c| < |whole| ==> (c + d)[|c|].0 == depth;
    assert a == whole[..|a|] == (c + d)[..|c|] == c;
    assert b == whole[|a|..] == (c + d)[|c|..] == d;
  }

  lemma PreorderOfCons(forest: seq<Node>, depth: nat)
    requires forest != []
    ensures Preorder(forest, depth)
         == [(depth, forest[0].dependency)] + (Preorder(forest[0].children, depth + 1) + Preorder(forest[1..], depth))
  {
  }

  lemma {:induction false} PreorderIsInjective(f: seq<Node>, g: seq<Node>, depth: nat)
    requires Preorder(f, depth) == Preorder(g, depth)
    ensures f == g
    decreases f
  {
    hide Preorder;
    PreorderDepths(f, depth);
    PreorderDepths(g, depth);
    if f != [] {
      PreorderDepths(f[0].children, depth + 1);
      PreorderDepths(g[0].children, depth + 1);
      PreorderDepths(f[1..], depth);
      PreorderDepths(g[1..], depth);
      PreorderOfCons(f, depth);
      PreorderOfCons(g, depth);
      SameTail((depth, f[0].dependency), Preorder(f[0].children, depth + 1) + Preorder(f[1..], depth),
               (depth, g[0].dependency), Preorder(g[0].children, depth + 1) + Preorder(g[1..], depth));
      SplitIsUnique(Preorder(f[0].children, depth + 1), Preorder(f[1..], depth),
                    Preorder(g[0].children, depth + 1), Preorder(g[1..], depth), depth);
      PreorderIsInjective(f[0].children, g[0].children, depth + 1);
      PreorderIsInjective(f[1..], g[1..], depth);
      assert f == [f[0]] + f[1..] && g == [g[0]] + g[1..];
    }
  }

  lemma SameTail<T>(x: T, a: seq<T>, y: T, b: seq<T>)
    requires [x] + a == [y] + b
    ensures x == y && a == b
  {
    assert x == ([x] + a)[0] && y == ([y] + b)[0];
    assert a == ([x] + a)[1..] && b == ([y] + b)[1..];
  }

  // ---------------------------------------------------------------------
  // Clamped listings.

  /** The listing that inserting the items one by one produces. */
  function Clamp(items: seq<Item>): seq<Item> {
    if items == [] then []
    else
      var front := Clamp(items[..|items| - 1]);
      var (depth, d) := items[|items| - 1];
      front + [(Min(depth, LastDepth(front) + 1), d)]
  }

  /** No item is more than one level below its predecessor. */
  predicate StepsByOne(items: seq<Item>, previous: nat) {
    items != [] ==> items[0].0 <= previous + 1 && StepsByOne(items[1..], items[0].0)
  }

  lemma {:induction false} StepsFront(items: seq<Item>, previous: nat)
    requires StepsByOne(items, previous) && items != []
    ensures StepsByOne(items[..|items| - 1], previous)
    ensures var front := items[..|items| - 1];
      items[|items| - 1].0 <= (if front == [] then previous else LastDepth(front)) + 1
    decreases |items|
  {
    if |items| > 1 {
      StepsFront(items[1..], items[0].0);
      assert items[..|items| - 1][1..] == items[1..][..|items| - 2];
    }
  }

  /** A listing that steps by one is not changed by clamping. */
  lemma {:induction false} ClampKeeps(items: seq<Item>)
    requires StepsByOne(items, 0)
    ensures Clamp(items) == items
    decreases |items|
  {
    if items != [] {
      StepsFront(items, 0);
      ClampKeeps(items[..|items| - 1]);
      assert items == items[..|items| - 1] + [items[|items| - 1]];
    }
  }

  lemma PreorderUnfold(forest: seq<Node>, depth: nat, rest: seq<Item>)
    requires forest != []
    ensures Preorder(forest, depth) + rest
         == [(depth, forest[0].dependency)]
            + (Preorder(forest[0].children, depth + 1) + (Preorder(forest[1..], depth) + rest))
  {
  }

  lemma StepsCons(depth: nat, d: Dependency, inner: seq<Item>)
    requires depth >= 1 && StepsByOne(inner, depth)
    ensures StepsByOne([(depth, d)] + inner, depth - 1)
  {
    assert ([(depth, d)] + inner)[1..] == inner;
  }

  lemma {:induction false} PreorderSteps(forest: seq<Node>, depth: nat, rest: seq<Item>)
    requires depth >= 1 && StepsByOne(rest, depth - 1)
    ensures StepsByOne(Preorder(forest, depth) + rest, depth - 1)
    decreases forest
  {
    if forest == [] {
      assert Preorder(forest, depth) + rest == rest;
    } else {
      var after := Preorder(forest[1..], depth) + rest;
      PreorderSteps(forest[1..], depth, rest);
      PreorderSteps(forest[0].children, depth + 1, after);
      PreorderUnfold(forest, depth, rest);
      StepsCons(depth, forest[0].dependency, Preorder(forest[0].children, depth + 1) + after);
    }
  }

  /** Inserting a forest's own listing item by item rebuilds the forest. */
  lemma ListingRebuildsForest(forest: seq<Node>, built: seq<Node>)
    requires Preorder(built, 1) == Clamp(Preorder(forest, 1))
    ensures built == forest
  {
    PreorderSteps(forest, 1, []);
    assert Preorder(forest, 1) + [] == Preorder(forest, 1);
    ClampKeeps(Preorder(forest, 1));
    PreorderIsInjective(built, forest, 1);
  }
}
