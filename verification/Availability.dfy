/** The loop that propagates "unavailable" from debug entries to the compounds above them. */
module Availability {
  import opened Wrappers
  import opened ExecutionModel
  import opened Graph

  datatype Status = Status(available: bool, diagnostic: Option<string>, children: Option<seq<string>>)

  type Table = map<string, Status>

  /** A later entry with the same id replaces an earlier one, as collecting into a map does. */
  function Collect(debugs: seq<DebugConfiguration>): (m: Table)
    ensures m.Keys == set c | c in debugs :: c.id
    ensures forall id :: id in m ==>
      exists c :: (c in debugs && c.id == id
                   && m[id] == Status(c.available, c.diagnostic, c.compoundConfigurationIds))
  {
    if debugs == [] then map[]
    else
      var last := debugs[|debugs| - 1];
      Collect(debugs[..|debugs| - 1])
        [last.id := Status(last.available, last.diagnostic, last.compoundConfigurationIds)]
  }

  ghost predicate ChildEdge(m: Table, a: string, b: string) {
    a in m && m[a].children.Some? && b in m[a].children.value
  }

  ghost function ChildEdges(m: Table): Relation<string> {
    (a, b) => ChildEdge(m, a, b)
  }

  /** Missing from the model, or not available. */
  predicate Down(m: Table, id: string) {
    id !in m || !m[id].available
  }

  /** Some walk through compound children leads from `id` to an entry that is missing or unavailable. */
  ghost predicate ReachesDown(m: Table, id: string) {
    exists d :: Reaches(ChildEdges(m), id, d) && Down(m, d)
  }

  /** An available compound with a child that is down: the loop still has to act on it. */
  predicate Pending(m: Table, id: string) {
    && id in m && m[id].available && m[id].children.Some?
    && exists k :: k in m[id].children.value && Down(m, k)
  }

  /** The same entries with the same children, and nothing that was unavailable became available. */
  ghost predicate Lowers(m0: Table, m: Table) {
    && m.Keys == m0.Keys
    && forall id :: id in m ==> m[id].children == m0[id].children && (m[id].available ==> m0[id].available)
  }

  /** Whatever became unavailable reaches something that started unavailable or is missing. */
  ghost predicate Justified(m0: Table, m: Table) {
    forall id :: id in m && !m[id].available ==> ReachesDown(m0, id)
  }

  ghost predicate Settled(m: Table) {
    forall id :: !Pending(m, id)
  }

  ghost predicate Enumerates(ids: seq<string>, m: Table) {
    && (forall id :: id in ids <==> id in m && m[id].children.Some?)
    && (forall i, j :: 0 <= i < j < |ids| ==> ids[i] != ids[j])
  }

  function FirstDown(m: Table, children: seq<string>): (k: Option<string>)
    ensures k.Some? ==> k.value in children && Down(m, k.value)
    ensures k.None? ==> forall c :: c in children ==> !Down(m, c)
  {
    if children == [] then None
    else if Down(m, children[0]) then Some(children[0])
    else FirstDown(m, children[1..])
  }

  function Reason(m: Table, id: string): string {
    if id in m && m[id].diagnostic.Some? then m[id].diagnostic.value
    else "debug configuration is unavailable"
  }

  function Blame(child: string, reason: string): string {
    "Compound Debug child `" + child + "` is unavailable: " + reason
  }

  ghost predicate Blames(m: Table, id: string, child: string, reason: string) {
    && id in m && m[id].children.Some? && child in m[id].children.value && Down(m, child)
    && m[id].diagnostic == Some(Blame(child, reason))
  }

  /** Every entry is as it was, or became unavailable with a diagnostic that names one of its children that is down. */
  ghost predicate Explained(m0: Table, m: Table) {
    && m.Keys == m0.Keys
    && forall id :: id in m ==>
         && m[id].children == m0[id].children
         && (m[id] == m0[id] || (!m[id].available && exists child, reason :: Blames(m, id, child, reason)))
  }

  lemma ExplainedStep(m0: Table, m: Table, id: string, child: string, reason: string, status: Status)
    requires Explained(m0, m) && Lowers(m0, m) && ChildEdge(m, id, child) && Down(m, child)
    requires status == Status(false, Some(Blame(child, reason)), m[id].children)
    ensures Explained(m0, m[id := status])
  {
    var after := m[id := status];
    forall x | x in after
      ensures after[x].children == m0[x].children
      ensures after[x] == m0[x] || (!after[x].available && exists c, r :: Blames(after, x, c, r))
    {
      if x == id {
        assert Blames(after, id, child, reason);
      } else if m[x] != m0[x] {
        var c, r :| Blames(m, x, c, r);
        assert Blames(after, x, c, r);
      }
    }
  }

  lemma LoweringKeepsJustification(m0: Table, m: Table, id: string, k: string)
    requires Lowers(m0, m) && Justified(m0, m)
    requires ChildEdge(m, id, k) && Down(m, k)
    ensures ReachesDown(m0, id)
  {
    var e := ChildEdges(m0);
    assert e(id, k);
    if k !in m0 {
      ReachesSelf(e, k);
    }
    assert ReachesDown(m0, k);
    var d :| Reaches(e, k, d) && Down(m0, d);
    ReachesPrepend(e, id, k, d);
  }

  lemma JustifiedStep(m0: Table, m: Table, id: string, child: string, status: Status)
    requires Lowers(m0, m) && Justified(m0, m) && ChildEdge(m, id, child) && Down(m, child)
    ensures Justified(m0, m[id := status])
  {
    LoweringKeepsJustification(m0, m, id, child);
  }

  ghost function DownCompounds(m: Table): set<string> {
    set id | id in m && m[id].children.Some? && !m[id].available
  }

  lemma OneMoreDown(m: Table, id: string, status: Status)
    requires Pending(m, id) && !status.available && status.children == m[id].children
    ensures |DownCompounds(m[id := status])| == |DownCompounds(m)| + 1
  {
    assert DownCompounds(m[id := status]) == DownCompounds(m) + {id};
  }

  lemma AtMostAllDown(m: Table, ids: seq<string>)
    requires Enumerates(ids, m)
    ensures |DownCompounds(m)| <= |ids|
    ensures |DownCompounds(m)| == |ids| ==> Settled(m)
  {
    var all := set id | id in ids;
    DistinctSize(ids);
    assert DownCompounds(m) <= all;
    SubsetSize(DownCompounds(m), all);
    if |DownCompounds(m)| == |ids| {
      assert DownCompounds(m) == all;
      assert forall id :: Pending(m, id) ==> id in all;
    }
  }

  lemma DistinctSize(ids: seq<string>)
    requires forall i, j :: 0 <= i < j < |ids| ==> ids[i] != ids[j]
    ensures |set id | id in ids| == |ids|
  {
    if ids != [] {
      DistinctSize(ids[1..]);
      assert (set id | id in ids) == {ids[0]} + set id | id in ids[1..];
    }
  }

  lemma SubsetSize(a: set<string>, b: set<string>)
    requires a <= b
    ensures |a| <= |b| && (|a| == |b| ==> a == b)
  {
    assert b == a + (b - a);
  }

  /** One round over all compounds, in the order given, updating the table in place. */
  method Round(m0: Table, before: Table, ids: seq<string>) returns (m: Table, changed: bool)
    requires Lowers(m0, before) && Justified(m0, before) && Explained(m0, before)
    requires Enumerates(ids, before)
    ensures Lowers(m0, m) && Justified(m0, m) && Explained(m0, m)
    ensures Enumerates(ids, m)
    ensures changed ==> |DownCompounds(m)| > |DownCompounds(before)|
    ensures !changed ==> m == before && Settled(m)
  {
    hide Justified, Explained, ReachesDown;
    m, changed := before, false;
    for i := 0 to |ids|
      invariant Lowers(m0, m) && Justified(m0, m) && Explained(m0, m) && Enumerates(ids, m)
      invariant changed ==> |DownCompounds(m)| > |DownCompounds(before)|
      invariant !changed ==> m == before && forall j :: 0 <= j < i ==> !Pending(m, ids[j])
    {
      var id := ids[i];
      if m[id].available {
        var children := m[id].children.value;
        var child := FirstDown(m, children);
        if child.Some? {
          var reason := Reason(m, child.value);
          var status := Status(false, Some(Blame(child.value, reason)), Some(children));
          JustifiedStep(m0, m, id, child.value, status);
          ExplainedStep(m0, m, id, child.value, reason, status);
          OneMoreDown(m, id, status);
          m := m[id := status];
          changed := true;
        }
      }
    }
  }

  /** Some order of the table's compounds; the code uses the order of its map. */
  method ListCompounds(m: Table) returns (ids: seq<string>)
    ensures Enumerates(ids, m)
  {
    ids := [];
    var rest := m.Keys;
    while rest != {}
      invariant rest <= m.Keys
      invariant forall id :: id in ids <==> id in m.Keys - rest && m[id].children.Some?
      invariant forall i, j :: 0 <= i < j < |ids| ==> ids[i] != ids[j]
    {
      var id :| id in rest;
      if m[id].children.Some? {
        ids := ids + [id];
      }
      rest := rest - {id};
    }
  }

  /**
   * The bounded loop. The bound of one round per compound suffices, because a round that changes
   * anything lowers at least one more compound.
   */
  method Propagate(m0: Table) returns (m: Table)
    ensures Lowers(m0, m) && Explained(m0, m)
    ensures Settled(m)
    ensures forall id :: id in m ==> (!m[id].available <==> ReachesDown(m0, id))
  {
    m := m0;
    forall id | id in m && !m[id].available ensures ReachesDown(m0, id) {
      ReachesSelf(ChildEdges(m0), id);
    }
    var ids := ListCompounds(m);
    var rounds := if |ids| == 0 then 1 else |ids|;
    var round := 0;
    var settled := false;
    while round < rounds && !settled
      invariant 0 <= round <= rounds
      invariant Lowers(m0, m) && Justified(m0, m) && Explained(m0, m) && Enumerates(ids, m)
      invariant settled ==> Settled(m)
      invariant !settled ==> |DownCompounds(m)| >= round
    {
      var changed;
      m, changed := Round(m0, m, ids);
      settled := !changed;
      round := round + 1;
    }
    AtMostAllDown(m, ids);
    forall id | id in m && ReachesDown(m0, id) ensures !m[id].available {
      var d :| Reaches(ChildEdges(m0), id, d) && Down(m0, d);
      var w :| Joins(ChildEdges(m0), w, id, d);
      SettledAlongWalk(m0, m, w);
    }
  }

  /** In a settled table, whatever walks to something down is down. */
  lemma {:induction false} SettledAlongWalk(m0: Table, m: Table, w: seq<string>)
    requires Lowers(m0, m) && Settled(m)
    requires IsWalk(ChildEdges(m0), w) && Down(m0, w[|w| - 1])
    ensures Down(m, w[0])
  {
    if |w| > 1 {
      var e := ChildEdges(m0);
      assert e(w[0], w[1]);
      forall i | 0 <= i < |w[1..]| - 1 ensures e(w[1..][i], w[1..][i + 1]) {
        assert e(w[i + 1], w[i + 2]);
      }
      SettledAlongWalk(m0, m, w[1..]);
      assert !Pending(m, w[0]);
    }
  }

  // ---------------------------------------------------------------------
  // The recursive reading.

  /** `available` obeys "available itself and every child available" on the whole table. */
  ghost predicate Recursive(m: Table, available: string -> bool) {
    forall id :: id in m ==>
      (available(id) <==>
       m[id].available &&
       (m[id].children.Some? ==> forall k :: k in m[id].children.value ==> k in m && available(k)))
  }

  /** If nothing below `id` is down, an unavailable reading must descend forever, which needs a cycle. */
  lemma {:induction false} NoDescentWithoutCycle(m: Table, available: string -> bool, id: string, above: set<string>)
    requires Recursive(m, available)
    requires forall x :: !OnCycle(ChildEdges(m), x)
    requires above <= m.Keys && id in m
    requires forall a :: a in above ==> exists k :: ChildEdges(m)(a, k) && Reaches(ChildEdges(m), k, id)
    requires !ReachesDown(m, id)
    ensures available(id)
    decreases m.Keys - above
  {
    var e := ChildEdges(m);
    ReachesSelf(e, id);
    if !available(id) {
      assert m[id].children.Some?;
      var k :| k in m[id].children.value && !(k in m && available(k));
      assert e(id, k);
      forall d | Reaches(e, k, d) ensures !Down(m, d) {
        ReachesPrepend(e, id, k, d);
      }
      ReachesSelf(e, k);
      assert !OnCycle(e, id);
      assert id !in above;
      forall a | a in above + {id} ensures exists j :: e(a, j) && Reaches(e, j, k) {
        if a != id {
          var j :| e(a, j) && Reaches(e, j, id);
          ReachesAppend(e, j, id, k);
        }
      }
      NoDescentWithoutCycle(m, available, k, above + {id});
    }
  }

  lemma {:induction false} DownMeansUnavailable(m: Table, available: string -> bool, w: seq<string>)
    requires Recursive(m, available)
    requires IsWalk(ChildEdges(m), w) && Down(m, w[|w| - 1])
    ensures w[0] in m ==> !available(w[0])
  {
    if |w| > 1 {
      var e := ChildEdges(m);
      assert e(w[0], w[1]);
      forall i | 0 <= i < |w[1..]| - 1 ensures e(w[1..][i], w[1..][i + 1]) {
        assert e(w[i + 1], w[i + 2]);
      }
      DownMeansUnavailable(m, available, w[1..]);
    }
  }

  /** Reaching nothing that is down obeys the recursive reading, on cyclic tables too. */
  lemma NotReachingDownIsRecursive(m: Table, id: string)
    requires id in m
    ensures !ReachesDown(m, id) <==>
            m[id].available && (m[id].children.Some? ==> forall k :: k in m[id].children.value ==> k in m && !ReachesDown(m, k))
  {
    var e := ChildEdges(m);
    ReachesSelf(e, id);
    if !ReachesDown(m, id) && m[id].children.Some? {
      forall k | k in m[id].children.value
        ensures k in m && !ReachesDown(m, k)
      {
        assert e(id, k);
        ReachesSelf(e, k);
        ReachesPrepend(e, id, k, k);
        forall d | Reaches(e, k, d)
          ensures !Down(m, d)
        {
          ReachesPrepend(e, id, k, d);
        }
      }
    }
    if ReachesDown(m, id) && m[id].available {
      var d :| Reaches(e, id, d) && Down(m, d);
      ReachesFirstStep(e, id, d);
      var k :| e(id, k) && Reaches(e, k, d);
      assert ReachesDown(m, k);
    }
  }

  /**
   * On an acyclic table the recursive reading has exactly one solution, and it is the one that the
   * loop computes: unavailable exactly where something down is reached.
   */
  lemma AcyclicMeansRecursive(m: Table, available: string -> bool)
    requires forall x :: !OnCycle(ChildEdges(m), x)
    ensures Recursive(m, available) <==> forall id :: id in m ==> (available(id) <==> !ReachesDown(m, id))
  {
    if Recursive(m, available) {
      forall id | id in m
        ensures available(id) <==> !ReachesDown(m, id)
      {
        OnlyRecursiveReading(m, available, id);
      }
    }
    if forall id :: id in m ==> (available(id) <==> !ReachesDown(m, id)) {
      forall id | id in m
        ensures available(id) <==>
                m[id].available && (m[id].children.Some? ==> forall k :: k in m[id].children.value ==> k in m && available(k))
      {
        NotReachingDownIsRecursive(m, id);
      }
    }
  }

  lemma OnlyRecursiveReading(m: Table, available: string -> bool, id: string)
    requires Recursive(m, available)
    requires forall x :: !OnCycle(ChildEdges(m), x)
    requires id in m
    ensures available(id) <==> !ReachesDown(m, id)
  {
    if ReachesDown(m, id) {
      var d :| Reaches(ChildEdges(m), id, d) && Down(m, d);
      var w :| Joins(ChildEdges(m), w, id, d);
      DownMeansUnavailable(m, available, w);
    } else {
      NoDescentWithoutCycle(m, available, id, {});
    }
  }
}
