/** The model that a successful merge leaves, entry by entry. */
module FinishedModel {
  import opened Wrappers
  import opened Graph
  import opened ExecutionModel
  import opened Compounds
  import opened SharedResolve
  import opened SharedMerge
  import opened Emission
  import Availability

  // ---------------------------------------------------------------------
  // What each entry is to look like.

  /** A debug target can be started: its adapter is registered and found, and it is not disabled. */
  ghost predicate Startable(d: ResolvedDebug, commandFound: bool) {
    && d.adapterId in {"java", "lldb", "delve", "python", "node", "coreclr"}
    && d.available != Some(false)
    && (d.adapterId == "java" || commandFound)
  }

  /** Everything that the compound reaches in the mode is sound and on no cycle. */
  ghost predicate Executable(s: Scope, c: Resolved) {
    forall d :: Reaches(Edges(s), c.id, d) ==> Sound(s, d) && !OnCycle(Edges(s), d)
  }

  ghost predicate HasAvailable(debugs: seq<DebugConfiguration>, id: string) {
    exists y :: y in debugs && y.id == id && y.available
  }

  ghost predicate SameHead(r: Resolved, projectId: string, caption: string, targets: seq<string>) {
    projectId == r.projectId && caption == r.caption && targets == r.beforeLaunch
  }

  /** The debug entry of a target is available exactly if the target can be started. */
  ghost predicate TargetDebug(r: Resolved, commandFound: bool, x: DebugConfiguration) {
    && r.debug.Some?
    && x.id == "shared-debug:" + r.id && SameHead(r, x.projectId, x.caption, x.preLaunchTargets)
    && x.adapterId == r.debug.value.adapterId && x.request == r.debug.value.request
    && x.compoundConfigurationIds.None?
    && (x.available <==> Startable(r.debug.value, commandFound))
    && (x.diagnostic.None? <==> x.available)
  }

  /** The debug entry of a compound is available exactly if it has children and all of them are available. */
  ghost predicate CompoundDebug(r: Resolved, debugs: seq<DebugConfiguration>, x: DebugConfiguration) {
    && r.compound.Some?
    && x.id == "shared-debug:" + r.id && SameHead(r, x.projectId, x.caption, x.preLaunchTargets)
    && x.adapterId == "compound" && x.request == "launch"
    && (x.compoundConfigurationIds.Some? ==> |x.compoundConfigurationIds.value| == |r.compound.value| > 0)
    && (x.available <==>
          && x.compoundConfigurationIds.Some?
          && forall k :: k in x.compoundConfigurationIds.value ==> HasAvailable(debugs, k))
    && (x.diagnostic.None? <==> x.available)
  }

  ghost predicate DebugOf(r: Resolved, commandFound: bool, debugs: seq<DebugConfiguration>, x: DebugConfiguration) {
    if r.compound.Some? then CompoundDebug(r, debugs, x) else TargetDebug(r, commandFound, x)
  }

  /** The reference is the id of an entry of the file that can be debugged. */
  ghost predicate SharedTarget(p: Providers, rs: seq<Resolved>, t: string) {
    exists r :: r in rs && r.id == t &&
      (r.debug.Some? || (r.compound.Some? && Executable(Validated(p, rs, true), r)))
  }

  ghost predicate TargetRun(p: Providers, rs: seq<Resolved>, r: Resolved, x: RunConfiguration) {
    && x.id == "shared-run:" + r.id && SameHead(r, x.projectId, x.caption, x.preLaunchTargets)
    && (r.run.Some? ==> x.kind == r.kind && x.executable == r.run.value.executable)
    && (r.run.None? ==> x.kind == "debug-only" && x.executable == "__taomni_debug_only__")
    && x.compoundConfigurationIds.None?
    && (r.debug.Some? ==> x.debugConfigurationId == Some("shared-debug:" + r.id))
    && (r.debug.None? && r.debugReference.None? ==> x.debugConfigurationId == None)
    && (r.debug.None? && r.debugReference.Some? ==>
          x.debugConfigurationId == Some(if SharedTarget(p, rs, r.debugReference.value)
                                         then "shared-debug:" + r.debugReference.value
                                         else r.debugReference.value))
  }

  ghost predicate CompoundRun(r: Resolved, x: RunConfiguration) {
    && r.compound.Some?
    && x.id == "shared-run:" + r.id && SameHead(r, x.projectId, x.caption, x.preLaunchTargets)
    && x.kind == "compound" && x.executable == "__taomni_compound__"
    && x.debugConfigurationId == Some("shared-debug:" + r.id)
    && x.compoundConfigurationIds.Some?
    && (x.compoundConfigurationIds.value == [] || |x.compoundConfigurationIds.value| == |r.compound.value|)
  }

  ghost predicate RunOf(p: Providers, rs: seq<Resolved>, r: Resolved, x: RunConfiguration) {
    if r.compound.Some? then CompoundRun(r, x) else TargetRun(p, rs, r, x)
  }

  /**
   * The finished lists: the providers' entries as they were, one run entry for each entry of the file in
   * order, one debug entry for each that can be debugged, under distinct ids, and nothing else.
   */
  ghost predicate Describes(p: Providers, rs: seq<Resolved>, found: set<string>, runs: seq<RunConfiguration>,
                            debugs: seq<DebugConfiguration>)
  {
    && |runs| == |p.runs| + |rs| && p.runs <= runs
    && (forall i :: 0 <= i < |rs| ==> RunOf(p, rs, rs[i], runs[|p.runs| + i]))
    && p.debugs <= debugs && DistinctDebugIds(debugs)
    && (forall x :: x in debugs ==>
          x in p.debugs || exists r :: r in rs && DebugOf(r, r.id in found, debugs, x))
    && (forall r :: r in rs && HasDebugEntry(r) ==> exists x :: x in debugs && DebugOf(r, r.id in found, debugs, x))
  }

  // ---------------------------------------------------------------------
  // What the propagation does to one entry.

  ghost predicate Propagated(before: seq<DebugConfiguration>, after: seq<DebugConfiguration>) {
    && SameButAvailability(before, after) && OutcomeWritten(before, after)
    && forall x :: x in after ==> (!x.available <==> Availability.ReachesDown(Availability.Collect(before), x.id))
  }

  lemma CollectedStatus(debugs: seq<DebugConfiguration>, x: DebugConfiguration)
    requires DistinctDebugIds(debugs) && x in debugs
    ensures var m := Availability.Collect(debugs);
      x.id in m && m[x.id] == Availability.Status(x.available, x.diagnostic, x.compoundConfigurationIds)
  {
  }

  /** The outcome is a function of the entry, so equal entries stay equal. */
  lemma StaysDistinct(before: seq<DebugConfiguration>, after: seq<DebugConfiguration>)
    requires DistinctDebugIds(before) && OutcomeWritten(before, after)
    ensures DistinctDebugIds(after)
  {
    hide Availability.Explained, Availability.Collect;
    var m :| Availability.Explained(Availability.Collect(before), m) && WrittenBackAll(m, before, after);
    forall x, y | x in after && y in after && x.id == y.id ensures x == y {
      var i :| 0 <= i < |after| && after[i] == x;
      var j :| 0 <= j < |after| && after[j] == y;
      assert WrittenBack(m, before[i], after[i]) && WrittenBack(m, before[j], after[j]);
      assert before[i] in before && before[j] in before;
    }
  }

  /** An id leads nowhere down exactly if it names an available entry of the finished list. */
  lemma AvailableIsNotDown(before: seq<DebugConfiguration>, after: seq<DebugConfiguration>, id: string)
    requires Propagated(before, after)
    ensures var m := Availability.Collect(before);
      HasAvailable(after, id) <==> id in m && !Availability.ReachesDown(m, id)
  {
    hide Availability.ReachesDown, OutcomeWritten;
    var m := Availability.Collect(before);
    if HasAvailable(after, id) {
      var y :| y in after && y.id == id && y.available;
      var i :| 0 <= i < |after| && after[i] == y;
      assert before[i] in before && before[i].id == id;
    }
    if id in m {
      var b :| b in before && b.id == id;
      var i :| 0 <= i < |before| && before[i] == b;
      assert after[i] in after && after[i].id == id;
    }
  }

  /** An entry ends available exactly if it started so and all its children end so. */
  lemma AvailableAfter(before: seq<DebugConfiguration>, after: seq<DebugConfiguration>, i: nat)
    requires DistinctDebugIds(before) && Propagated(before, after) && i < |after|
    ensures after[i].available <==>
      && before[i].available
      && (before[i].compoundConfigurationIds.Some? ==>
            forall k :: k in before[i].compoundConfigurationIds.value ==> HasAvailable(after, k))
  {
    hide Availability.ReachesDown, Availability.Collect, OutcomeWritten, DistinctDebugIds, HasAvailable;
    var m := Availability.Collect(before);
    assert before[i] in before && after[i] in after && after[i].id == before[i].id;
    CollectedStatus(before, before[i]);
    Availability.NotReachingDownIsRecursive(m, before[i].id);
    if before[i].compoundConfigurationIds.Some? {
      forall k | k in before[i].compoundConfigurationIds.value
        ensures HasAvailable(after, k) <==> k in m && !Availability.ReachesDown(m, k)
      {
        AvailableIsNotDown(before, after, k);
      }
    }
  }

  /** An entry without children stays as it was; any other has a diagnostic afterwards exactly if it is unavailable. */
  lemma DiagnosticAfter(before: seq<DebugConfiguration>, after: seq<DebugConfiguration>, i: nat)
    requires DistinctDebugIds(before) && SameButAvailability(before, after) && OutcomeWritten(before, after)
    requires i < |after|
    ensures before[i].compoundConfigurationIds.None? ==> after[i] == before[i]
    ensures (before[i].diagnostic.None? <==> before[i].available) ==> (after[i].diagnostic.None? <==> after[i].available)
  {
    hide Availability.Collect, DistinctDebugIds;
    var m0 := Availability.Collect(before);
    var m: Availability.Table :| Availability.Explained(m0, m) && WrittenBackAll(m, before, after);
    assert before[i] in before && WrittenBack(m, before[i], after[i]);
    CollectedStatus(before, before[i]);
    var id := before[i].id;
    if m[id] != m0[id] {
      var child, reason :| Availability.Blames(m, id, child, reason);
      assert m[id].children.Some?;
    }
  }

  // ---------------------------------------------------------------------
  // What is emitted for one entry.

  /** The debug entry before the propagation: a compound is available exactly if it has children. */
  ghost predicate StartsAs(r: Resolved, commandFound: bool, x: DebugConfiguration) {
    if r.compound.None? then TargetDebug(r, commandFound, x)
    else
      && x.id == "shared-debug:" + r.id && SameHead(r, x.projectId, x.caption, x.preLaunchTargets)
      && x.adapterId == "compound" && x.request == "launch"
      && (x.compoundConfigurationIds.Some? ==> |x.compoundConfigurationIds.value| == |r.compound.value| > 0)
      && (x.available <==> x.compoundConfigurationIds.Some?)
      && (x.diagnostic.None? <==> x.available)
  }

  lemma DebugStartsAs(p: Providers, s: Scope, r: Resolved, commandFound: bool)
    requires r in s.resolved && WellFormed(p, r)
    ensures HasDebugEntry(r) ==>
      |DebugEntries(s, r, commandFound)| == 1 && StartsAs(r, commandFound, DebugEntries(s, r, commandFound)[0])
    ensures !HasDebugEntry(r) ==> DebugEntries(s, r, commandFound) == []
  {
    hide Plan, Render;
    if r.compound.Some? && PlanIds(s.(debug := true), r).Ok? { PlanHasAllChildren(s.(debug := true), r); }
  }

  /** The ids that debug references may name are those of the entries that can be debugged. */
  lemma SharedDebugIdsAreTargets(p: Providers, rs: seq<Resolved>, t: string)
    requires DistinctIds(rs)
    ensures t in SharedDebugIds(Validated(p, rs, true)) <==> SharedTarget(p, rs, t)
  {
    hide Plan, Edge, Sound;
    var s := Validated(p, rs, true);
    assert s.(debug := true) == s;
    forall r | r in rs && r.compound.Some?
      ensures PlanIds(s, r).Ok? <==> Executable(s, r)
    {
      PlanSucceedsExactly(s, r);
    }
  }

  lemma RunEntryIs(p: Providers, rs: seq<Resolved>, s: Scope, r: Resolved)
    requires DistinctIds(rs) && s.resolved == rs && r in rs && WellFormed(p, r)
    ensures RunOf(p, rs, r, RunEntry(s, r, SharedDebugIds(Validated(p, rs, true))))
  {
    hide Plan, SharedTarget, SharedDebugIds;
    if r.debugReference.Some? { SharedDebugIdsAreTargets(p, rs, r.debugReference.value); }
    if r.compound.Some? && PlanIds(s.(debug := false), r).Ok? { PlanHasAllChildren(s.(debug := false), r); }
  }

  lemma {:induction false} EmittedSoFar(p: Providers, rs: seq<Resolved>, n: nat, shared: set<string>, found: set<string>)
    requires ProviderModel(p) && ResolvedFrom(p, rs) && n <= |rs|
    ensures var lists := Emitted(p, rs, n, shared, found);
      && EmittedRuns(p, rs, n, lists.runs) && EmittedDebugs(p, rs, n, lists.debugs)
      && forall i :: 0 <= i < n ==> lists.runs[|p.runs| + i] == RunAt(p, rs, i, shared, found)
    decreases n
  {
    hide RunEntry, DebugEntries, ProviderModel, ResolvedFrom, EmittedDebugs;
    if n == 0 {
      NothingEmittedYet(p, rs);
    } else {
      EmittedSoFar(p, rs, n - 1, shared, found);
      assert rs[n - 1] in rs;
      OneMoreEmitted(p, rs, n - 1, Stage(p, rs, n - 1, shared, found, true), shared, rs[n - 1].id in found);
    }
  }

  /** Every emitted debug entry is a provider's or starts as its entry of the file wants, and none is missing. */
  lemma EmittedDebugsStart(p: Providers, rs: seq<Resolved>, shared: set<string>, found: set<string>)
    requires ResolvedFrom(p, rs)
    ensures var debugs := Emitted(p, rs, |rs|, shared, found).debugs;
      && (forall x :: x in debugs ==> x in p.debugs || exists r :: r in rs && HasDebugEntry(r) && StartsAs(r, r.id in found, x))
      && (forall r :: r in rs && HasDebugEntry(r) ==> exists x :: x in debugs && StartsAs(r, r.id in found, x))
  {
    hide DebugEntries, Emitted, Stage, StartsAs, WellFormed;
    var debugs := Emitted(p, rs, |rs|, shared, found).debugs;
    forall j | 0 <= j < |rs|
      ensures HasDebugEntry(rs[j]) ==>
        |DebugsAt(p, rs, j, shared, found)| == 1 && StartsAs(rs[j], rs[j].id in found, DebugsAt(p, rs, j, shared, found)[0])
      ensures !HasDebugEntry(rs[j]) ==> DebugsAt(p, rs, j, shared, found) == []
    {
      assert rs[j] in rs;
      StageResolved(p, rs, j, shared, found, true);
      DebugStartsAs(p, Stage(p, rs, j, shared, found, true), rs[j], rs[j].id in found);
    }
    forall x | x in debugs && x !in p.debugs
      ensures exists r :: r in rs && HasDebugEntry(r) && StartsAs(r, r.id in found, x)
    {
      DebugOrigin(p, rs, |rs|, shared, found, x);
      var j :| 0 <= j < |rs| && x in DebugsAt(p, rs, j, shared, found);
      assert rs[j] in rs;
    }
    forall r | r in rs && HasDebugEntry(r)
      ensures exists x :: x in debugs && StartsAs(r, r.id in found, x)
    {
      var j :| 0 <= j < |rs| && rs[j] == r;
      var x := DebugsAt(p, rs, j, shared, found)[0];
      assert DebugsAt(p, rs, j, shared, found) == [x];
      EntryIsEmitted(p, rs, j, shared, found, x);
    }
  }

  /** The propagation turns what an entry starts as into what it is to look like. */
  lemma EntryAfter(p: Providers, before: seq<DebugConfiguration>, after: seq<DebugConfiguration>, i: nat, r: Resolved,
                   commandFound: bool)
    requires DistinctDebugIds(before) && Propagated(before, after) && i < |after|
    requires HasDebugEntry(r) && WellFormed(p, r) && StartsAs(r, commandFound, before[i])
    ensures DebugOf(r, commandFound, after, after[i])
  {
    hide Availability.ReachesDown, Availability.Collect, OutcomeWritten, DistinctDebugIds, HasAvailable, Startable;
    AvailableAfter(before, after, i);
    DiagnosticAfter(before, after, i);
  }

  lemma DescribesRuns(p: Providers, rs: seq<Resolved>, shared: set<string>, found: set<string>)
    requires ProviderModel(p) && ResolvedFrom(p, rs) && shared == SharedDebugIds(Validated(p, rs, true))
    ensures var runs := Emitted(p, rs, |rs|, shared, found).runs;
      && |runs| == |p.runs| + |rs| && p.runs <= runs
      && forall i :: 0 <= i < |rs| ==> RunOf(p, rs, rs[i], runs[|p.runs| + i])
  {
    DistinctFromIndices(p, rs);
    EmittedSoFar(p, rs, |rs|, shared, found);
    hide Emitted, SharedDebugIds, RunOf, ProviderModel, EmittedDebugs, RunEntry, Stage, WellFormed;
    forall i | 0 <= i < |rs|
      ensures RunOf(p, rs, rs[i], RunAt(p, rs, i, shared, found))
    {
      assert rs[i] in rs;
      StageResolved(p, rs, i, shared, found, true);
      RunEntryIs(p, rs, Stage(p, rs, i, shared, found, true), rs[i]);
    }
  }

  /** What a successful merge leaves is what the file describes. */
  lemma MergeDescribes(p: Providers, rs: seq<Resolved>, found: set<string>, emitted: Lists, debugs: seq<DebugConfiguration>)
    requires ProviderModel(p) && ResolvedFrom(p, rs)
    requires emitted == Emitted(p, rs, |rs|, SharedDebugIds(Validated(p, rs, true)), found)
    requires Propagated(emitted.debugs, debugs)
    ensures Describes(p, rs, found, emitted.runs, debugs)
  {
    hide Emitted, SharedDebugIds, RunOf, DebugOf, ProviderModel, ResolvedFrom, OutcomeWritten, DistinctDebugIds,
         SameButAvailability, Validated, Availability.Collect, Availability.ReachesDown;
    DescribesRuns(p, rs, SharedDebugIds(Validated(p, rs, true)), found);
    EmittedDebugsAreDistinct(p, rs, SharedDebugIds(Validated(p, rs, true)), found);
    PropagatedParts(emitted.debugs, debugs);
    StaysDistinct(emitted.debugs, debugs);
    DescribesDebugs(p, rs, found, emitted, debugs);
  }

  lemma PropagatedParts(before: seq<DebugConfiguration>, after: seq<DebugConfiguration>)
    requires Propagated(before, after)
    ensures SameButAvailability(before, after) && OutcomeWritten(before, after)
  {
  }

  lemma EmittedDebugsAreDistinct(p: Providers, rs: seq<Resolved>, shared: set<string>, found: set<string>)
    requires ProviderModel(p) && ResolvedFrom(p, rs)
    ensures var debugs := Emitted(p, rs, |rs|, shared, found).debugs; DistinctDebugIds(debugs) && p.debugs <= debugs
  {
    hide Emitted, ProviderModel, ResolvedFrom;
    EmittedSoFar(p, rs, |rs|, shared, found);
  }

  lemma DescribesDebugs(p: Providers, rs: seq<Resolved>, found: set<string>, emitted: Lists, debugs: seq<DebugConfiguration>)
    requires ProviderModel(p) && ResolvedFrom(p, rs)
    requires emitted == Emitted(p, rs, |rs|, SharedDebugIds(Validated(p, rs, true)), found)
    requires Propagated(emitted.debugs, debugs) && DistinctDebugIds(emitted.debugs) && p.debugs <= emitted.debugs
    ensures p.debugs <= debugs
    ensures forall x :: x in debugs ==> x in p.debugs || exists r :: r in rs && DebugOf(r, r.id in found, debugs, x)
    ensures forall r :: r in rs && HasDebugEntry(r) ==> exists x :: x in debugs && DebugOf(r, r.id in found, debugs, x)
  {
    hide Emitted, SharedDebugIds, DebugOf, StartsAs, OutcomeWritten, ProviderModel, DistinctDebugIds;
    EmittedDebugsStart(p, rs, SharedDebugIds(Validated(p, rs, true)), found);
    ProviderEntriesStay(p, emitted.debugs, debugs);
    forall i, r | 0 <= i < |debugs| && r in rs && HasDebugEntry(r) && StartsAs(r, r.id in found, emitted.debugs[i])
      ensures DebugOf(r, r.id in found, debugs, debugs[i])
    {
      WellFormedEntry(p, rs, r);
      EntryAfter(p, emitted.debugs, debugs, i, r, r.id in found);
    }
    forall x | x in debugs
      ensures x in p.debugs || exists r :: r in rs && DebugOf(r, r.id in found, debugs, x)
    {
      var i :| 0 <= i < |debugs| && debugs[i] == x;
      assert emitted.debugs[i] in emitted.debugs;
    }
    forall r | r in rs && HasDebugEntry(r)
      ensures exists x :: x in debugs && DebugOf(r, r.id in found, debugs, x)
    {
      var b :| b in emitted.debugs && StartsAs(r, r.id in found, b);
      var i :| 0 <= i < |emitted.debugs| && emitted.debugs[i] == b;
      assert debugs[i] in debugs;
    }
  }

  lemma ProviderEntriesStay(p: Providers, before: seq<DebugConfiguration>, after: seq<DebugConfiguration>)
    requires ProviderModel(p) && DistinctDebugIds(before) && p.debugs <= before && Propagated(before, after)
    ensures p.debugs <= after
    ensures forall i :: 0 <= i < |after| && before[i] in p.debugs ==> after[i] == before[i]
  {
    hide Availability.ReachesDown, Availability.Collect, OutcomeWritten, DistinctDebugIds;
    forall i | 0 <= i < |after| && before[i] in p.debugs
      ensures after[i] == before[i]
    {
      DiagnosticAfter(before, after, i);
    }
    forall i | 0 <= i < |p.debugs|
      ensures after[i] == p.debugs[i]
    {
      assert before[i] == p.debugs[i] && before[i] in p.debugs;
    }
  }

  // ---------------------------------------------------------------------
  // Without a clash.

  /** The ids that the references of a compound stand for in the mode. */
  ghost predicate ChildrenOf(s: Scope, c: Resolved, ids: seq<string>) {
    && c.compound.Some? && |ids| == |c.compound.value|
    && forall i :: 0 <= i < |ids| ==> ResolveChild(s, c.compound.value[i], c.projectId) == Ok(ids[i])
  }

  /** The planned children of a compound are all its children, if it is executable. */
  lemma PlanIs(s: Scope, c: Resolved)
    requires DistinctIds(s.resolved) && c in s.resolved && c.compound.Some?
    ensures PlanIds(s, c).Ok? <==> Executable(s, c)
    ensures PlanIds(s, c).Ok? ==> ChildrenOf(s, c, PlanIds(s, c).value)
  {
    hide Plan, Edge, Sound, ResolveChild;
    PlanSucceedsExactly(s, c);
    if PlanIds(s, c).Ok? { PlanIsChildren(s, c); }
  }

  /** The entries of a compound list its children in each mode in which it is executable, and none in the other. */
  ghost predicate ListsChildren(p: Providers, rs: seq<Resolved>, c: Resolved, run: RunConfiguration, debug: DebugConfiguration) {
    var forRun, forDebug := Validated(p, rs, false), Validated(p, rs, true);
    && run.compoundConfigurationIds.Some? && c.compound.Some?
    && (if Executable(forRun, c) then ChildrenOf(forRun, c, run.compoundConfigurationIds.value)
        else run.compoundConfigurationIds.value == [])
    && (if Executable(forDebug, c)
        then debug.compoundConfigurationIds.Some? && ChildrenOf(forDebug, c, debug.compoundConfigurationIds.value)
        else debug.compoundConfigurationIds.None?)
  }

  lemma EmittedCompoundLists(p: Providers, rs: seq<Resolved>, i: nat, shared: set<string>, found: set<string>)
    requires ProviderModel(p) && ResolvedFrom(p, rs) && NoClash(p, rs) && i < |rs| && rs[i].compound.Some?
    ensures |DebugsAt(p, rs, i, shared, found)| == 1
    ensures ListsChildren(p, rs, rs[i], RunAt(p, rs, i, shared, found), DebugsAt(p, rs, i, shared, found)[0])
  {
    hide Plan, NoClash, ProviderModel, Executable, ChildrenOf, Render, Stage;
    DistinctFromIndices(p, rs);
    assert rs[i] in rs;
    PlansStayTheSame(p, rs, i, shared, found, false, rs[i]);
    PlansStayTheSame(p, rs, i, shared, found, true, rs[i]);
    StageModes(p, rs, i, shared, found);
    PlanIs(Validated(p, rs, false), rs[i]);
    PlanIs(Validated(p, rs, true), rs[i]);
  }

  lemma StageModes(p: Providers, rs: seq<Resolved>, n: nat, shared: set<string>, found: set<string>)
    requires n <= |rs|
    ensures Stage(p, rs, n, shared, found, true).resolved == rs
    ensures Stage(p, rs, n, shared, found, true).(debug := false) == Stage(p, rs, n, shared, found, false)
    ensures Stage(p, rs, n, shared, found, true).(debug := true) == Stage(p, rs, n, shared, found, true)
  {
  }

  /**
   * Without a clash, a compound's finished debug entry is available exactly if everything it reaches in
   * Debug mode is sound and free of cycles and each of its children's finished entries is available;
   * its entries list its children in each mode in which it is executable.
   */
  lemma CompoundIsFinished(p: Providers, rs: seq<Resolved>, found: set<string>, emitted: Lists,
                           debugs: seq<DebugConfiguration>, i: nat, x: DebugConfiguration)
    requires ProviderModel(p) && ResolvedFrom(p, rs) && NoClash(p, rs)
    requires emitted == Emitted(p, rs, |rs|, SharedDebugIds(Validated(p, rs, true)), found)
    requires Propagated(emitted.debugs, debugs)
    requires i < |rs| && rs[i].compound.Some? && x in debugs && x.id == "shared-debug:" + rs[i].id
    ensures |p.runs| + i < |emitted.runs| && ListsChildren(p, rs, rs[i], emitted.runs[|p.runs| + i], x)
    ensures x.available <==>
      && Executable(Validated(p, rs, true), rs[i])
      && forall reference :: reference in rs[i].compound.value ==>
           && ResolveChild(Validated(p, rs, true), reference, rs[i].projectId).Ok?
           && HasAvailable(debugs, ResolveChild(Validated(p, rs, true), reference, rs[i].projectId).value)
  {
    var shared := SharedDebugIds(Validated(p, rs, true));
    hide Emitted, SharedDebugIds, Executable, ResolveChild, OutcomeWritten, ProviderModel, NoClash, EmittedDebugs,
         HasAvailable, DebugsAt, RunAt, Availability.ReachesDown, Availability.Collect, ResolvedFrom;
    EmittedCompoundLists(p, rs, i, shared, found);
    EmittedSoFar(p, rs, |rs|, shared, found);
    EverythingEmitted(p, rs, emitted.runs, emitted.debugs);
    var b := DebugsAt(p, rs, i, shared, found)[0];
    assert DebugsAt(p, rs, i, shared, found) == [b];
    EntryIsEmitted(p, rs, i, shared, found, b);
    CompoundStarts(p, rs, i, shared, found, b);
    var k :| 0 <= k < |debugs| && debugs[k] == x;
    assert emitted.debugs[k] in emitted.debugs && emitted.debugs[k] == b;
    AvailableAfter(emitted.debugs, debugs, k);
    ChildrenByReference(Validated(p, rs, true), rs[i], debugs, x);
  }

  lemma CompoundStarts(p: Providers, rs: seq<Resolved>, i: nat, shared: set<string>, found: set<string>, b: DebugConfiguration)
    requires ResolvedFrom(p, rs) && i < |rs| && rs[i].compound.Some? && DebugsAt(p, rs, i, shared, found) == [b]
    ensures b.id == "shared-debug:" + rs[i].id && (b.available <==> b.compoundConfigurationIds.Some?)
  {
    hide Stage, DebugEntries;
    assert rs[i] in rs;
    WellFormedEntry(p, rs, rs[i]);
    StageResolved(p, rs, i, shared, found, true);
    DebugStartsAs(p, Stage(p, rs, i, shared, found, true), rs[i], rs[i].id in found);
  }

  /** All listed children are available exactly if every reference leads to an available one. */
  lemma ChildrenByReference(s: Scope, c: Resolved, debugs: seq<DebugConfiguration>, x: DebugConfiguration)
    requires c.compound.Some?
    ensures x.compoundConfigurationIds.Some? && ChildrenOf(s, c, x.compoundConfigurationIds.value) ==>
      ((forall k :: k in x.compoundConfigurationIds.value ==> HasAvailable(debugs, k)) <==>
       forall reference :: reference in c.compound.value ==>
         && ResolveChild(s, reference, c.projectId).Ok?
         && HasAvailable(debugs, ResolveChild(s, reference, c.projectId).value))
  {
    hide ResolveChild, HasAvailable;
    if x.compoundConfigurationIds.Some? && ChildrenOf(s, c, x.compoundConfigurationIds.value) {
      var ids := x.compoundConfigurationIds.value;
      forall k | k in ids
        ensures exists reference :: reference in c.compound.value && ResolveChild(s, reference, c.projectId) == Ok(k)
      {
        var j :| 0 <= j < |ids| && ids[j] == k;
        assert c.compound.value[j] in c.compound.value;
      }
      forall reference | reference in c.compound.value
        ensures exists k :: k in ids && ResolveChild(s, reference, c.projectId) == Ok(k)
      {
        var j :| 0 <= j < |ids| && c.compound.value[j] == reference;
        assert ids[j] in ids;
      }
    }
  }
}
