/**
 * Compounds are planned again while the entries are emitted, against lists that have grown since the
 * validation. When the plans stay the same, and what follows if they do.
 */
module Emission {
  import opened Wrappers
  import opened Text
  import opened Graph
  import opened ExecutionModel
  import opened Compounds
  import opened Lookups
  import opened SharedResolve
  import opened SharedMerge
  import Availability

  /** The scope of the validation. */
  function Validated(p: Providers, rs: seq<Resolved>, debug: bool): Scope {
    Scope(rs, p.runs, p.debugs, debug)
  }

  /** The scope in which entry `n` is planned for its emission. */
  function Stage(p: Providers, rs: seq<Resolved>, n: nat, shared: set<string>, found: set<string>, debug: bool): Scope
    requires n <= |rs|
  {
    var lists := Emitted(p, rs, n, shared, found);
    Scope(rs, lists.runs, lists.debugs, debug)
  }

  /** The run entry that entry `j` becomes. */
  function RunAt(p: Providers, rs: seq<Resolved>, j: nat, shared: set<string>, found: set<string>): RunConfiguration
    requires j < |rs|
  {
    RunEntry(Stage(p, rs, j, shared, found, true), rs[j], shared)
  }

  /** The debug entry that entry `j` becomes, if it has one. */
  function DebugsAt(p: Providers, rs: seq<Resolved>, j: nat, shared: set<string>, found: set<string>)
    : seq<DebugConfiguration>
    requires j < |rs|
  {
    DebugEntries(Stage(p, rs, j, shared, found, true), rs[j], rs[j].id in found)
  }

  /** What the first `n` entries appended to the providers' lists. */
  function Appended(p: Providers, rs: seq<Resolved>, n: nat, shared: set<string>, found: set<string>): Lists
    requires n <= |rs|
  {
    if n == 0 then Lists([], [])
    else
      var before := Appended(p, rs, n - 1, shared, found);
      Lists(before.runs + [RunAt(p, rs, n - 1, shared, found)], before.debugs + DebugsAt(p, rs, n - 1, shared, found))
  }

  lemma {:induction false} EmittedIsAppended(p: Providers, rs: seq<Resolved>, n: nat, shared: set<string>,
                                             found: set<string>)
    requires n <= |rs|
    ensures var lists := Appended(p, rs, n, shared, found);
      Emitted(p, rs, n, shared, found) == Lists(p.runs + lists.runs, p.debugs + lists.debugs)
  {
    hide RunEntry, DebugEntries;
    if n > 0 { EmittedIsAppended(p, rs, n - 1, shared, found); }
  }

  lemma StageIsGrown(p: Providers, rs: seq<Resolved>, n: nat, shared: set<string>, found: set<string>, debug: bool)
    requires n <= |rs|
    ensures var lists := Appended(p, rs, n, shared, found);
      Stage(p, rs, n, shared, found, debug) == Grown(Validated(p, rs, debug), lists.runs, lists.debugs)
  {
    hide Appended, Emitted;
    EmittedIsAppended(p, rs, n, shared, found);
  }

  // ---------------------------------------------------------------------
  // Under which references an emitted entry can be found.

  function AppearingKind(r: Resolved): string {
    if r.compound.Some? then "compound" else RunKind(r)
  }

  function AppearingAdapter(r: Resolved): string {
    if r.compound.Some? then "compound" else if r.debug.Some? then r.debug.value.adapterId else ""
  }

  predicate RunAppears(r: Resolved, t: string, q: string) {
    r.projectId == q && PortableReferenceMatches(t, SHARED_RUN + r.id, AppearingKind(r), r.caption)
  }

  predicate DebugAppears(r: Resolved, t: string, q: string) {
    && (r.debug.Some? || r.compound.Some?) && r.projectId == q
    && PortableReferenceMatches(t, SHARED_DEBUG + r.id, AppearingAdapter(r), r.caption)
  }

  lemma RunEntryAppears(s: Scope, r: Resolved, shared: set<string>, t: string, q: string)
    requires r in s.resolved
    ensures RunMatches(RunEntry(s, r, shared), t, Some(q)) <==> RunAppears(r, t, q)
  {
    hide PortableReferenceMatches, PlanIds;
  }

  lemma DebugEntryAppears(s: Scope, r: Resolved, found: bool, t: string, q: string)
    requires r in s.resolved
    ensures MatchingDebugs(DebugEntries(s, r, found), t, Some(q)) ==
            if DebugAppears(r, t, q) then DebugEntries(s, r, found) else []
  {
    hide PortableReferenceMatches, PlanIds;
    var entries := DebugEntries(s, r, found);
    assert entries != [] ==> entries[1..] == [];
    assert MatchingDebugs([], t, Some(q)) == [];
  }

  /** Only the entry with that id can have contributed to the matches, and at most once. */
  ghost predicate OnlyFrom(p: Providers, rs: seq<Resolved>, n: nat, shared: set<string>, found: set<string>,
                           id: string, runs: seq<RunConfiguration>, debugs: seq<DebugConfiguration>)
    requires n <= |rs|
  {
    && (runs != [] ==> exists j :: 0 <= j < n && rs[j].id == id && runs == [RunAt(p, rs, j, shared, found)])
    && (debugs != [] ==> exists j :: 0 <= j < n && rs[j].id == id && debugs == DebugsAt(p, rs, j, shared, found))
  }

  lemma OneMoreRun(p: Providers, rs: seq<Resolved>, n: nat, shared: set<string>, found: set<string>, t: string, q: string)
    requires 0 < n <= |rs|
    ensures MatchingRuns(Appended(p, rs, n, shared, found).runs, t, Some(q)) ==
      MatchingRuns(Appended(p, rs, n - 1, shared, found).runs, t, Some(q))
      + if RunAppears(rs[n - 1], t, q) then [RunAt(p, rs, n - 1, shared, found)] else []
  {
    hide RunEntry, DebugEntries, Stage, RunAppears, RunMatches;
    var s := Stage(p, rs, n - 1, shared, found, true);
    StageResolved(p, rs, n - 1, shared, found, true);
    var entry := RunEntry(s, rs[n - 1], shared);
    MoreRuns(Appended(p, rs, n - 1, shared, found).runs, [entry], t, Some(q));
    RunEntryAppears(s, rs[n - 1], shared, t, q);
    assert [entry][1..] == [] && MatchingRuns([], t, Some(q)) == [];
  }

  lemma StageResolved(p: Providers, rs: seq<Resolved>, n: nat, shared: set<string>, found: set<string>, debug: bool)
    requires n <= |rs|
    ensures Stage(p, rs, n, shared, found, debug).resolved == rs
  {
  }

  lemma OneMoreDebug(p: Providers, rs: seq<Resolved>, n: nat, shared: set<string>, found: set<string>, t: string, q: string)
    requires 0 < n <= |rs|
    ensures MatchingDebugs(Appended(p, rs, n, shared, found).debugs, t, Some(q)) ==
      MatchingDebugs(Appended(p, rs, n - 1, shared, found).debugs, t, Some(q))
      + if DebugAppears(rs[n - 1], t, q) then DebugsAt(p, rs, n - 1, shared, found) else []
  {
    hide RunEntry, DebugEntries, Stage, DebugAppears, DebugMatches, MatchingDebugs;
    var s := Stage(p, rs, n - 1, shared, found, true);
    StageResolved(p, rs, n - 1, shared, found, true);
    MoreDebugs(Appended(p, rs, n - 1, shared, found).debugs, DebugEntries(s, rs[n - 1], rs[n - 1].id in found), t, Some(q));
    DebugEntryAppears(s, rs[n - 1], rs[n - 1].id in found, t, q);
  }

  /** No entry of the file appears under the reference. */
  ghost predicate Undisputed(rs: seq<Resolved>, t: string, q: string) {
    forall r :: r in rs ==> !RunAppears(r, t, q) && !DebugAppears(r, t, q)
  }

  lemma NothingAppended(p: Providers, rs: seq<Resolved>, shared: set<string>, found: set<string>, t: string, q: string)
    ensures MatchingRuns(Appended(p, rs, 0, shared, found).runs, t, Some(q)) == []
    ensures MatchingDebugs(Appended(p, rs, 0, shared, found).debugs, t, Some(q)) == []
  {
  }

  lemma OnlyFromNothing(p: Providers, rs: seq<Resolved>, shared: set<string>, found: set<string>, id: string)
    ensures OnlyFrom(p, rs, 0, shared, found, id, [], [])
  {
  }

  lemma {:induction false} UndisputedMatchesNoRun(p: Providers, rs: seq<Resolved>, n: nat, shared: set<string>,
                                                  found: set<string>, t: string, q: string)
    requires n <= |rs| && Undisputed(rs, t, q)
    ensures MatchingRuns(Appended(p, rs, n, shared, found).runs, t, Some(q)) == []
    decreases n
  {
    hide *;
    if n == 0 {
      NothingAppended(p, rs, shared, found, t, q);
    } else {
      UndisputedMatchesNoRun(p, rs, n - 1, shared, found, t, q);
      UndisputedAt(rs, t, q, n - 1);
      OneMoreRun(p, rs, n, shared, found, t, q);
    }
  }

  lemma {:induction false} UndisputedMatchesNoDebug(p: Providers, rs: seq<Resolved>, n: nat, shared: set<string>,
                                                    found: set<string>, t: string, q: string)
    requires n <= |rs| && Undisputed(rs, t, q)
    ensures MatchingDebugs(Appended(p, rs, n, shared, found).debugs, t, Some(q)) == []
    decreases n
  {
    hide *;
    if n == 0 {
      NothingAppended(p, rs, shared, found, t, q);
    } else {
      UndisputedMatchesNoDebug(p, rs, n - 1, shared, found, t, q);
      UndisputedAt(rs, t, q, n - 1);
      OneMoreDebug(p, rs, n, shared, found, t, q);
    }
  }

  lemma UndisputedMatchesNothing(p: Providers, rs: seq<Resolved>, n: nat, shared: set<string>, found: set<string>,
                                 t: string, q: string)
    requires n <= |rs| && Undisputed(rs, t, q)
    ensures MatchingRuns(Appended(p, rs, n, shared, found).runs, t, Some(q)) == []
    ensures MatchingDebugs(Appended(p, rs, n, shared, found).debugs, t, Some(q)) == []
  {
    hide *;
    UndisputedMatchesNoRun(p, rs, n, shared, found, t, q);
    UndisputedMatchesNoDebug(p, rs, n, shared, found, t, q);
  }

  lemma UndisputedAt(rs: seq<Resolved>, t: string, q: string, j: nat)
    requires Undisputed(rs, t, q) && j < |rs|
    ensures !RunAppears(rs[j], t, q) && !DebugAppears(rs[j], t, q)
  {
    assert rs[j] in rs;
  }

  /** Only the entry with that id appears under the reference. */
  ghost predicate AppearsAlone(rs: seq<Resolved>, t: string, q: string, id: string) {
    && (forall i, j :: 0 <= i < j < |rs| ==> rs[i].id != rs[j].id)
    && (forall r :: r in rs && (RunAppears(r, t, q) || DebugAppears(r, t, q)) ==> r.id == id)
  }

  lemma AppearsAloneAt(rs: seq<Resolved>, t: string, q: string, id: string, j: nat)
    requires AppearsAlone(rs, t, q, id) && j < |rs|
    ensures RunAppears(rs[j], t, q) || DebugAppears(rs[j], t, q) ==> rs[j].id == id
    ensures forall i :: 0 <= i < j ==> rs[i].id != rs[j].id
  {
    assert rs[j] in rs;
  }

  lemma {:induction false} AppearsOnce(p: Providers, rs: seq<Resolved>, n: nat, shared: set<string>, found: set<string>,
                                       t: string, q: string, id: string)
    requires n <= |rs| && AppearsAlone(rs, t, q, id)
    ensures OnlyFrom(p, rs, n, shared, found, id,
                     MatchingRuns(Appended(p, rs, n, shared, found).runs, t, Some(q)),
                     MatchingDebugs(Appended(p, rs, n, shared, found).debugs, t, Some(q)))
    decreases n
  {
    hide *;
    if n == 0 {
      NothingAppended(p, rs, shared, found, t, q);
      OnlyFromNothing(p, rs, shared, found, id);
    } else {
      AppearsOnce(p, rs, n - 1, shared, found, t, q, id);
      OneMoreRun(p, rs, n, shared, found, t, q);
      OneMoreDebug(p, rs, n, shared, found, t, q);
      AppearsAloneAt(rs, t, q, id, n - 1);
      OnlyFromStep(p, rs, n, shared, found, id,
                   MatchingRuns(Appended(p, rs, n - 1, shared, found).runs, t, Some(q)),
                   MatchingDebugs(Appended(p, rs, n - 1, shared, found).debugs, t, Some(q)),
                   RunAppears(rs[n - 1], t, q), DebugAppears(rs[n - 1], t, q));
    }
  }

  lemma OnlyFromStep(p: Providers, rs: seq<Resolved>, n: nat, shared: set<string>, found: set<string>, id: string,
                     runs: seq<RunConfiguration>, debugs: seq<DebugConfiguration>, runAppears: bool, debugAppears: bool)
    requires 0 < n <= |rs| && OnlyFrom(p, rs, n - 1, shared, found, id, runs, debugs)
    requires runAppears || debugAppears ==> rs[n - 1].id == id
    requires forall i :: 0 <= i < n - 1 ==> rs[i].id != rs[n - 1].id
    ensures OnlyFrom(p, rs, n, shared, found, id,
                     runs + (if runAppears then [RunAt(p, rs, n - 1, shared, found)] else []),
                     debugs + (if debugAppears then DebugsAt(p, rs, n - 1, shared, found) else []))
  {
    hide RunAt, DebugsAt;
    if runAppears { assert runs + [RunAt(p, rs, n - 1, shared, found)] == [RunAt(p, rs, n - 1, shared, found)]; }
    if debugAppears { assert debugs + DebugsAt(p, rs, n - 1, shared, found) == DebugsAt(p, rs, n - 1, shared, found); }
  }

  // ---------------------------------------------------------------------
  // The condition on the file.

  /** The reference is the id of a shared debug target, found under no other entry of the file or the providers. */
  ghost predicate LeadsToItself(p: Providers, rs: seq<Resolved>, t: string, q: string) {
    && StandsIn(rs, t)
    && ProviderDebug(p.debugs, t, Some(q)) == Ok(None) && ProviderRun(p.runs, t, Some(q)) == Ok(None)
    && forall r :: r in rs && (RunAppears(r, t, q) || DebugAppears(r, t, q)) ==> r.id == t
  }

  /** The names that a child reference is looked up by lead to no entry of the file by accident. */
  ghost predicate ReferenceIsClear(p: Providers, rs: seq<Resolved>, reference: string, q: string) {
    var name := Trim(reference);
    name == "" ||
    match FindNamed(rs, name)
    case None => Undisputed(rs, name, q)
    case Some(named) =>
      || named.debug.Some? || named.compound.Some? || named.debugReference.None?
      || Undisputed(rs, named.debugReference.value, q)
      || LeadsToItself(p, rs, named.debugReference.value, q)
  }

  ghost predicate NoClash(p: Providers, rs: seq<Resolved>) {
    forall c, x :: c in rs && c.compound.Some? && x in c.compound.value ==> ReferenceIsClear(p, rs, x, c.projectId)
  }

  lemma DistinctAreAlone(rs: seq<Resolved>, t: string, q: string)
    requires forall i, j :: 0 <= i < j < |rs| ==> rs[i].id != rs[j].id
    requires forall r :: r in rs && (RunAppears(r, t, q) || DebugAppears(r, t, q)) ==> r.id == t
    ensures AppearsAlone(rs, t, q, t)
  {
  }

  /** The entry that stands in is found under its own id. */
  lemma StandInSettles(p: Providers, rs: seq<Resolved>, n: nat, shared: set<string>, found: set<string>, t: string, q: string)
    requires n <= |rs| && LeadsToItself(p, rs, t, q)
    requires forall i, j :: 0 <= i < j < |rs| ==> rs[i].id != rs[j].id
    ensures var lists := Appended(p, rs, n, shared, found);
      var s := Validated(p, rs, true);
      TargetSettled(s, lists.runs, lists.debugs, t, q) || FindsStandIn(s, lists.runs, lists.debugs, t, q)
  {
    hide RunAppears, DebugAppears, Appended, MatchingRuns, MatchingDebugs, RunEntry, DebugEntries, Stage;
    var lists := Appended(p, rs, n, shared, found);
    DistinctAreAlone(rs, t, q);
    AppearsOnce(p, rs, n, shared, found, t, q, t);
    var runs, debugs := MatchingRuns(lists.runs, t, Some(q)), MatchingDebugs(lists.debugs, t, Some(q));
    if debugs != [] {
      var j :| 0 <= j < n && rs[j].id == t && debugs == DebugsAt(p, rs, j, shared, found);
      StageResolved(p, rs, j, shared, found, true);
      EntryShape(Stage(p, rs, j, shared, found, true), rs[j], shared, rs[j].id in found);
    } else if runs != [] {
      var j :| 0 <= j < n && rs[j].id == t && runs == [RunAt(p, rs, j, shared, found)];
      StageResolved(p, rs, j, shared, found, true);
      StandInIs(rs, j, t);
      OwnDebugId(Stage(p, rs, j, shared, found, true), rs[j], shared);
    }
  }

  lemma StandInIs(rs: seq<Resolved>, j: nat, t: string)
    requires j < |rs| && rs[j].id == t && StandsIn(rs, t)
    requires forall i, k :: 0 <= i < k < |rs| ==> rs[i].id != rs[k].id
    ensures rs[j].debug.Some? || rs[j].compound.Some?
  {
    var r := FindShared(rs, t).value;
    var i :| 0 <= i < |rs| && rs[i] == r;
  }

  lemma OwnDebugId(s: Scope, r: Resolved, shared: set<string>)
    requires r in s.resolved && (r.debug.Some? || r.compound.Some?)
    ensures RunEntry(s, r, shared).debugConfigurationId == Some(SHARED_DEBUG + r.id)
  {
  }

  lemma ReferenceSettles(p: Providers, rs: seq<Resolved>, n: nat, shared: set<string>, found: set<string>, debug: bool,
                         reference: string, q: string)
    requires n <= |rs| && ReferenceIsClear(p, rs, reference, q)
    requires forall i, j :: 0 <= i < j < |rs| ==> rs[i].id != rs[j].id
    ensures var lists := Appended(p, rs, n, shared, found);
      ChildSettled(Validated(p, rs, debug), lists.runs, lists.debugs, reference, q)
  {
    hide Appended, MatchingRuns, MatchingDebugs, Trim, Undisputed, LeadsToItself, FindsStandIn;
    var name := Trim(reference);
    var named := FindNamed(rs, name);
    if named.None? {
      if name != "" { UndisputedMatchesNothing(p, rs, n, shared, found, name, q); }
    } else if named.value.debugReference.Some? {
      var t := named.value.debugReference.value;
      if Undisputed(rs, t, q) { UndisputedMatchesNothing(p, rs, n, shared, found, t, q); }
      if LeadsToItself(p, rs, t, q) { StandInSettles(p, rs, n, shared, found, t, q); }
    }
  }

  lemma ProviderDebugIdsExist(p: Providers, rs: seq<Resolved>, debug: bool)
    requires ProviderModel(p)
    ensures DebugIdsExist(Validated(p, rs, debug))
  {
    forall x | x in p.runs && x.debugConfigurationId.Some?
      ensures exists y :: y in p.debugs && y.id == x.debugConfigurationId.value
    {
      assert ClosedRun(p.targets, p.runs, p.debugs, x);
    }
  }

  /** Without a clash, every plan made during the emission is the plan of the validation. */
  lemma PlansStayTheSame(p: Providers, rs: seq<Resolved>, n: nat, shared: set<string>, found: set<string>, debug: bool,
                         c: Resolved)
    requires ProviderModel(p) && ResolvedFrom(p, rs) && NoClash(p, rs) && n <= |rs| && c in rs
    ensures PlanIds(Stage(p, rs, n, shared, found, debug), c) == PlanIds(Validated(p, rs, debug), c)
  {
    hide Appended, Plan, Stage, ChildSettled, ProviderModel, ReferenceIsClear;
    var lists := Appended(p, rs, n, shared, found);
    StageIsGrown(p, rs, n, shared, found, debug);
    ProviderDebugIdsExist(p, rs, debug);
    forall d, x | d in rs && d.compound.Some? && x in d.compound.value
      ensures ChildSettled(Validated(p, rs, debug), lists.runs, lists.debugs, x, d.projectId)
    {
      ReferenceSettles(p, rs, n, shared, found, debug, x, d.projectId);
    }
    PlanUnchanged(Validated(p, rs, debug), lists.runs, lists.debugs, c, []);
  }

  /**
   * Without a clash, every compound of a checked file keeps a mode: its emitted run entry or its
   * emitted debug entry lists all of its children.
   */
  lemma AcceptedCompoundKeepsMode(p: Providers, rs: seq<Resolved>, i: nat, shared: set<string>, found: set<string>)
    requires ProviderModel(p) && ResolvedFrom(p, rs) && Checked(p, rs) && NoClash(p, rs)
    requires i < |rs| && rs[i].compound.Some?
    ensures var s := Stage(p, rs, i, shared, found, true);
      var n := |rs[i].compound.value|;
      n > 0 &&
      (|RunEntry(s, rs[i], shared).compoundConfigurationIds.value| == n
       || (CompoundDebugEntry(rs[i], PlanIds(s, rs[i])).compoundConfigurationIds.Some?
           && |CompoundDebugEntry(rs[i], PlanIds(s, rs[i])).compoundConfigurationIds.value| == n))
  {
    hide ProviderModel, NoClash, Plan, IsCycleError;
    var c := rs[i];
    assert c in rs;
    WellFormedEntry(p, rs, c);
    PlansStayTheSame(p, rs, i, shared, found, false, c);
    PlansStayTheSame(p, rs, i, shared, found, true, c);
    assert Accepted(Validated(p, rs, true), c);
    var run, debug := PlanIds(Validated(p, rs, false), c), PlanIds(Validated(p, rs, true), c);
    if run.Ok? { PlanHasAllChildren(Validated(p, rs, false), c); }
    if debug.Ok? { PlanHasAllChildren(Validated(p, rs, true), c); }
    assert Stage(p, rs, i, shared, found, true).(debug := false) == Stage(p, rs, i, shared, found, false);
  }

  lemma PlanHasAllChildren(s: Scope, c: Resolved)
    requires c in s.resolved && c.compound.Some? && PlanIds(s, c).Ok?
    ensures |PlanIds(s, c).value| == |c.compound.value|
  {
  }

  // ---------------------------------------------------------------------
  // The emitted children form no cycle.

  /** Every edge leaves a compound of the file for a child of its plan. */
  ghost predicate FollowsPlans(s: Scope, e: Relation<string>, prefix: string) {
    forall a, b :: e(a, b) ==> exists c :: PlanEdge(s, c, prefix, a, b)
  }

  ghost predicate PlanEdge(s: Scope, c: Resolved, prefix: string, a: string, b: string) {
    c in s.resolved && c.compound.Some? && a == prefix + c.id && PlanIds(s, c).Ok? && b in PlanIds(s, c).value
  }

  function Prefix(s: Scope): string {
    if s.debug then SHARED_DEBUG else SHARED_RUN
  }

  /** Two edges in a row follow an edge of the compound graph. */
  lemma EdgeBetweenCompounds(s: Scope, e: Relation<string>, a: string, b: string, z: string)
    requires DistinctIds(s.resolved) && FollowsPlans(s, e, Prefix(s)) && e(a, b) && e(b, z)
    ensures |Prefix(s)| <= |a| && |Prefix(s)| <= |b| && Edge(s, a[|Prefix(s)|..], b[|Prefix(s)|..])
  {
    var c :| PlanEdge(s, c, Prefix(s), a, b);
    var d :| PlanEdge(s, d, Prefix(s), b, z);
    assert a[|Prefix(s)|..] == c.id && b[|Prefix(s)|..] == d.id;
    hide Plan, FirstFailure;
    FindSharedWhenDistinct(s.resolved, c);
    FindSharedWhenDistinct(s.resolved, d);
    StripPrefixOfConcat(Prefix(s), d.id);
    PlanIsChildren(s, c);
    assert TargetOf(s, b) == Nested(d);
  }

  lemma PlanIsChildren(s: Scope, c: Resolved)
    requires c in s.resolved && PlanIds(s, c).Ok?
    ensures ResolveChildren(s, c) == Ok(PlanIds(s, c).value)
  {
  }

  /** A walk whose end has an edge is a walk in the compound graph. */
  lemma {:induction false} WalkBetweenCompounds(s: Scope, e: Relation<string>, w: seq<string>, z: string)
    requires DistinctIds(s.resolved) && FollowsPlans(s, e, Prefix(s))
    requires IsWalk(e, w) && e(w[|w| - 1], z)
    ensures |Prefix(s)| <= |w[0]| && |Prefix(s)| <= |w[|w| - 1]|
    ensures Reaches(Edges(s), w[0][|Prefix(s)|..], w[|w| - 1][|Prefix(s)|..])
    decreases |w|
  {
    hide Edge, FollowsPlans;
    if |w| == 1 {
      StartsAtCompound(s, e, w[0], z);
      ReachesSelf(Edges(s), w[0][|Prefix(s)|..]);
    } else {
      assert e(w[0], w[1]);
      forall i | 0 <= i < |w[1..]| - 1
        ensures e(w[1..][i], w[1..][i + 1])
      {
        assert e(w[i + 1], w[i + 2]);
      }
      WalkBetweenCompounds(s, e, w[1..], z);
      var next := if |w| == 2 then z else w[2];
      assert e(w[1], next);
      EdgeBetweenCompounds(s, e, w[0], w[1], next);
      assert Edges(s)(w[0][|Prefix(s)|..], w[1][|Prefix(s)|..]);
      ReachesPrepend(Edges(s), w[0][|Prefix(s)|..], w[1][|Prefix(s)|..], w[|w| - 1][|Prefix(s)|..]);
    }
  }

  lemma StartsAtCompound(s: Scope, e: Relation<string>, a: string, b: string)
    requires FollowsPlans(s, e, Prefix(s)) && e(a, b)
    ensures |Prefix(s)| <= |a|
  {
    var c :| PlanEdge(s, c, Prefix(s), a, b);
  }

  /** Edges that follow plans close no cycle. */
  lemma PlansCloseNoCycle(s: Scope, e: Relation<string>, a: string)
    requires DistinctIds(s.resolved) && FollowsPlans(s, e, Prefix(s))
    ensures !OnCycle(e, a)
  {
    if OnCycle(e, a) {
      var k :| e(a, k) && Reaches(e, k, a);
      var w :| Joins(e, w, k, a);
      var from := |Prefix(s)|;
      WalkBetweenCompounds(s, e, w, k);
      var next := if |w| == 1 then k else w[1];
      assert e(k, next);
      EdgeBetweenCompounds(s, e, a, k, next);
      assert Edges(s)(a[from..], k[from..]);
      assert OnCycle(Edges(s), a[from..]);
      var c :| PlanEdge(s, c, Prefix(s), a, k);
      assert a[from..] == c.id;
      NoPlanOnCycle(s, c);
    }
  }

  lemma NoPlanOnCycle(s: Scope, c: Resolved)
    requires DistinctIds(s.resolved) && c in s.resolved && c.compound.Some? && PlanIds(s, c).Ok?
    ensures !OnCycle(Edges(s), c.id)
  {
    PlanSucceedsExactly(s, c);
    ReachesSelf(Edges(s), c.id);
  }

  ghost predicate RunEdge(runs: seq<RunConfiguration>, a: string, b: string) {
    exists x :: x in runs && x.id == a && x.compoundConfigurationIds.Some? && b in x.compoundConfigurationIds.value
  }

  ghost function RunEdges(runs: seq<RunConfiguration>): Relation<string> {
    (a, b) => RunEdge(runs, a, b)
  }

  /** Every emitted run entry is a provider's or comes from the stage of its own entry. */
  lemma {:induction false} RunOrigin(p: Providers, rs: seq<Resolved>, n: nat, shared: set<string>, found: set<string>,
                                     x: RunConfiguration)
    requires n <= |rs| && x in Emitted(p, rs, n, shared, found).runs
    ensures x in p.runs || exists j :: 0 <= j < n && x == RunAt(p, rs, j, shared, found)
  {
    hide RunEntry, DebugEntries;
    if n > 0 && x in Emitted(p, rs, n - 1, shared, found).runs {
      RunOrigin(p, rs, n - 1, shared, found, x);
    } else if n > 0 && x !in p.runs {
      assert x == RunAt(p, rs, n - 1, shared, found);
    }
  }

  lemma {:induction false} DebugOrigin(p: Providers, rs: seq<Resolved>, n: nat, shared: set<string>, found: set<string>,
                                       x: DebugConfiguration)
    requires n <= |rs| && x in Emitted(p, rs, n, shared, found).debugs
    ensures x in p.debugs || exists j :: 0 <= j < n && x in DebugsAt(p, rs, j, shared, found)
  {
    hide RunEntry, DebugEntries;
    if n > 0 && x in Emitted(p, rs, n - 1, shared, found).debugs {
      DebugOrigin(p, rs, n - 1, shared, found, x);
    } else if n > 0 && x !in p.debugs {
      assert x in DebugsAt(p, rs, n - 1, shared, found);
    }
  }

  lemma EntryIsEmitted(p: Providers, rs: seq<Resolved>, j: nat, shared: set<string>, found: set<string>, x: DebugConfiguration)
    requires j < |rs| && DebugsAt(p, rs, j, shared, found) == [x]
    ensures x in Emitted(p, rs, |rs|, shared, found).debugs
  {
    hide DebugsAt, RunAt, Emitted;
    var before, after, all := Appended(p, rs, j, shared, found).debugs, Appended(p, rs, j + 1, shared, found).debugs,
                              Appended(p, rs, |rs|, shared, found).debugs;
    assert after == before + [x];
    hide Appended;
    AppendedStays(p, rs, j + 1, |rs|, shared, found);
    assert all[|before|] == after[|before|] == x;
    EmittedIsAppended(p, rs, |rs|, shared, found);
    assert (p.debugs + all)[|p.debugs| + |before|] == x;
  }

  lemma {:induction false} AppendedStays(p: Providers, rs: seq<Resolved>, m: nat, n: nat, shared: set<string>, found: set<string>)
    requires m <= n <= |rs|
    ensures Appended(p, rs, m, shared, found).debugs <= Appended(p, rs, n, shared, found).debugs
    decreases n
  {
    hide RunAt, DebugsAt;
    if m < n { AppendedStays(p, rs, m, n - 1, shared, found); }
  }

  lemma RunEdgesFollowPlans(p: Providers, rs: seq<Resolved>, shared: set<string>, found: set<string>)
    requires ProviderModel(p) && ResolvedFrom(p, rs) && NoClash(p, rs)
    ensures FollowsPlans(Validated(p, rs, false), RunEdges(Emitted(p, rs, |rs|, shared, found).runs), SHARED_RUN)
  {
    hide Plan, Emitted, NoClash, ResolvedFrom;
    var s := Validated(p, rs, false);
    var runs := Emitted(p, rs, |rs|, shared, found).runs;
    forall a, b | RunEdge(runs, a, b)
      ensures exists c :: PlanEdge(s, c, SHARED_RUN, a, b)
    {
      var x :| x in runs && x.id == a && x.compoundConfigurationIds.Some? && b in x.compoundConfigurationIds.value;
      RunOrigin(p, rs, |rs|, shared, found, x);
      var j :| 0 <= j < |rs| && x == RunAt(p, rs, j, shared, found);
      var c := rs[j];
      assert c in rs;
      PlansStayTheSame(p, rs, j, shared, found, false, c);
      assert Stage(p, rs, j, shared, found, true).(debug := false) == Stage(p, rs, j, shared, found, false);
      assert PlanEdge(s, c, SHARED_RUN, a, b);
    }
  }

  ghost predicate DebugEdge(debugs: seq<DebugConfiguration>, a: string, b: string) {
    exists x :: x in debugs && x.id == a && x.compoundConfigurationIds.Some? && b in x.compoundConfigurationIds.value
  }

  ghost function DebugEdges(debugs: seq<DebugConfiguration>): Relation<string> {
    (a, b) => DebugEdge(debugs, a, b)
  }

  lemma DebugEdgesFollowPlans(p: Providers, rs: seq<Resolved>, shared: set<string>, found: set<string>)
    requires ProviderModel(p) && ResolvedFrom(p, rs) && NoClash(p, rs)
    ensures FollowsPlans(Validated(p, rs, true), DebugEdges(Emitted(p, rs, |rs|, shared, found).debugs), SHARED_DEBUG)
  {
    hide Plan, Emitted, NoClash, ResolvedFrom;
    var s := Validated(p, rs, true);
    var debugs := Emitted(p, rs, |rs|, shared, found).debugs;
    forall a, b | DebugEdge(debugs, a, b)
      ensures exists c :: PlanEdge(s, c, SHARED_DEBUG, a, b)
    {
      var x :| x in debugs && x.id == a && x.compoundConfigurationIds.Some? && b in x.compoundConfigurationIds.value;
      DebugOrigin(p, rs, |rs|, shared, found, x);
      var j :| 0 <= j < |rs| && x in DebugsAt(p, rs, j, shared, found);
      var c := rs[j];
      assert c in rs;
      PlansStayTheSame(p, rs, j, shared, found, true, c);
      assert PlanEdge(s, c, SHARED_DEBUG, a, b);
    }
  }

  /** Without a clash, neither the emitted run entries nor the emitted debug entries contain a cycle of children. */
  lemma EmittedGraphIsAcyclic(p: Providers, rs: seq<Resolved>, shared: set<string>, found: set<string>, a: string)
    requires ProviderModel(p) && ResolvedFrom(p, rs) && NoClash(p, rs)
    ensures !OnCycle(RunEdges(Emitted(p, rs, |rs|, shared, found).runs), a)
    ensures !OnCycle(DebugEdges(Emitted(p, rs, |rs|, shared, found).debugs), a)
  {
    hide FollowsPlans, Emitted, ProviderModel;
    DistinctFromIndices(p, rs);
    RunEdgesFollowPlans(p, rs, shared, found);
    DebugEdgesFollowPlans(p, rs, shared, found);
    PlansCloseNoCycle(Validated(p, rs, false), RunEdges(Emitted(p, rs, |rs|, shared, found).runs), a);
    PlansCloseNoCycle(Validated(p, rs, true), DebugEdges(Emitted(p, rs, |rs|, shared, found).debugs), a);
  }

  /** The availability table of a list has no other edges than the list. */
  lemma TableEdgesAreListEdges(debugs: seq<DebugConfiguration>, a: string)
    requires !OnCycle(DebugEdges(debugs), a)
    ensures !OnCycle(Availability.ChildEdges(Availability.Collect(debugs)), a)
  {
    hide Availability.Collect;
    var e, f := Availability.ChildEdges(Availability.Collect(debugs)), DebugEdges(debugs);
    forall x, y | e(x, y)
      ensures f(x, y)
    {
    }
    CycleInPart(e, f, a);
  }

  /** So, without a clash, availability after the merge is "available itself and every child available". */
  lemma AvailabilityIsRecursiveWithoutClash(p: Providers, rs: seq<Resolved>, shared: set<string>, found: set<string>,
                                            available: string -> bool)
    requires ProviderModel(p) && ResolvedFrom(p, rs) && NoClash(p, rs)
    ensures var m := Availability.Collect(Emitted(p, rs, |rs|, shared, found).debugs);
      Availability.Recursive(m, available) <==>
      forall id :: id in m ==> (available(id) <==> !Availability.ReachesDown(m, id))
  {
    hide Emitted, Availability.Collect, ProviderModel;
    var debugs := Emitted(p, rs, |rs|, shared, found).debugs;
    forall a
      ensures !OnCycle(Availability.ChildEdges(Availability.Collect(debugs)), a)
    {
      EmittedGraphIsAcyclic(p, rs, shared, found, a);
      TableEdgesAreListEdges(debugs, a);
    }
    Availability.AcyclicMeansRecursive(Availability.Collect(debugs), available);
  }
}
