/** Files that pass the validation but are emitted differently from how they were validated. */
module Clashes {
  import opened Wrappers
  import opened Text
  import opened Graph
  import opened ExecutionModel
  import opened Compounds
  import opened CycleErrors
  import opened Lookups
  import opened SharedResolve
  import opened SharedMerge
  import opened Emission
  import opened SmallFiles

  /** The plan of a compound with a single child. */
  lemma SingleChildPlan(s: Scope, c: Resolved, reference: string, childId: string, visiting: seq<string>)
    requires c in s.resolved && c.id !in visiting && c.compound == Some([reference])
    requires ResolveChild(s, reference, c.projectId) == Ok(childId)
    requires var target := TargetOf(s, childId);
      !target.Missing? && (target.Nested? ==> Plan(s, target.configuration, visiting + [c.id]).Ok?)
    ensures Plan(s, c, visiting) == Ok([childId])
  {
    hide ResolveChild, TargetOf;
    OneChild(s, reference, c.projectId, childId);
    UnvisitedShrinks(s, visiting, c.id);
    assert [childId][1..] == [] && FirstFailure(s, [], visiting + [c.id]) == None;
  }

  lemma SingleChildFails(s: Scope, c: Resolved, reference: string)
    requires c in s.resolved && c.compound == Some([reference])
    requires ResolveChild(s, reference, c.projectId).Err?
    ensures PlanIds(s, c) == Err(Unresolved(ResolveChild(s, reference, c.projectId).error))
  {
    hide ResolveChild;
  }

  // ---------------------------------------------------------------------
  // A mode is lost.

  /**
   * A provider run, a repository entry with the same caption before the compound, and a compound whose
   * only child is that caption.
   */
  ghost predicate SharesCaption(p: Providers, rs: seq<Resolved>, t: string) {
    && |p.runs| == 1 && p.debugs == [] && |rs| == 2
    && var run, a, d := p.runs[0], rs[0], rs[1];
       && ProviderId(run.id) && run.caption == t && run.debugConfigurationId.None?
       && a.run.Some? && a.debug.None? && a.compound.None? && a.debugReference.None? && a.caption == t
       && d.compound == Some([t])
       && run.projectId == a.projectId == d.projectId
       && t != "" && Trimmed(t) && Free(t) && FindNamed(rs, t) == None
  }

  lemma RunLookups(p: Providers, rs: seq<Resolved>, t: string, shared: set<string>, found: set<string>)
    requires SharesCaption(p, rs, t)
    ensures MatchingRuns(p.runs, t, Some(rs[1].projectId)) == [p.runs[0]]
    ensures MatchingDebugs(p.debugs, t, Some(rs[1].projectId)) == []
    ensures |MatchingRuns(Stage(p, rs, 1, shared, found, true).runs, t, Some(rs[1].projectId))| == 2
    ensures Stage(p, rs, 1, shared, found, true).debugs == []
  {
    var q := rs[1].projectId;
    assert p.runs[1..] == [] && MatchingRuns([], t, Some(q)) == [];
    assert RunMatches(p.runs[0], t, Some(q));
    assert rs[0] in rs && RunAppears(rs[0], t, q);
    hide RunAppears, RunMatches, MatchingRuns;
    OneMoreRun(p, rs, 1, shared, found, t, q);
    NothingAppended(p, rs, shared, found, t, q);
    StageIsGrown(p, rs, 1, shared, found, true);
    MoreRuns(p.runs, Appended(p, rs, 1, shared, found).runs, t, Some(q));
  }

  /** The compound is accepted, but when it is emitted neither mode has a plan: it is left without children. */
  lemma SharedCaptionLosesMode(p: Providers, rs: seq<Resolved>, t: string, shared: set<string>, found: set<string>)
    requires SharesCaption(p, rs, t)
    ensures rs[1] in rs && Accepted(Validated(p, rs, true), rs[1])
    ensures PlanIds(Stage(p, rs, 1, shared, found, false), rs[1]).Err?
    ensures PlanIds(Stage(p, rs, 1, shared, found, true), rs[1]).Err?
    ensures RunAt(p, rs, 1, shared, found).compoundConfigurationIds == Some([])
  {
    var d, q, run := rs[1], rs[1].projectId, p.runs[0];
    assert d in rs;
    TrimFixpoint(t);
    RunLookups(p, rs, t, shared, found);
    RunLookup(p.runs, t, Some(q));
    DebugLookup(p.debugs, t, Some(q));
    hide ProviderRun, MatchingRuns, ProviderDebug, MatchingDebugs, Trim, FindNamed, Plan, IsCycleError;
    ValidatedRun(p, rs, t);
    ValidatedDebug(p, rs, t);
    var s := Stage(p, rs, 1, shared, found, true);
    RunLookup(s.runs, t, Some(q));
    DebugLookup(s.debugs, t, Some(q));
    StageResolved(p, rs, 1, shared, found, true);
    EmptyDebugs(t, q);
    AmbiguousChildFails(s, t, q);
    AmbiguousChildFails(s.(debug := false), t, q);
    SingleChildFails(s, d, t);
    SingleChildFails(s.(debug := false), d, t);
    assert s.(debug := false) == Stage(p, rs, 1, shared, found, false);
  }

  lemma EmptyDebugs(t: string, q: string)
    ensures ProviderDebug([], t, Some(q)) == Ok(None)
  {
  }

  lemma AmbiguousChildFails(s: Scope, t: string, q: string)
    requires Trim(t) == t && t != "" && FindNamed(s.resolved, t) == None
    requires ProviderRun(s.runs, t, Some(q)).Err? && ProviderDebug(s.debugs, t, Some(q)) == Ok(None)
    ensures ResolveChild(s, t, q).Err?
  {
  }

  lemma ValidatedRun(p: Providers, rs: seq<Resolved>, t: string)
    requires SharesCaption(p, rs, t) && Trim(t) == t && rs[1] in rs
    requires ProviderRun(p.runs, t, Some(rs[1].projectId)) == Ok(Some(p.runs[0]))
    ensures PlanIds(Validated(p, rs, false), rs[1]).Ok?
  {
    hide ProviderRun, Trim, FindNamed;
    var s, d, run := Validated(p, rs, false), rs[1], p.runs[0];
    assert StripPrefix(run.id, SHARED_RUN).None? && StripPrefix(run.id, SHARED_DEBUG).None?;
    assert ResolveChild(s, t, d.projectId) == Ok(run.id);
    SingleChildPlan(s, d, t, run.id, []);
  }

  lemma ValidatedDebug(p: Providers, rs: seq<Resolved>, t: string)
    requires SharesCaption(p, rs, t) && Trim(t) == t && rs[1] in rs
    requires ProviderRun(p.runs, t, Some(rs[1].projectId)) == Ok(Some(p.runs[0]))
    requires ProviderDebug(p.debugs, t, Some(rs[1].projectId)) == Ok(None)
    ensures PlanIds(Validated(p, rs, true), rs[1]).Err? && !IsCycleError(PlanIds(Validated(p, rs, true), rs[1]).error)
  {
    hide ProviderRun, ProviderDebug, Trim, FindNamed, Contains;
    var s, d := Validated(p, rs, true), rs[1];
    assert ResolveChild(s, t, d.projectId) == Err("unknown compound child `" + t + "`");
    SingleChildFails(s, d, t);
    UnknownIsFree(t);
  }

  function ProvidedRun(debugId: Option<string>): RunConfiguration {
    RunConfiguration("cargo:run", "p", "q", "binary", "cargo", [], debugId, None)
  }

  lemma NotPrefixed(id: string)
    requires id != "" && id[0] != 's'
    ensures ProviderId(id)
  {
    assert SHARED_RUN[0] == 's' && SHARED_DEBUG[0] == 's';
    assert |SHARED_RUN| <= |id| ==> id[..|SHARED_RUN|][0] == id[0];
    assert |SHARED_DEBUG| <= |id| ==> id[..|SHARED_DEBUG|][0] == id[0];
  }

  lemma NamedByNone(rs: seq<Resolved>, t: string)
    requires |t| < |SHARED_RUN| && forall r :: r in rs ==> r.id != t
    ensures FindNamed(rs, t) == None
  {
    forall r | r in rs
      ensures !NamesShared(r, t)
    {
      assert |SHARED_RUN + r.id| > |t| && |SHARED_DEBUG + r.id| > |t|;
    }
  }

  /** One provider run, and perhaps the debug entry that it refers to. */
  ghost predicate Plain(p: Providers) {
    && |p.runs| == 1 && |p.debugs| <= 1
    && ProviderId(p.runs[0].id) && p.runs[0].preLaunchTargets == [] && p.runs[0].compoundConfigurationIds.None?
    && (p.runs[0].debugConfigurationId.Some? ==>
          |p.debugs| == 1 && p.runs[0].debugConfigurationId.value == p.debugs[0].id)
    && (forall x :: x in p.debugs ==>
          ProviderId(x.id) && x.preLaunchTargets == [] && x.compoundConfigurationIds.None?)
  }

  lemma PlainIsModel(p: Providers)
    requires Plain(p)
    ensures ProviderModel(p)
  {
    hide ProviderId;
    assert forall x :: x in p.runs ==> x == p.runs[0];
    assert forall x :: x in p.debugs ==> x == p.debugs[0];
  }

  function LostProviders(): Providers {
    OneProject([ProvidedRun(None)], [])
  }

  function LostEntries(): seq<Resolved> {
    [Runnable("a", "q", None, "p"), Group("d", "d", "q", "p")]
  }

  function LostFile(): seq<SharedConfiguration> {
    [RunnableEntry("a", "q", None), GroupEntry("d", "d", "q")]
  }

  lemma LostShape()
    ensures SharesCaption(LostProviders(), LostEntries(), "q")
    ensures Plain(LostProviders())
  {
    var rs := LostEntries();
    NotPrefixed("cargo:run");
    assert |"q"| < |SHARED_RUN| && forall r :: r in rs ==> r == rs[0] || r == rs[1];
    hide ProviderId, Free, FindNamed;
    NamedByNone(rs, "q");
    ShortIsFree("q");
  }

  /** A file that the merge accepts and whose only compound has no children once it is emitted. */
  lemma ModeIsLost(standalone: Project, found: set<string>)
    ensures var p, rs := LostProviders(), LostEntries();
      var shared := SharedDebugIds(Validated(p, rs, true));
      && ProviderModel(p) && ResolvesTo(p, standalone, LostFile(), rs) && Mergeable(p, standalone, LostFile())
      && RunAt(p, rs, 1, shared, found).compoundConfigurationIds == Some([])
      && PlanIds(Stage(p, rs, 1, shared, found, true), rs[1]).Err?
  {
    var p, rs := LostProviders(), LostEntries();
    LostShape();
    PlainIsModel(p);
    LostCompounds();
    LostFileResolves(p, standalone);
    hide SharesCaption, ProviderModel, ResolvesTo, Plain, RunAt, Stage, Accepted, SharedDebugIds, PlanIds,
         DistinctTrimmedIds, Mergeable;
    SharedCaptionLosesMode(p, rs, "q", SharedDebugIds(Validated(p, rs, true)), found);
    assert Checked(p, rs);
    MergeableWhenChecked(p, standalone, LostFile(), rs);
  }

  lemma LostFileResolves(p: Providers, standalone: Project)
    requires p == LostProviders()
    ensures DistinctTrimmedIds(LostFile()) && ResolvesTo(p, standalone, LostFile(), LostEntries())
  {
    var file := LostFile();
    LetterIsId("a");
    LetterIsId("d");
    LetterIsId("q");
    hide Resolve, GoodIdentifier, PlainId;
    RunnableResolves(p, standalone, "a", "q", None);
    GroupResolves(p, standalone, "d", "d", "q");
    assert "a"[0] != "d"[0];
    assert forall c :: c in file ==> c == file[0] || c == file[1];
    PlainIdsAreDistinct(file);
  }

  lemma LostCompounds()
    ensures forall r :: r in LostEntries() ==> r.debugReference.None?
    ensures forall r :: r in LostEntries() && r.compound.Some? ==> r == LostEntries()[1]
  {
    var rs := LostEntries();
    assert forall r :: r in rs ==> r == rs[0] || r == rs[1];
  }

  // ---------------------------------------------------------------------
  // A cycle is emitted.

  /**
   * `g` refers to the debug target of the compound `d`, the compound `c` lists `g`, `f` is captioned
   * with the id of `d`, and `d` lists the caption that `c` shares with a provider run.
   */
  ghost predicate Tangled(p: Providers, rs: seq<Resolved>, t: string) {
    && Plain(p) && |p.debugs| == 1 && |rs| == 4
    && TangledEntries(rs[0], rs[1], rs[2], rs[3], t)
    && p.runs[0].debugConfigurationId == Some(p.debugs[0].id)
    && p.runs[0].projectId == p.debugs[0].projectId == rs[0].projectId
    && (forall i, j :: 0 <= i < j < |rs| ==> rs[i].id != rs[j].id)
    && FindNamed(rs, t) == None && FindNamed(rs, rs[0].id) == Some(rs[0])
    && Trim(t) == t && t != "" && Trim(rs[0].id) == rs[0].id && rs[0].id != ""
    && TangledLookups(p, rs, t)
  }

  ghost predicate TangledEntries(g: Resolved, c: Resolved, f: Resolved, d: Resolved, t: string) {
    && g.run.Some? && g.debug.None? && g.compound.None? && g.debugReference == Some(d.id)
    && c.compound == Some([g.id]) && c.caption == t
    && f.debug.Some? && f.compound.None? && f.caption == d.id
    && d.compound == Some([t])
    && g.projectId == c.projectId == f.projectId == d.projectId
  }

  /** Which entries are found under the two references. */
  ghost predicate TangledLookups(p: Providers, rs: seq<Resolved>, t: string)
    requires |rs| == 4
  {
    var q, u := rs[0].projectId, rs[3].id;
    && MatchingRuns(p.runs, t, Some(q)) == p.runs && MatchingRuns(p.runs, u, Some(q)) == []
    && MatchingDebugs(p.debugs, t, Some(q)) == [] && MatchingDebugs(p.debugs, u, Some(q)) == []
    && !RunAppears(rs[0], t, q) && !RunAppears(rs[0], u, q)
    && DebugAppears(rs[1], t, q) && !DebugAppears(rs[1], u, q)
    && !DebugAppears(rs[2], t, q) && DebugAppears(rs[2], u, q)
  }

  /** What the debug lookups find at the first stages. */
  lemma EarlyDebugs(p: Providers, rs: seq<Resolved>, t: string, n: nat, x: string, shared: set<string>, found: set<string>)
    requires Tangled(p, rs, t) && n <= 1 && (x == t || x == rs[3].id)
    ensures MatchingDebugs(Stage(p, rs, n, shared, found, true).debugs, x, Some(rs[0].projectId)) == []
    ensures MatchingRuns(Stage(p, rs, n, shared, found, true).runs, x, Some(rs[0].projectId))
         == if x == t then p.runs else []
  {
    hide MatchingDebugs, MatchingRuns, RunAppears, PortableReferenceMatches, Appended, FindNamed, Trim, Plain;
    var q := rs[0].projectId;
    var lists := Appended(p, rs, n, shared, found);
    NothingAppended(p, rs, shared, found, x, q);
    if n == 1 {
      OneMoreDebug(p, rs, 1, shared, found, x, q);
      OneMoreRun(p, rs, 1, shared, found, x, q);
    }
    hide Stage;
    StageIsGrown(p, rs, n, shared, found, true);
    MoreDebugs(p.debugs, lists.debugs, x, Some(q));
    MoreRuns(p.runs, lists.runs, x, Some(q));
  }

  /** At the last stage both references lead to entries of the file. */
  lemma LateDebugs(p: Providers, rs: seq<Resolved>, t: string, shared: set<string>, found: set<string>)
    requires Tangled(p, rs, t)
    ensures var q := rs[0].projectId;
      var debugs := Stage(p, rs, 3, shared, found, true).debugs;
      && MatchingDebugs(debugs, t, Some(q)) == DebugsAt(p, rs, 1, shared, found)
      && MatchingDebugs(debugs, rs[3].id, Some(q)) == DebugsAt(p, rs, 2, shared, found)
  {
    hide MatchingDebugs, MatchingRuns, PortableReferenceMatches, Appended, FindNamed, Trim, Plain, DebugsAt;
    var q := rs[0].projectId;
    assert !DebugAppears(rs[0], t, q) && !DebugAppears(rs[0], rs[3].id, q);
    hide DebugAppears;
    LateDebugsUnder(p, rs, t, shared, found, t, [], DebugsAt(p, rs, 1, shared, found), []);
    LateDebugsUnder(p, rs, t, shared, found, rs[3].id, [], [], DebugsAt(p, rs, 2, shared, found));
  }

  lemma LateDebugsUnder(p: Providers, rs: seq<Resolved>, t: string, shared: set<string>, found: set<string>, x: string,
                        first: seq<DebugConfiguration>, second: seq<DebugConfiguration>, third: seq<DebugConfiguration>)
    requires |rs| == 4 && MatchingDebugs(p.debugs, x, Some(rs[0].projectId)) == []
    requires first == if DebugAppears(rs[0], x, rs[0].projectId) then DebugsAt(p, rs, 0, shared, found) else []
    requires second == if DebugAppears(rs[1], x, rs[0].projectId) then DebugsAt(p, rs, 1, shared, found) else []
    requires third == if DebugAppears(rs[2], x, rs[0].projectId) then DebugsAt(p, rs, 2, shared, found) else []
    ensures MatchingDebugs(Stage(p, rs, 3, shared, found, true).debugs, x, Some(rs[0].projectId)) == first + second + third
  {
    hide *;
    var q := rs[0].projectId;
    NothingAppended(p, rs, shared, found, x, q);
    OneMoreDebug(p, rs, 1, shared, found, x, q);
    OneMoreDebug(p, rs, 2, shared, found, x, q);
    OneMoreDebug(p, rs, 3, shared, found, x, q);
    StageDebugs(p, rs, 3, shared, found);
    MoreDebugs(p.debugs, Appended(p, rs, 3, shared, found).debugs, x, Some(q));
  }

  lemma StageDebugs(p: Providers, rs: seq<Resolved>, n: nat, shared: set<string>, found: set<string>)
    requires n <= |rs|
    ensures Stage(p, rs, n, shared, found, true).debugs == p.debugs + Appended(p, rs, n, shared, found).debugs
  {
    StageIsGrown(p, rs, n, shared, found, true);
  }

  /** The plans of a compound that lists another one, whose only child is not a compound. */
  lemma NestedPlans(s: Scope, outer: Resolved, inner: Resolved, outerChild: string, innerChild: string, last: string)
    requires s.debug && DistinctIds(s.resolved) && outer in s.resolved && inner in s.resolved && outer.id != inner.id
    requires outer.compound == Some([outerChild]) && inner.compound == Some([innerChild])
    requires ResolveChild(s, outerChild, outer.projectId) == Ok(SHARED_DEBUG + inner.id)
    requires ResolveChild(s, innerChild, inner.projectId) == Ok(last)
    requires TargetOf(s, last).Foreign? || TargetOf(s, last).Leaf?
    ensures PlanIds(s, outer) == Ok([SHARED_DEBUG + inner.id]) && PlanIds(s, inner) == Ok([last])
  {
    hide ResolveChild, TargetOf, Plan;
    DebugTargets(s, inner);
    assert [] + [outer.id] == [outer.id];
    SingleChildPlan(s, inner, innerChild, last, [outer.id]);
    SingleChildPlan(s, inner, innerChild, last, []);
    SingleChildPlan(s, outer, outerChild, SHARED_DEBUG + inner.id, []);
  }

  /** Before `f` is emitted, `g` leads to `d` and the shared caption to the provider. */
  lemma EarlyChildren(p: Providers, rs: seq<Resolved>, t: string, n: nat, shared: set<string>, found: set<string>)
    requires Tangled(p, rs, t) && n <= 1
    ensures var s, q := Stage(p, rs, n, shared, found, true), rs[0].projectId;
      && ResolveChild(s, t, q) == Ok(p.debugs[0].id)
      && ResolveChild(s, rs[0].id, q) == Ok(SHARED_DEBUG + rs[3].id)
  {
    var s, q := Stage(p, rs, n, shared, found, true), rs[0].projectId;
    assert rs[0] in rs && rs[3] in rs;
    EarlyDebugs(p, rs, t, n, t, shared, found);
    EarlyDebugs(p, rs, t, n, rs[3].id, shared, found);
    StageDebugs(p, rs, n, shared, found);
    StageResolved(p, rs, n, shared, found, true);
    RunLookup(s.runs, t, Some(q));
    RunLookup(s.runs, rs[3].id, Some(q));
    DebugLookup(s.debugs, t, Some(q));
    DebugLookup(s.debugs, rs[3].id, Some(q));
    hide Stage, ProviderRun, ProviderDebug, MatchingRuns, MatchingDebugs, Trim, FindNamed, TangledLookups, StripPrefix;
    TangledIds(p, rs, t);
    StageIsDebug(p, rs, n, shared, found);
    FoundDebugFirst(p, s.debugs);
    ReferenceToShared(s, rs[0], rs[3], q);
  }

  lemma EarlyPlans(p: Providers, rs: seq<Resolved>, t: string, n: nat, shared: set<string>, found: set<string>)
    requires Tangled(p, rs, t) && n <= 1
    ensures var s := Stage(p, rs, n, shared, found, true);
      && rs[1] in rs && rs[3] in rs
      && PlanIds(s, rs[1]) == Ok([SHARED_DEBUG + rs[3].id]) && PlanIds(s, rs[3]) == Ok([p.debugs[0].id])
  {
    var s := Stage(p, rs, n, shared, found, true);
    assert rs[1] in rs && rs[3] in rs;
    EarlyChildren(p, rs, t, n, shared, found);
    StageResolved(p, rs, n, shared, found, true);
    StageIsDebug(p, rs, n, shared, found);
    TangledIds(p, rs, t);
    ForeignTarget(s, p.debugs[0].id);
    hide Stage, ResolveChild, TargetOf, Plan, TangledLookups, Trim, FindNamed, StripPrefix;
    NestedPlans(s, rs[1], rs[3], rs[0].id, t, p.debugs[0].id);
  }

  lemma TangledIds(p: Providers, rs: seq<Resolved>, t: string)
    requires Tangled(p, rs, t)
    ensures DistinctIds(rs) && rs[1].id != rs[3].id
    ensures StripPrefix(p.debugs[0].id, SHARED_RUN).None? && StripPrefix(p.debugs[0].id, SHARED_DEBUG).None?
  {
    hide FindNamed, Trim, TangledLookups;
    assert p.debugs[0] in p.debugs;
  }

  lemma FoundDebugFirst(p: Providers, debugs: seq<DebugConfiguration>)
    requires p.debugs != [] && p.debugs <= debugs
    ensures FindDebug(debugs, p.debugs[0].id) == Some(p.debugs[0])
  {
    assert debugs[0] == p.debugs[0];
  }

  /** A child without a debug entry whose reference is looked up in vain leads to the shared entry. */
  lemma ReferenceToShared(s: Scope, g: Resolved, d: Resolved, q: string)
    requires s.debug && DistinctIds(s.resolved) && d in s.resolved && d.compound.Some? && d.projectId == q
    requires g.debug.None? && g.compound.None? && g.debugReference == Some(d.id)
    requires FindNamed(s.resolved, g.id) == Some(g) && Trim(g.id) == g.id && g.id != ""
    requires ProviderDebug(s.debugs, d.id, Some(q)) == Ok(None) && ProviderRun(s.runs, d.id, Some(q)) == Ok(None)
    ensures ResolveChild(s, g.id, q) == Ok(SHARED_DEBUG + d.id)
  {
    hide FindNamed, Trim, ProviderDebug, ProviderRun, StripPrefix;
    FindSharedWhenDistinct(s.resolved, d);
    SharedDebugProject(s, d);
  }

  lemma SharedDebugProject(s: Scope, d: Resolved)
    requires DistinctIds(s.resolved) && d in s.resolved
    ensures ChildProject(s, SHARED_DEBUG + d.id) == Some(d.projectId)
  {
    hide FindShared;
    FindSharedWhenDistinct(s.resolved, d);
    StripPrefixOfConcat(SHARED_DEBUG, d.id);
    if StripPrefix(SHARED_DEBUG + d.id, SHARED_RUN).Some? {
      PrefixesDiffer(StripPrefix(SHARED_DEBUG + d.id, SHARED_RUN).value, d.id);
    }
  }

  lemma DebugTargets(s: Scope, d: Resolved)
    requires s.debug && DistinctIds(s.resolved) && d in s.resolved
    ensures TargetOf(s, SHARED_DEBUG + d.id) == if d.compound.Some? then Nested(d) else Leaf
  {
    FindSharedWhenDistinct(s.resolved, d);
    StripPrefixOfConcat(SHARED_DEBUG, d.id);
  }

  lemma ForeignTarget(s: Scope, id: string)
    requires s.debug && StripPrefix(id, SHARED_DEBUG).None?
    ensures TargetOf(s, id) == Foreign
  {
  }

  /** When `d` is planned, the caption leads to `c`, and `g` leads to `f`. */
  lemma LateChildren(p: Providers, rs: seq<Resolved>, t: string, shared: set<string>, found: set<string>)
    requires Tangled(p, rs, t)
    ensures var s, q := Stage(p, rs, 3, shared, found, true), rs[0].projectId;
      && ResolveChild(s, t, q) == Ok(SHARED_DEBUG + rs[1].id)
      && ResolveChild(s, rs[0].id, q) == Ok(SHARED_DEBUG + rs[2].id)
  {
    var s, q := Stage(p, rs, 3, shared, found, true), rs[0].projectId;
    assert rs[0] in rs && rs[1] in rs && rs[2] in rs;
    LateDebugs(p, rs, t, shared, found);
    StageResolved(p, rs, 3, shared, found, true);
    StageResolved(p, rs, 1, shared, found, true);
    StageResolved(p, rs, 2, shared, found, true);
    StageIsDebug(p, rs, 3, shared, found);
    TangledIds(p, rs, t);
    EntryShape(Stage(p, rs, 1, shared, found, true), rs[1], shared, rs[1].id in found);
    EntryShape(Stage(p, rs, 2, shared, found, true), rs[2], shared, rs[2].id in found);
    DebugLookup(s.debugs, t, Some(q));
    DebugLookup(s.debugs, rs[3].id, Some(q));
    hide Stage, ProviderRun, ProviderDebug, MatchingDebugs, Trim, FindNamed, TangledLookups, DebugEntries, StripPrefix;
    SharedDebugProject(s, rs[1]);
    SharedDebugProject(s, rs[2]);
  }

  lemma LatePlan(p: Providers, rs: seq<Resolved>, t: string, shared: set<string>, found: set<string>)
    requires Tangled(p, rs, t)
    ensures rs[3] in rs && PlanIds(Stage(p, rs, 3, shared, found, true), rs[3]) == Ok([SHARED_DEBUG + rs[1].id])
  {
    var s := Stage(p, rs, 3, shared, found, true);
    assert rs[1] in rs && rs[2] in rs && rs[3] in rs;
    LateChildren(p, rs, t, shared, found);
    StageResolved(p, rs, 3, shared, found, true);
    StageIsDebug(p, rs, 3, shared, found);
    TangledIds(p, rs, t);
    DebugTargets(s, rs[2]);
    hide Stage, ResolveChild, TargetOf, Plan, TangledLookups, Trim, FindNamed, StripPrefix;
    NestedPlans(s, rs[3], rs[1], t, rs[0].id, SHARED_DEBUG + rs[2].id);
  }

  /** The emitted debug entries of the two compounds list each other. */
  lemma TangledCompoundsFormCycle(p: Providers, rs: seq<Resolved>, t: string, shared: set<string>, found: set<string>)
    requires Tangled(p, rs, t)
    ensures OnCycle(DebugEdges(Emitted(p, rs, |rs|, shared, found).debugs), SHARED_DEBUG + rs[1].id)
  {
    var a, b := SHARED_DEBUG + rs[1].id, SHARED_DEBUG + rs[3].id;
    EarlyPlans(p, rs, t, 1, shared, found);
    LatePlan(p, rs, t, shared, found);
    hide Plan, Emitted, Stage, Tangled, DebugsAt;
    EmittedPlan(p, rs, 1, shared, found, b);
    EmittedPlan(p, rs, 3, shared, found, a);
    var e := DebugEdges(Emitted(p, rs, |rs|, shared, found).debugs);
    assert e(a, b) && e(b, a);
    ReachesSelf(e, a);
    ReachesPrepend(e, b, a, a);
  }

  /** A child that is planned at the stage of its compound is an emitted edge. */
  lemma EmittedPlan(p: Providers, rs: seq<Resolved>, j: nat, shared: set<string>, found: set<string>, childId: string)
    requires j < |rs| && rs[j].compound.Some? && rs[j] in rs
    ensures PlanIds(Stage(p, rs, j, shared, found, true), rs[j]) == Ok([childId]) ==>
              DebugEdge(Emitted(p, rs, |rs|, shared, found).debugs, SHARED_DEBUG + rs[j].id, childId)
  {
    hide Plan, Stage, Emitted;
    StageResolved(p, rs, j, shared, found, true);
    StageIsDebug(p, rs, j, shared, found);
    var s := Stage(p, rs, j, shared, found, true);
    if PlanIds(s, rs[j]) == Ok([childId]) {
      assert s.(debug := true) == s;
      var x := CompoundDebugEntry(rs[j], PlanIds(s, rs[j]));
      assert DebugsAt(p, rs, j, shared, found) == [x];
      EntryIsEmitted(p, rs, j, shared, found, x);
      assert childId in x.compoundConfigurationIds.value;
    }
  }

  lemma StageIsDebug(p: Providers, rs: seq<Resolved>, n: nat, shared: set<string>, found: set<string>)
    requires n <= |rs|
    ensures Stage(p, rs, n, shared, found, true).debug
  {
  }

  /** The file is checked all the same: without `f`, no reference leads astray. */
  lemma TangledIsChecked(p: Providers, rs: seq<Resolved>, t: string)
    requires Tangled(p, rs, t)
    requires forall r :: r in rs ==> r.compound.Some? ==> r == rs[1] || r == rs[3]
    requires forall r :: r in rs && r.debugReference.Some? ==> r == rs[0]
    ensures Checked(p, rs)
  {
    hide Plan, TangledLookups, Trim, FindNamed, IsCycleError;
    assert rs[1] in rs && rs[3] in rs;
    EarlyPlans(p, rs, t, 0, {}, {});
    assert Stage(p, rs, 0, {}, {}, true) == Validated(p, rs, true);
    TangledRunPlans(p, rs, t);
  }

  /** In Run mode `c` lists the runnable `g`, and `d` the provider's run. */
  lemma TangledRunPlans(p: Providers, rs: seq<Resolved>, t: string)
    requires Tangled(p, rs, t) && rs[1] in rs && rs[3] in rs
    ensures PlanIds(Validated(p, rs, false), rs[1]).Ok? && PlanIds(Validated(p, rs, false), rs[3]).Ok?
  {
    var s, q, run := Validated(p, rs, false), rs[0].projectId, p.runs[0];
    assert rs[0] in rs && TangledLookups(p, rs, t);
    RunLookup(p.runs, t, Some(q));
    hide ProviderRun, MatchingRuns, Trim, FindNamed, TangledLookups, Plan;
    TangledIds(p, rs, t);
    StripPrefixOfConcat(SHARED_RUN, rs[0].id);
    FindSharedWhenDistinct(rs, rs[0]);
    assert StripPrefix(run.id, SHARED_RUN).None? && StripPrefix(run.id, SHARED_DEBUG).None?;
    hide StripPrefix;
    assert ResolveChild(s, rs[0].id, q) == Ok(SHARED_RUN + rs[0].id);
    assert ResolveChild(s, t, q) == Ok(run.id);
    SingleChildPlan(s, rs[1], rs[0].id, SHARED_RUN + rs[0].id, []);
    SingleChildPlan(s, rs[3], t, run.id, []);
  }

  function TangledProviders(): Providers {
    OneProject([ProvidedRun(Some("cargo:debug"))],
               [DebugConfiguration("cargo:debug", "p", "x", "lldb", "launch", true, None, [], None)])
  }

  function TangledFile(): seq<SharedConfiguration> {
    [RunnableEntry("g", "g", Some("d")), GroupEntry("c", "q", "g"), DebuggableEntry("f", "d"), GroupEntry("d", "d", "q")]
  }

  function TangledExample(): seq<Resolved> {
    [Runnable("g", "g", Some("d"), "p"), Group("c", "q", "g", "p"), Debuggable("f", "d", "p"), Group("d", "d", "q", "p")]
  }

  lemma TangledShape()
    ensures Tangled(TangledProviders(), TangledExample(), "q")
  {
    var p, rs := TangledProviders(), TangledExample();
    PlainTangled();
    TangledNames();
    TangledMatches();
    hide FindNamed, Trim, TangledLookups, Plain;
  }

  lemma PlainTangled()
    ensures Plain(TangledProviders())
  {
    hide ProviderId;
    NotPrefixed("cargo:run");
    NotPrefixed("cargo:debug");
  }

  lemma TangledNames()
    ensures FindNamed(TangledExample(), "q") == None && FindNamed(TangledExample(), "g") == Some(TangledExample()[0])
    ensures Trim("q") == "q" && Trim("g") == "g"
  {
    var rs := TangledExample();
    assert |"q"| < |SHARED_RUN| && forall r :: r in rs ==> r == rs[0] || r == rs[1] || r == rs[2] || r == rs[3];
    TrimFixpoint("q");
    TrimFixpoint("g");
    hide FindNamed, Trim;
    NamedByNone(rs, "q");
    FirstIsNamed(rs);
  }

  lemma FirstIsNamed(rs: seq<Resolved>)
    requires rs != []
    ensures FindNamed(rs, rs[0].id) == Some(rs[0])
  {
  }

  lemma TangledMatches()
    ensures TangledLookups(TangledProviders(), TangledExample(), "q")
  {
    var p, rs := TangledProviders(), TangledExample();
    assert |SHARED_RUN| == 11 && |SHARED_DEBUG| == 13 && |"cargo:run"| > 1 && |"cargo:debug"| > 1;
    assert p.runs[1..] == [] && p.debugs[1..] == [];
    assert !RunMatches(p.runs[0], "d", Some("p")) && RunMatches(p.runs[0], "q", Some("p"));
    assert !DebugMatches(p.debugs[0], "d", Some("p")) && !DebugMatches(p.debugs[0], "q", Some("p"));
  }

  /** A file that the merge accepts and whose emitted compounds form a cycle. */
  lemma CycleIsEmitted(standalone: Project, found: set<string>)
    ensures var p, rs := TangledProviders(), TangledExample();
      var shared := SharedDebugIds(Validated(p, rs, true));
      && ProviderModel(p) && ResolvesTo(p, standalone, TangledFile(), rs) && Mergeable(p, standalone, TangledFile())
      && OnCycle(DebugEdges(Emitted(p, rs, |rs|, shared, found).debugs), SHARED_DEBUG + "c")
  {
    var p, rs := TangledProviders(), TangledExample();
    TangledShape();
    PlainIsModel(p);
    TangledCompounds();
    TangledFileResolves(p, standalone);
    hide ProviderModel, ResolvesTo, Tangled, Checked, Emitted, DebugEdges, DistinctTrimmedIds, Mergeable;
    TangledIsChecked(p, rs, "q");
    MergeableWhenChecked(p, standalone, TangledFile(), rs);
    TangledCompoundsFormCycle(p, rs, "q", SharedDebugIds(Validated(p, rs, true)), found);
  }

  lemma TangledFileResolves(p: Providers, standalone: Project)
    requires p == TangledProviders()
    ensures DistinctTrimmedIds(TangledFile()) && ResolvesTo(p, standalone, TangledFile(), TangledExample())
  {
    hide Resolve, GoodIdentifier, PlainId, DistinctTrimmedIds, TangledProviders;
    LettersAreIds();
    TangledIdsAreDistinct();
    assert |p.projects| == 1 && p.projects[0].id == "p" by { OneProjectOnly(); }
    RunnableResolves(p, standalone, "g", "g", Some("d"));
    GroupResolves(p, standalone, "c", "q", "g");
    DebuggableResolves(p, standalone, "f", "d");
    GroupResolves(p, standalone, "d", "d", "q");
  }

  lemma OneProjectOnly()
    ensures var p := TangledProviders(); |p.projects| == 1 && p.projects[0].id == "p"
  {
  }

  lemma LettersAreIds()
    ensures PlainId("g") && PlainId("c") && PlainId("f") && PlainId("d")
    ensures GoodIdentifier("g") && GoodIdentifier("q")
  {
    hide PlainId, GoodIdentifier;
    LetterIsId("g");
    LetterIsId("c");
    LetterIsId("f");
    LetterIsId("d");
    LetterIsId("q");
  }

  lemma TangledIdsAreDistinct()
    requires PlainId("g") && PlainId("c") && PlainId("f") && PlainId("d")
    ensures DistinctTrimmedIds(TangledFile())
  {
    hide PlainId, DistinctTrimmedIds;
    var file := TangledFile();
    assert forall c :: c in file ==> c == file[0] || c == file[1] || c == file[2] || c == file[3];
    PlainIdsAreDistinct(file);
  }

  lemma TangledCompounds()
    ensures var rs := TangledExample();
      && (forall r :: r in rs ==> r.compound.Some? ==> r == rs[1] || r == rs[3])
      && (forall r :: r in rs && r.debugReference.Some? ==> r == rs[0])
  {
    var rs := TangledExample();
    assert forall r :: r in rs ==> r == rs[0] || r == rs[1] || r == rs[2] || r == rs[3];
  }
}
