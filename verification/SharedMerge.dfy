/** Merging the repository's shared configurations into the execution model. */
module SharedMerge {
  import opened Wrappers
  import opened Text
  import opened ExecutionModel
  import opened Compounds
  import opened SharedResolve
  import Availability

  /** Stand-ins for the executable of entries that cannot be run directly. */
  const NO_RUN := "__taomni_debug_only__"
  const NO_COMPOUND := "__taomni_compound__"

  const KNOWN_ADAPTERS: set<string> := {"java", "lldb", "delve", "python", "node", "coreclr"}

  // ---------------------------------------------------------------------
  // Closure of a model.

  /** `id` names run entries of the project, and at least one. */
  ghost predicate NamesRun(runs: seq<RunConfiguration>, id: string, projectId: string) {
    && (exists x :: x in runs && x.id == id)
    && (forall x :: x in runs && x.id == id ==> x.projectId == projectId)
  }

  ghost predicate NamesDebug(debugs: seq<DebugConfiguration>, id: string, projectId: string) {
    && (exists x :: x in debugs && x.id == id)
    && (forall x :: x in debugs && x.id == id ==> x.projectId == projectId)
  }

  ghost predicate NamesTargets(targets: seq<BuildTarget>, ids: seq<string>) {
    forall id :: id in ids ==> exists t :: t in targets && t.id == id
  }

  ghost predicate ClosedRun(targets: seq<BuildTarget>, runs: seq<RunConfiguration>,
                            debugs: seq<DebugConfiguration>, x: RunConfiguration)
  {
    && NamesTargets(targets, x.preLaunchTargets)
    && (x.debugConfigurationId.Some? ==> exists d :: d in debugs && d.id == x.debugConfigurationId.value)
    && (x.compoundConfigurationIds.Some? ==>
          forall k :: k in x.compoundConfigurationIds.value ==> NamesRun(runs, k, x.projectId))
  }

  ghost predicate ClosedDebug(targets: seq<BuildTarget>, debugs: seq<DebugConfiguration>, x: DebugConfiguration) {
    && NamesTargets(targets, x.preLaunchTargets)
    && (x.compoundConfigurationIds.Some? ==>
          forall k :: k in x.compoundConfigurationIds.value ==> NamesDebug(debugs, k, x.projectId))
  }

  /** Every id that an entry mentions names an entry that exists, and children stay in their project. */
  ghost predicate Closed(targets: seq<BuildTarget>, runs: seq<RunConfiguration>, debugs: seq<DebugConfiguration>) {
    && (forall x :: x in runs ==> ClosedRun(targets, runs, debugs, x))
    && (forall x :: x in debugs ==> ClosedDebug(targets, debugs, x))
  }

  /** Ids made by the providers never look like ids of repository entries. */
  predicate ProviderId(id: string) {
    !StartsWith(id, SHARED_RUN) && !StartsWith(id, SHARED_DEBUG)
  }

  /** What the providers are assumed to have built: a closed model with distinct ids and no compounds. */
  ghost predicate ProviderModel(p: Providers) {
    && Closed(p.targets, p.runs, p.debugs)
    && (forall x :: x in p.runs ==> ProviderId(x.id) && x.compoundConfigurationIds.None?)
    && (forall x :: x in p.debugs ==> ProviderId(x.id) && x.compoundConfigurationIds.None?)
    && (forall x, y :: x in p.runs && y in p.runs && x.id == y.id ==> x == y)
    && (forall x, y :: x in p.debugs && y in p.debugs && x.id == y.id ==> x == y)
  }

  // ---------------------------------------------------------------------
  // The entries the finished model will hold, known before the emission starts.

  ghost predicate ExpectedRun(p: Providers, rs: seq<Resolved>, id: string, projectId: string) {
    || (exists x :: x in p.runs && x.id == id && x.projectId == projectId)
    || (exists r :: r in rs && id == SHARED_RUN + r.id && r.projectId == projectId)
  }

  ghost predicate HasDebugEntry(r: Resolved) {
    r.debug.Some? || r.compound.Some?
  }

  ghost predicate ExpectedDebug(p: Providers, rs: seq<Resolved>, id: string, projectId: string) {
    || (exists x :: x in p.debugs && x.id == id && x.projectId == projectId)
    || (exists r :: r in rs && id == SHARED_DEBUG + r.id && r.projectId == projectId && HasDebugEntry(r))
  }

  ghost predicate FitRun(p: Providers, rs: seq<Resolved>, x: RunConfiguration) {
    && ExpectedRun(p, rs, x.id, x.projectId)
    && NamesTargets(p.targets, x.preLaunchTargets)
    && (x.debugConfigurationId.Some? ==> exists q :: ExpectedDebug(p, rs, x.debugConfigurationId.value, q))
    && (x.compoundConfigurationIds.Some? ==>
          forall k :: k in x.compoundConfigurationIds.value ==> ExpectedRun(p, rs, k, x.projectId))
  }

  ghost predicate FitDebug(p: Providers, rs: seq<Resolved>, x: DebugConfiguration) {
    && ExpectedDebug(p, rs, x.id, x.projectId)
    && NamesTargets(p.targets, x.preLaunchTargets)
    && (x.compoundConfigurationIds.Some? ==>
          forall k :: k in x.compoundConfigurationIds.value ==> ExpectedDebug(p, rs, k, x.projectId))
  }

  /** What holds of the model at every point of the emission. */
  ghost predicate Fits(p: Providers, rs: seq<Resolved>, runs: seq<RunConfiguration>, debugs: seq<DebugConfiguration>) {
    && p.runs <= runs && p.debugs <= debugs
    && (forall x :: x in runs ==> FitRun(p, rs, x))
    && (forall x :: x in debugs ==> FitDebug(p, rs, x))
  }

  ghost predicate ResolvedFrom(p: Providers, rs: seq<Resolved>) {
    && (forall i, j :: 0 <= i < j < |rs| ==> rs[i].id != rs[j].id)
    && (forall r :: r in rs ==> WellFormed(p, r))
  }

  lemma DistinctFromIndices(p: Providers, rs: seq<Resolved>)
    requires ResolvedFrom(p, rs)
    ensures DistinctIds(rs)
  {
  }

  lemma ProvidersFit(p: Providers, rs: seq<Resolved>)
    requires ProviderModel(p)
    ensures Fits(p, rs, p.runs, p.debugs)
  {
    forall x | x in p.runs ensures FitRun(p, rs, x) {
      assert ClosedRun(p.targets, p.runs, p.debugs, x);
      if x.debugConfigurationId.Some? {
        var d :| d in p.debugs && d.id == x.debugConfigurationId.value;
        assert ExpectedDebug(p, rs, x.debugConfigurationId.value, d.projectId);
      }
    }
    forall x | x in p.debugs ensures FitDebug(p, rs, x) {
      assert ClosedDebug(p.targets, p.debugs, x);
    }
  }

  lemma PrefixesDiffer(a: string, b: string)
    ensures SHARED_RUN + a != SHARED_DEBUG + b
  {
    assert (SHARED_RUN + a)[7] == 'r';
    assert (SHARED_DEBUG + b)[7] == 'd';
  }

  lemma ExpectedRunProject(p: Providers, rs: seq<Resolved>, id: string, q: string, q': string)
    requires ProviderModel(p) && DistinctIds(rs)
    requires ExpectedRun(p, rs, id, q) && ExpectedRun(p, rs, id, q')
    ensures q == q'
  {
    forall r | r in rs && id == SHARED_RUN + r.id ensures !ProviderId(id) && r.id == id[|SHARED_RUN|..] {
      StripPrefixOfConcat(SHARED_RUN, r.id);
    }
  }

  lemma ExpectedDebugProject(p: Providers, rs: seq<Resolved>, id: string, q: string, q': string)
    requires ProviderModel(p) && DistinctIds(rs)
    requires ExpectedDebug(p, rs, id, q) && ExpectedDebug(p, rs, id, q')
    ensures q == q'
  {
    forall r | r in rs && id == SHARED_DEBUG + r.id ensures !ProviderId(id) && r.id == id[|SHARED_DEBUG|..] {
      StripPrefixOfConcat(SHARED_DEBUG, r.id);
    }
  }

  /** A run child that resolves is an expected run entry of its parent's project. */
  lemma RunChildIsExpected(p: Providers, s: Scope, reference: string, projectId: string)
    requires ProviderModel(p) && DistinctIds(s.resolved) && Fits(p, s.resolved, s.runs, s.debugs)
    requires !s.debug && ResolveChild(s, reference, projectId).Ok?
    ensures ExpectedRun(p, s.resolved, ResolveChild(s, reference, projectId).value, projectId)
  {
    var childId := ResolveChild(s, reference, projectId).value;
    var named := FindNamed(s.resolved, Trim(reference));
    if named.Some? {
      StripPrefixOfConcat(SHARED_RUN, named.value.id);
      assert FindShared(s.resolved, named.value.id) == Some(named.value);
    } else {
      var run := ProviderRun(s.runs, Trim(reference), Some(projectId)).value.value;
      assert FitRun(p, s.resolved, run) && run.id == childId;
    }
  }

  /** The project check settles the project of every debug child that exists. */
  lemma CheckedDebugChild(p: Providers, s: Scope, childId: string, q: string, projectId: string)
    requires ProviderModel(p) && DistinctIds(s.resolved) && Fits(p, s.resolved, s.runs, s.debugs)
    requires s.debug && ExpectedDebug(p, s.resolved, childId, q)
    requires ChildProject(s, childId).None? || ChildProject(s, childId).value == projectId
    ensures ExpectedDebug(p, s.resolved, childId, projectId)
  {
    if r :| r in s.resolved && childId == SHARED_DEBUG + r.id && r.projectId == q && HasDebugEntry(r) {
      StripPrefixOfConcat(SHARED_DEBUG, r.id);
      if StripPrefix(childId, SHARED_RUN).Some? {
        PrefixesDiffer(StripPrefix(childId, SHARED_RUN).value, r.id);
      }
      assert FindShared(s.resolved, r.id) == Some(r);
    } else {
      var x :| x in p.debugs && x.id == childId && x.projectId == q;
      assert x in s.debugs;
      assert StripPrefix(childId, SHARED_RUN).None? && StripPrefix(childId, SHARED_DEBUG).None?;
      assert FitDebug(p, s.resolved, FindDebug(s.debugs, childId).value);
    }
  }

  lemma DebugTargetIsExpected(p: Providers, s: Scope, reference: string, projectId: string)
    requires Fits(p, s.resolved, s.runs, s.debugs)
    requires DebugTarget(s, reference, projectId).Ok? && DebugTarget(s, reference, projectId).value.Some?
    ensures exists q :: ExpectedDebug(p, s.resolved, DebugTarget(s, reference, projectId).value.value, q)
  {
    var found := ProviderDebug(s.debugs, reference, Some(projectId)).value;
    if found.Some? {
      assert FitDebug(p, s.resolved, found.value);
    } else {
      assert FitRun(p, s.resolved, ProviderRun(s.runs, reference, Some(projectId)).value.value);
    }
  }

  /** A debug child that resolves is an expected debug entry of its parent's project. */
  lemma DebugChildIsExpected(p: Providers, s: Scope, reference: string, projectId: string)
    requires ProviderModel(p) && DistinctIds(s.resolved) && Fits(p, s.resolved, s.runs, s.debugs)
    requires s.debug && ResolveChild(s, reference, projectId).Ok?
    ensures ExpectedDebug(p, s.resolved, ResolveChild(s, reference, projectId).value, projectId)
  {
    var name := Trim(reference);
    var childId := ResolveChild(s, reference, projectId).value;
    var named := FindNamed(s.resolved, name);
    var lookup := if named.Some? then named.value.debugReference else Some(name);
    if named.Some? && HasDebugEntry(named.value) {
      assert ExpectedDebug(p, s.resolved, childId, named.value.projectId);
      CheckedDebugChild(p, s, childId, named.value.projectId, projectId);
    } else if DebugTarget(s, lookup.value, projectId).value.Some? {
      DebugTargetIsExpected(p, s, lookup.value, projectId);
      var q :| ExpectedDebug(p, s.resolved, childId, q);
      CheckedDebugChild(p, s, childId, q, projectId);
    } else {
      var shared := FindShared(s.resolved, lookup.value).value;
      assert ExpectedDebug(p, s.resolved, childId, shared.projectId);
      CheckedDebugChild(p, s, childId, shared.projectId, projectId);
    }
  }

  /** All children of a planned compound are expected entries of its project. */
  lemma PlannedChildrenAreExpected(p: Providers, s: Scope, c: Resolved)
    requires ProviderModel(p) && DistinctIds(s.resolved) && Fits(p, s.resolved, s.runs, s.debugs)
    requires c in s.resolved && PlanIds(s, c).Ok?
    ensures forall k :: k in PlanIds(s, c).value ==>
      if s.debug then ExpectedDebug(p, s.resolved, k, c.projectId) else ExpectedRun(p, s.resolved, k, c.projectId)
    ensures c.compound.Some? && |PlanIds(s, c).value| == |c.compound.value|
  {
    var ids := PlanIds(s, c).value;
    forall i | 0 <= i < |ids|
      ensures if s.debug then ExpectedDebug(p, s.resolved, ids[i], c.projectId)
              else ExpectedRun(p, s.resolved, ids[i], c.projectId)
    {
      var reference := c.compound.value[i];
      assert ResolveChild(s, reference, c.projectId) == Ok(ids[i]);
      if s.debug {
        DebugChildIsExpected(p, s, reference, c.projectId);
      } else {
        RunChildIsExpected(p, s, reference, c.projectId);
      }
    }
  }

  /** Once every expected entry is present, fitting means closed. */
  lemma FittingIsClosed(p: Providers, rs: seq<Resolved>, runs: seq<RunConfiguration>, debugs: seq<DebugConfiguration>)
    requires ProviderModel(p) && DistinctIds(rs) && Fits(p, rs, runs, debugs)
    requires forall r :: r in rs ==> exists x :: x in runs && x.id == SHARED_RUN + r.id
    requires forall r :: r in rs && HasDebugEntry(r) ==> exists x :: x in debugs && x.id == SHARED_DEBUG + r.id
    ensures Closed(p.targets, runs, debugs)
  {
    forall k, q | ExpectedRun(p, rs, k, q) ensures NamesRun(runs, k, q) {
      if x :| x in p.runs && x.id == k && x.projectId == q {
        assert x in runs;
      }
      forall x | x in runs && x.id == k ensures x.projectId == q {
        ExpectedRunProject(p, rs, k, q, x.projectId);
      }
    }
    forall k, q | ExpectedDebug(p, rs, k, q) ensures NamesDebug(debugs, k, q) {
      if x :| x in p.debugs && x.id == k && x.projectId == q {
        assert x in debugs;
      }
      forall x | x in debugs && x.id == k ensures x.projectId == q {
        ExpectedDebugProject(p, rs, k, q, x.projectId);
      }
    }
    forall x | x in runs ensures ClosedRun(p.targets, runs, debugs, x) {
      assert FitRun(p, rs, x);
      if x.debugConfigurationId.Some? {
        var q :| ExpectedDebug(p, rs, x.debugConfigurationId.value, q);
        assert NamesDebug(debugs, x.debugConfigurationId.value, q);
      }
    }
    forall x | x in debugs ensures ClosedDebug(p.targets, debugs, x) {
      assert FitDebug(p, rs, x);
    }
  }

  // ---------------------------------------------------------------------
  // The merge itself.

  /** The availability of a debug entry and the diagnostic that explains it. */
  function ProbeDebug(debug: ResolvedDebug, commandFound: bool): (bool, Option<string>) {
    var known := debug.adapterId in KNOWN_ADAPTERS;
    var enabled := debug.available.None? || debug.available.value;
    var runnable := debug.adapterId == "java" || commandFound;
    (enabled && known && runnable,
     if !known then Some("Debug adapter `" + debug.adapterId + "` is not registered by Code Workspace")
     else if !runnable then Some("Debug adapter executable for `" + debug.adapterId + "` was not found")
     else if !enabled then Some("Shared configuration explicitly disabled this debug target")
     else None)
  }

  /** Entries whose debug id other entries may refer to. */
  function SharedDebugIds(s: Scope): (ids: set<string>)
    ensures forall id :: id in ids ==> exists r :: r in s.resolved && r.id == id && HasDebugEntry(r)
  {
    set r | r in s.resolved && (r.debug.Some? || (r.compound.Some? && PlanIds(s.(debug := true), r).Ok?)) :: r.id
  }

  predicate KnownReference(p: Providers, shared: set<string>, r: Resolved) {
    r.debugReference.Some? ==>
      r.debugReference.value in shared || exists d :: d in p.debugs && d.id == r.debugReference.value
  }

  // The entries that one repository entry becomes, against the model emitted so far.

  function TargetDebugEntry(c: Resolved, debug: ResolvedDebug, commandFound: bool): DebugConfiguration {
    var (available, diagnostic) := ProbeDebug(debug, commandFound);
    DebugConfiguration(SHARED_DEBUG + c.id, c.projectId, c.caption, debug.adapterId, debug.request,
                       available, diagnostic, c.beforeLaunch, None)
  }

  function CompoundDebugEntry(c: Resolved, plan: Result<seq<string>, PlanError>): DebugConfiguration {
    DebugConfiguration(
      SHARED_DEBUG + c.id, c.projectId, c.caption, "compound", "launch",
      plan.Ok? && plan.value != [],
      if plan.Err? then Some("Compound Debug is unavailable: " + Render(plan.error)) else None,
      c.beforeLaunch,
      if plan.Ok? then Some(plan.value) else None)
  }

  function DebugEntries(s: Scope, c: Resolved, commandFound: bool): seq<DebugConfiguration>
    requires c in s.resolved
  {
    if c.compound.Some? then [CompoundDebugEntry(c, PlanIds(s.(debug := true), c))]
    else if c.debug.Some? then [TargetDebugEntry(c, c.debug.value, commandFound)]
    else []
  }

  /** The debug id of a target: its own, or the one it refers to. */
  function TargetDebugId(c: Resolved, shared: set<string>): Option<string> {
    if c.debug.Some? then Some(SHARED_DEBUG + c.id)
    else if c.debugReference.Some? && c.debugReference.value in shared then
      Some(SHARED_DEBUG + c.debugReference.value)
    else c.debugReference
  }

  function RunKind(c: Resolved): string {
    if c.run.Some? then c.kind else "debug-only"
  }

  function RunExecutable(c: Resolved): string {
    if c.run.Some? then c.run.value.executable else NO_RUN
  }

  function RunEntry(s: Scope, c: Resolved, shared: set<string>): RunConfiguration
    requires c in s.resolved
  {
    if c.compound.Some? then
      var plan := PlanIds(s.(debug := false), c);
      RunConfiguration(SHARED_RUN + c.id, c.projectId, c.caption, "compound", NO_COMPOUND, c.beforeLaunch,
                       Some(SHARED_DEBUG + c.id), Some(if plan.Ok? then plan.value else []))
    else
      RunConfiguration(SHARED_RUN + c.id, c.projectId, c.caption, RunKind(c), RunExecutable(c),
                       c.beforeLaunch, TargetDebugId(c, shared), None)
  }

  datatype Lists = Lists(runs: seq<RunConfiguration>, debugs: seq<DebugConfiguration>)

  /** The run and debug lists once the first `n` repository entries are emitted. */
  function Emitted(p: Providers, rs: seq<Resolved>, n: nat, shared: set<string>, commandFound: set<string>): Lists
    requires n <= |rs|
  {
    if n == 0 then Lists(p.runs, p.debugs)
    else
      var before := Emitted(p, rs, n - 1, shared, commandFound);
      var s := Scope(rs, before.runs, before.debugs, true);
      var c := rs[n - 1];
      Lists(before.runs + [RunEntry(s, c, shared)], before.debugs + DebugEntries(s, c, c.id in commandFound))
  }

  // What makes a file mergeable.

  ghost predicate DistinctTrimmedIds(configurations: seq<SharedConfiguration>) {
    forall i, j :: 0 <= i < j < |configurations| ==> Trim(configurations[i].id) != Trim(configurations[j].id)
  }

  ghost predicate ResolvesTo(p: Providers, standalone: Project, configurations: seq<SharedConfiguration>,
                             resolved: seq<Resolved>)
  {
    && |resolved| == |configurations|
    && forall i :: 0 <= i < |resolved| ==> Resolve(p, standalone, configurations[i]) == Ok(resolved[i])
  }

  /** Every compound can be executed in some mode and in no mode leads to a cycle; every debug reference is known. */
  ghost predicate Checked(p: Providers, resolved: seq<Resolved>) {
    var s := Scope(resolved, p.runs, p.debugs, true);
    && (forall c :: c in resolved && c.compound.Some? ==> Accepted(s, c))
    && (forall r :: r in resolved ==> KnownReference(p, SharedDebugIds(s), r))
  }

  ghost predicate Mergeable(p: Providers, standalone: Project, configurations: seq<SharedConfiguration>) {
    && DistinctTrimmedIds(configurations)
    && exists resolved :: ResolvesTo(p, standalone, configurations, resolved) && Checked(p, resolved)
  }

  lemma ResolvesToOne(p: Providers, standalone: Project, configurations: seq<SharedConfiguration>,
                      a: seq<Resolved>, b: seq<Resolved>)
    requires ResolvesTo(p, standalone, configurations, a) && ResolvesTo(p, standalone, configurations, b)
    ensures a == b
  {
    hide Resolve;
    forall i | 0 <= i < |a|
      ensures a[i] == b[i]
    {
      assert Resolve(p, standalone, configurations[i]) == Ok(a[i]) == Ok(b[i]);
    }
  }

  lemma MergeableWhenChecked(p: Providers, standalone: Project, configurations: seq<SharedConfiguration>,
                             resolved: seq<Resolved>)
    requires DistinctTrimmedIds(configurations) && ResolvesTo(p, standalone, configurations, resolved)
    ensures Mergeable(p, standalone, configurations) <==> Checked(p, resolved)
  {
    hide Checked, ResolvesTo, DistinctTrimmedIds;
    if Mergeable(p, standalone, configurations) {
      var other :| ResolvesTo(p, standalone, configurations, other) && Checked(p, other);
      ResolvesToOne(p, standalone, configurations, resolved, other);
    }
  }

  lemma NotMergeable(p: Providers, standalone: Project, configurations: seq<SharedConfiguration>, i: nat)
    requires i < |configurations| && Resolve(p, standalone, configurations[i]).Err?
    ensures !Mergeable(p, standalone, configurations)
  {
    hide Checked, Resolve, DistinctTrimmedIds;
    forall resolved
      ensures !ResolvesTo(p, standalone, configurations, resolved)
    {
      assert |resolved| == |configurations| ==> Resolve(p, standalone, configurations[i]) != Ok(resolved[i]);
    }
  }

  /** No available compound lists a child that is unavailable. */
  ghost predicate AvailabilitySettled(debugs: seq<DebugConfiguration>) {
    forall x, y ::
      (x in debugs && y in debugs && x.available && x.compoundConfigurationIds.Some?
       && y.id in x.compoundConfigurationIds.value) ==> y.available
  }

  ghost predicate DistinctDebugIds(debugs: seq<DebugConfiguration>) {
    forall x, y :: x in debugs && y in debugs && x.id == y.id ==> x == y
  }

  /** The providers' runs, then one run entry for each of the first `n` repository entries. */
  ghost predicate EmittedRuns(p: Providers, rs: seq<Resolved>, n: nat, runs: seq<RunConfiguration>)
    requires n <= |rs|
  {
    && |runs| == |p.runs| + n
    && p.runs <= runs
    && forall j :: 0 <= j < n ==> runs[|p.runs| + j].id == SHARED_RUN + rs[j].id
  }

  /** The providers' debug entries and those of the first `n` repository entries, under distinct ids. */
  ghost predicate EmittedDebugs(p: Providers, rs: seq<Resolved>, n: nat, debugs: seq<DebugConfiguration>)
    requires n <= |rs|
  {
    && p.debugs <= debugs
    && DistinctDebugIds(debugs)
    && (forall x :: x in debugs ==>
          x in p.debugs || exists j :: 0 <= j < n && HasDebugEntry(rs[j]) && x.id == SHARED_DEBUG + rs[j].id)
    && (forall j :: 0 <= j < n && HasDebugEntry(rs[j]) ==>
          exists x :: x in debugs && x.id == SHARED_DEBUG + rs[j].id)
  }

  /** Ids that other entries may refer to belong to entries with a debug target. */
  ghost predicate SharedIdsExist(rs: seq<Resolved>, shared: set<string>) {
    forall id :: id in shared ==> exists r :: r in rs && r.id == id && HasDebugEntry(r)
  }

  lemma ReferenceIsExpected(p: Providers, rs: seq<Resolved>, shared: set<string>, c: Resolved, id: string)
    requires KnownReference(p, shared, c) && SharedIdsExist(rs, shared) && c.debugReference.Some?
    requires id == if c.debugReference.value in shared then SHARED_DEBUG + c.debugReference.value
                   else c.debugReference.value
    ensures exists q :: ExpectedDebug(p, rs, id, q)
  {
    var reference := c.debugReference.value;
    if reference in shared {
      var r :| r in rs && r.id == reference && HasDebugEntry(r);
      assert ExpectedDebug(p, rs, id, r.projectId);
    } else {
      var d :| d in p.debugs && d.id == reference;
      assert ExpectedDebug(p, rs, id, d.projectId);
    }
  }

  lemma WellFormedEntry(p: Providers, rs: seq<Resolved>, c: Resolved)
    requires ResolvedFrom(p, rs) && c in rs
    ensures WellFormed(p, c)
  {
  }

  lemma EntryShape(s: Scope, c: Resolved, shared: set<string>, commandFound: bool)
    requires c in s.resolved
    ensures RunEntry(s, c, shared).id == SHARED_RUN + c.id
    ensures !HasDebugEntry(c) ==> DebugEntries(s, c, commandFound) == []
    ensures HasDebugEntry(c) ==>
      |DebugEntries(s, c, commandFound)| == 1 && DebugEntries(s, c, commandFound)[0].id == SHARED_DEBUG + c.id
  {
  }

  lemma NothingEmittedYet(p: Providers, rs: seq<Resolved>)
    requires ProviderModel(p)
    ensures EmittedRuns(p, rs, 0, p.runs) && EmittedDebugs(p, rs, 0, p.debugs)
  {
  }

  lemma EmittedRunsStep(p: Providers, rs: seq<Resolved>, i: nat,
                        before: seq<RunConfiguration>, after: seq<RunConfiguration>)
    requires i < |rs| && EmittedRuns(p, rs, i, before)
    requires exists x :: after == before + [x] && x.id == SHARED_RUN + rs[i].id
    ensures EmittedRuns(p, rs, i + 1, after)
  {
  }

  lemma EmittedDebugsStep(p: Providers, rs: seq<Resolved>, i: nat,
                          before: seq<DebugConfiguration>, after: seq<DebugConfiguration>)
    requires ProviderModel(p) && ResolvedFrom(p, rs)
    requires i < |rs| && EmittedDebugs(p, rs, i, before)
    requires !HasDebugEntry(rs[i]) ==> after == before
    requires HasDebugEntry(rs[i]) ==> exists x :: after == before + [x] && x.id == SHARED_DEBUG + rs[i].id
    ensures EmittedDebugs(p, rs, i + 1, after)
  {
    if HasDebugEntry(rs[i]) {
      var e :| after == before + [e] && e.id == SHARED_DEBUG + rs[i].id;
      StripPrefixOfConcat(SHARED_DEBUG, rs[i].id);
      forall x | x in before ensures x.id != e.id {
        if x !in p.debugs {
          var j :| 0 <= j < i && x.id == SHARED_DEBUG + rs[j].id;
          StripPrefixOfConcat(SHARED_DEBUG, rs[j].id);
        }
      }
      assert e in after;
      assert forall x :: x in after <==> x in before || x == e;
    }
  }

  lemma OneMoreEmitted(p: Providers, rs: seq<Resolved>, i: nat, s: Scope, shared: set<string>, commandFound: bool)
    requires ProviderModel(p) && ResolvedFrom(p, rs) && i < |rs| && s.resolved == rs && rs[i] in rs
    requires EmittedRuns(p, rs, i, s.runs) && EmittedDebugs(p, rs, i, s.debugs)
    ensures EmittedRuns(p, rs, i + 1, s.runs + [RunEntry(s, rs[i], shared)])
    ensures EmittedDebugs(p, rs, i + 1, s.debugs + DebugEntries(s, rs[i], commandFound))
  {
    hide RunEntry, DebugEntries, ProviderModel, ResolvedFrom, EmittedRuns, EmittedDebugs;
    EntryShape(s, rs[i], shared, commandFound);
    var added := DebugEntries(s, rs[i], commandFound);
    assert HasDebugEntry(rs[i]) ==> added == [added[0]];
    assert !HasDebugEntry(rs[i]) ==> s.debugs + added == s.debugs;
    EmittedDebugsStep(p, rs, i, s.debugs, s.debugs + added);
    EmittedRunsStep(p, rs, i, s.runs, s.runs + [RunEntry(s, rs[i], shared)]);
  }

  lemma EverythingEmitted(p: Providers, rs: seq<Resolved>, runs: seq<RunConfiguration>,
                          debugs: seq<DebugConfiguration>)
    requires EmittedRuns(p, rs, |rs|, runs) && EmittedDebugs(p, rs, |rs|, debugs)
    ensures DistinctDebugIds(debugs)
    ensures forall r :: r in rs ==> exists x :: x in runs && x.id == SHARED_RUN + r.id
    ensures forall r :: r in rs && HasDebugEntry(r) ==> exists x :: x in debugs && x.id == SHARED_DEBUG + r.id
  {
    forall r | r in rs ensures exists x :: x in runs && x.id == SHARED_RUN + r.id {
      var i :| 0 <= i < |rs| && rs[i] == r;
      assert runs[|p.runs| + i] in runs;
    }
  }

  ghost predicate WrittenBack(m: Availability.Table, before: DebugConfiguration, after: DebugConfiguration) {
    && before.id in m
    && after == before.(available := m[before.id].available, diagnostic := m[before.id].diagnostic)
  }

  ghost predicate WrittenBackAll(m: Availability.Table, before: seq<DebugConfiguration>,
                                 after: seq<DebugConfiguration>)
  {
    |after| == |before| && forall i :: 0 <= i < |after| ==> WrittenBack(m, before[i], after[i])
  }

  /** The entries carry the outcome of the propagation: each diagnostic that changed names a child that is down. */
  ghost predicate OutcomeWritten(before: seq<DebugConfiguration>, after: seq<DebugConfiguration>) {
    exists m :: Availability.Explained(Availability.Collect(before), m) && WrittenBackAll(m, before, after)
  }

  ghost predicate SameButAvailability(before: seq<DebugConfiguration>, after: seq<DebugConfiguration>) {
    && |after| == |before|
    && forall i :: 0 <= i < |after| ==>
         after[i] == before[i].(available := after[i].available, diagnostic := after[i].diagnostic)
  }

  ghost predicate SameIds(configurations: seq<SharedConfiguration>, resolved: seq<Resolved>) {
    && |resolved| == |configurations|
    && forall i :: 0 <= i < |resolved| ==> resolved[i].id == Trim(configurations[i].id)
  }

  lemma ResolvedEntries(p: Providers, standalone: Project, configurations: seq<SharedConfiguration>,
                        resolved: seq<Resolved>)
    requires ResolvesTo(p, standalone, configurations, resolved) && DistinctTrimmedIds(configurations)
    ensures ResolvedFrom(p, resolved) && SameIds(configurations, resolved)
  {
    forall i | 0 <= i < |resolved|
      ensures WellFormed(p, resolved[i]) && resolved[i].id == Trim(configurations[i].id)
    {
      assert Resolve(p, standalone, configurations[i]) == Ok(resolved[i]);
    }
  }

  lemma WrittenBackIsSettled(before: seq<DebugConfiguration>, after: seq<DebugConfiguration>, m: Availability.Table)
    requires DistinctDebugIds(before)
    requires Availability.Lowers(Availability.Collect(before), m) && Availability.Settled(m)
    requires WrittenBackAll(m, before, after)
    ensures AvailabilitySettled(after)
  {
    WrittenBackLooksUp(m, before, after);
    forall x, y | x in after && y in after && x.available && x.compoundConfigurationIds.Some?
                  && y.id in x.compoundConfigurationIds.value
      ensures y.available
    {
      WrittenBackChildren(before, after, m, x);
      assert !Availability.Pending(m, x.id);
    }
  }

  lemma WrittenBackChildren(before: seq<DebugConfiguration>, after: seq<DebugConfiguration>, m: Availability.Table,
                            x: DebugConfiguration)
    requires DistinctDebugIds(before) && x in after
    requires Availability.Lowers(Availability.Collect(before), m)
    requires WrittenBackAll(m, before, after)
    ensures x.id in m && m[x.id].children == x.compoundConfigurationIds
  {
    var i :| 0 <= i < |after| && after[i] == x;
    assert WrittenBack(m, before[i], after[i]) && before[i] in before;
  }

  lemma WrittenBackLooksUp(m: Availability.Table, before: seq<DebugConfiguration>, after: seq<DebugConfiguration>)
    requires WrittenBackAll(m, before, after)
    ensures forall x :: x in after ==> x.id in m && x.available == m[x.id].available
    ensures SameButAvailability(before, after)
  {
    forall x | x in after
      ensures x.id in m && x.available == m[x.id].available
    {
      var i :| 0 <= i < |after| && after[i] == x;
      assert WrittenBack(m, before[i], after[i]);
    }
  }

  lemma DistinctStep(configurations: seq<SharedConfiguration>, i: nat, ids: set<string>)
    requires i < |configurations|
    requires forall id :: id in ids <==> exists j :: 0 <= j < i && Trim(configurations[j].id) == id
    ensures DistinctTrimmedIds(configurations[..i + 1]) <==>
            DistinctTrimmedIds(configurations[..i]) && Trim(configurations[i].id) !in ids
  {
    hide Trim;
    var front := configurations[..i + 1];
    if DistinctTrimmedIds(front) {
      forall j | 0 <= j < i
        ensures Trim(configurations[j].id) != Trim(configurations[i].id)
      {
        assert Trim(front[j].id) != Trim(front[i].id);
      }
      forall j, k | 0 <= j < k < i
        ensures Trim(configurations[j].id) != Trim(configurations[k].id)
      {
        assert Trim(front[j].id) != Trim(front[k].id);
      }
    }
  }

  class ModelBuilder {
    var projects: seq<Project>
    var targets: seq<BuildTarget>
    var runs: seq<RunConfiguration>
    var debugs: seq<DebugConfiguration>
    var diagnostics: seq<string>

    function View(): Providers
      reads this
    {
      Providers(projects, targets, runs, debugs)
    }

    /** Reports ids that are equal after trimming. */
    method CheckDuplicates(configurations: seq<SharedConfiguration>)
      modifies this`diagnostics
      ensures diagnostics == [] <==> old(diagnostics) == [] && DistinctTrimmedIds(configurations)
    {
      var ids := {};
      for i := 0 to |configurations|
        invariant forall id :: id in ids <==> exists j :: 0 <= j < i && Trim(configurations[j].id) == id
        invariant diagnostics == [] <==> old(diagnostics) == [] && DistinctTrimmedIds(configurations[..i])
      {
        var id := Trim(configurations[i].id);
        DistinctStep(configurations, i, ids);
        if id in ids {
          diagnostics := diagnostics
            + ["Shared Run/Debug configuration `" + configurations[i].id + "`: duplicate id"];
        }
        ids := ids + {id};
      }
      assert configurations[..|configurations|] == configurations;
    }

    method ResolveAllEntries(configurations: seq<SharedConfiguration>, standalone: Project)
      returns (resolved: seq<Resolved>)
      modifies this`diagnostics
      ensures diagnostics == [] ==>
        old(diagnostics) == [] && ResolvesTo(View(), standalone, configurations, resolved)
      ensures diagnostics != [] ==>
        old(diagnostics) != []
        || exists i :: 0 <= i < |configurations| && Resolve(View(), standalone, configurations[i]).Err?
    {
      hide Resolve;
      resolved := [];
      for i := 0 to |configurations|
        invariant diagnostics == [] ==>
          old(diagnostics) == [] && ResolvesTo(View(), standalone, configurations[..i], resolved)
        invariant diagnostics != [] ==>
          old(diagnostics) != []
          || exists j :: 0 <= j < i && Resolve(View(), standalone, configurations[j]).Err?
      {
        match Resolve(View(), standalone, configurations[i]) {
          case Ok(configuration) =>
            resolved := resolved + [configuration];
          case Err(e) =>
            diagnostics := diagnostics
              + ["Shared Run/Debug configuration `" + configurations[i].id + "`: " + e];
        }
      }
      assert configurations[..|configurations|] == configurations;
    }

    method CheckDebugReferences(resolved: seq<Resolved>, shared: set<string>)
      modifies this`diagnostics
      ensures diagnostics == [] <==>
        old(diagnostics) == [] && forall r :: r in resolved ==> KnownReference(View(), shared, r)
    {
      for i := 0 to |resolved|
        invariant diagnostics == [] <==>
          old(diagnostics) == [] && forall j :: 0 <= j < i ==> KnownReference(View(), shared, resolved[j])
      {
        if !KnownReference(View(), shared, resolved[i]) {
          diagnostics := diagnostics
            + ["Shared Run/Debug configuration `" + resolved[i].id + "`: unknown debug reference `"
               + resolved[i].debugReference.value + "`"];
        }
      }
    }

    /** Plans a compound against the model built so far; the children it finds are expected entries. */
    method CompoundPlan(rs: seq<Resolved>, c: Resolved, debug: bool, ghost p: Providers)
      returns (plan: Result<seq<string>, PlanError>)
      requires ProviderModel(p) && ResolvedFrom(p, rs) && c in rs
      requires Fits(p, rs, runs, debugs)
      ensures plan == PlanIds(Scope(rs, runs, debugs, debug), c)
      ensures plan.Ok? ==> forall k :: k in plan.value ==>
        if debug then ExpectedDebug(p, rs, k, c.projectId) else ExpectedRun(p, rs, k, c.projectId)
    {
      var s := Scope(rs, runs, debugs, debug);
      plan := ResolvePlanIds(s, c);
      if plan.Ok? {
        DistinctFromIndices(p, rs);
        PlannedChildrenAreExpected(p, s, c);
      }
    }

    /** Emits the entries of one resolved configuration. */
    method Emit(rs: seq<Resolved>, c: Resolved, shared: set<string>, commandFound: bool, ghost p: Providers)
      requires ProviderModel(p) && ResolvedFrom(p, rs) && c in rs
      requires Fits(p, rs, runs, debugs)
      requires KnownReference(p, shared, c) && SharedIdsExist(rs, shared)
      modifies this`runs, this`debugs
      ensures Fits(p, rs, runs, debugs)
      ensures var s := Scope(rs, old(runs), old(debugs), true);
        runs == old(runs) + [RunEntry(s, c, shared)] && debugs == old(debugs) + DebugEntries(s, c, commandFound)
    {
      // A compound never defines run, debug or a debug reference of its own.
      assert WellFormed(p, c);
      if c.compound.Some? {
        EmitCompound(rs, c, p);
      } else {
        EmitTarget(rs, c, shared, commandFound, p);
      }
    }

    /** An entry with a run target, or one that can only be debugged. */
    method EmitTarget(rs: seq<Resolved>, c: Resolved, shared: set<string>, commandFound: bool, ghost p: Providers)
      requires c in rs && WellFormed(p, c) && c.compound.None?
      requires Fits(p, rs, runs, debugs)
      requires KnownReference(p, shared, c) && SharedIdsExist(rs, shared)
      modifies this`runs, this`debugs
      ensures Fits(p, rs, runs, debugs)
      ensures var s := Scope(rs, old(runs), old(debugs), true);
        runs == old(runs) + [RunEntry(s, c, shared)] && debugs == old(debugs) + DebugEntries(s, c, commandFound)
    {
      var debugId := None;
      if c.debug.Some? {
        var (available, diagnostic) := ProbeDebug(c.debug.value, commandFound);
        debugId := PushDebug(rs, c, c.debug.value.adapterId, c.debug.value.request, available, diagnostic, None, p);
      } else if c.debugReference.Some? {
        var reference := c.debugReference.value;
        debugId := Some(if reference in shared then SHARED_DEBUG + reference else reference);
        ReferenceIsExpected(p, rs, shared, c, debugId.value);
      }
      PushRun(rs, c, RunKind(c), RunExecutable(c), debugId, None, p);
    }

    /** A compound always gets both entries; a mode without a plan has no children. */
    method EmitCompound(rs: seq<Resolved>, c: Resolved, ghost p: Providers)
      requires ProviderModel(p) && ResolvedFrom(p, rs) && c in rs && c.compound.Some?
      requires Fits(p, rs, runs, debugs)
      modifies this`runs, this`debugs
      ensures Fits(p, rs, runs, debugs)
      ensures var s := Scope(rs, old(runs), old(debugs), true);
        && runs == old(runs) + [RunEntry(s, c, {})]
        && debugs == old(debugs) + [CompoundDebugEntry(c, PlanIds(s, c))]
    {
      hide PlanIds, Render, Fits, ResolvedFrom, ProviderModel;
      WellFormedEntry(p, rs, c);
      var runPlan := CompoundPlan(rs, c, false, p);
      var debugPlan := CompoundPlan(rs, c, true, p);
      var diagnostic := if debugPlan.Err?
                        then Some("Compound Debug is unavailable: " + Render(debugPlan.error)) else None;
      var available := diagnostic.None? && debugPlan.Ok? && debugPlan.value != [];
      var debugId := PushDebug(rs, c, "compound", "launch", available, diagnostic,
                               if debugPlan.Ok? then Some(debugPlan.value) else None, p);
      PushRun(rs, c, "compound", NO_COMPOUND, debugId, Some(if runPlan.Ok? then runPlan.value else []), p);
    }

    method PushDebug(rs: seq<Resolved>, c: Resolved, adapterId: string, request: string, available: bool,
                     diagnostic: Option<string>, compoundIds: Option<seq<string>>, ghost p: Providers)
      returns (debugId: Option<string>)
      requires Fits(p, rs, runs, debugs) && c in rs && HasDebugEntry(c)
      requires NamesTargets(p.targets, c.beforeLaunch)
      requires compoundIds.Some? ==> forall k :: k in compoundIds.value ==> ExpectedDebug(p, rs, k, c.projectId)
      modifies this`debugs
      ensures Fits(p, rs, runs, debugs)
      ensures debugs == old(debugs) + [DebugConfiguration(SHARED_DEBUG + c.id, c.projectId, c.caption, adapterId, request,
                                                          available, diagnostic, c.beforeLaunch, compoundIds)]
      ensures debugId == Some(SHARED_DEBUG + c.id) && exists q :: ExpectedDebug(p, rs, debugId.value, q)
    {
      var entry := DebugConfiguration(SHARED_DEBUG + c.id, c.projectId, c.caption, adapterId, request,
                                      available, diagnostic, c.beforeLaunch, compoundIds);
      assert ExpectedDebug(p, rs, entry.id, c.projectId);
      assert FitDebug(p, rs, entry);
      debugs := debugs + [entry];
      debugId := Some(entry.id);
    }

    method PushRun(rs: seq<Resolved>, c: Resolved, kind: string, executable: string, debugId: Option<string>,
                   compoundIds: Option<seq<string>>, ghost p: Providers)
      requires Fits(p, rs, runs, debugs) && c in rs
      requires NamesTargets(p.targets, c.beforeLaunch)
      requires debugId.Some? ==> exists q :: ExpectedDebug(p, rs, debugId.value, q)
      requires compoundIds.Some? ==> forall k :: k in compoundIds.value ==> ExpectedRun(p, rs, k, c.projectId)
      modifies this`runs
      ensures Fits(p, rs, runs, debugs)
      ensures runs == old(runs) + [RunConfiguration(SHARED_RUN + c.id, c.projectId, c.caption, kind, executable,
                                                    c.beforeLaunch, debugId, compoundIds)]
    {
      var entry := RunConfiguration(SHARED_RUN + c.id, c.projectId, c.caption, kind, executable,
                                    c.beforeLaunch, debugId, compoundIds);
      assert FitRun(p, rs, entry);
      runs := runs + [entry];
    }

    method EmitAll(rs: seq<Resolved>, shared: set<string>, commandFound: set<string>, ghost p: Providers)
      requires ProviderModel(p) && ResolvedFrom(p, rs)
      requires runs == p.runs && debugs == p.debugs
      requires (forall r :: r in rs ==> KnownReference(p, shared, r)) && SharedIdsExist(rs, shared)
      modifies this`runs, this`debugs
      ensures Lists(runs, debugs) == Emitted(p, rs, |rs|, shared, commandFound)
      ensures DistinctDebugIds(debugs) && Closed(p.targets, runs, debugs)
    {
      hide RunEntry, DebugEntries, KnownReference, Closed, ProviderModel, Fits, EmittedRuns, EmittedDebugs, SharedIdsExist;
      ProvidersFit(p, rs);
      NothingEmittedYet(p, rs);
      for i := 0 to |rs|
        invariant Fits(p, rs, runs, debugs)
        invariant Lists(runs, debugs) == Emitted(p, rs, i, shared, commandFound)
        invariant EmittedRuns(p, rs, i, runs)
        invariant EmittedDebugs(p, rs, i, debugs)
      {
        ghost var s := Scope(rs, runs, debugs, true);
        assert rs[i] in rs;
        Emit(rs, rs[i], shared, rs[i].id in commandFound, p);
        OneMoreEmitted(p, rs, i, s, shared, rs[i].id in commandFound);
      }
      EverythingEmitted(p, rs, runs, debugs);
      DistinctFromIndices(p, rs);
      FittingIsClosed(p, rs, runs, debugs);
    }

    /** Writes a table's availability and diagnostics into the debug entries. */
    method WriteBack(m: Availability.Table)
      requires forall x :: x in debugs ==> x.id in m
      modifies this`debugs
      ensures WrittenBackAll(m, old(debugs), debugs)
    {
      for i := 0 to |debugs|
        invariant |debugs| == |old(debugs)|
        invariant forall j :: i <= j < |debugs| ==> debugs[j] == old(debugs)[j]
        invariant forall j :: 0 <= j < i ==> WrittenBack(m, old(debugs)[j], debugs[j])
      {
        assert old(debugs)[i] in old(debugs);
        var status := m[debugs[i].id];
        debugs := debugs[i := debugs[i].(available := status.available, diagnostic := status.diagnostic)];
      }
    }

    /** Writes the propagated availability back into the debug entries. */
    method PropagateAvailability()
      modifies this`debugs
      ensures SameButAvailability(old(debugs), debugs) && OutcomeWritten(old(debugs), debugs)
      ensures forall x :: x in debugs ==>
        (!x.available <==> Availability.ReachesDown(Availability.Collect(old(debugs)), x.id))
      ensures DistinctDebugIds(old(debugs)) ==> AvailabilitySettled(debugs)
    {
      hide Availability.Collect, AvailabilitySettled, DistinctDebugIds;
      var table := Availability.Collect(debugs);
      var m := Availability.Propagate(table);
      WriteBack(m);
      WrittenBackLooksUp(m, old(debugs), debugs);
      if DistinctDebugIds(old(debugs)) {
        WrittenBackIsSettled(old(debugs), debugs, m);
      }
    }

    /** Resolves and checks the whole file; nothing but diagnostics and the project list can change. */
    method Prepare(configurations: seq<SharedConfiguration>, standalone: Project)
      returns (resolved: seq<Resolved>, shared: set<string>)
      modifies this`projects, this`diagnostics
      ensures diagnostics == [] <==>
        old(diagnostics) == [] && Mergeable(old(View()), standalone, configurations)
      ensures diagnostics == [] ==>
        && DistinctTrimmedIds(configurations)
        && ResolvesTo(old(View()), standalone, configurations, resolved)
        && Checked(old(View()), resolved)
        && shared == SharedDebugIds(Scope(resolved, runs, debugs, true))
        && projects == if old(projects) == [] && configurations != [] then [standalone] else old(projects)
    {
      hide Resolve, DistinctTrimmedIds, SharedDebugIds, KnownReference;
      ghost var p := View();
      resolved, shared := [], {};
      CheckDuplicates(configurations);
      if diagnostics != [] { return; }
      resolved := ResolveAllEntries(configurations, standalone);
      if diagnostics != [] {
        ghost var i :| 0 <= i < |configurations| && Resolve(p, standalone, configurations[i]).Err?;
        NotMergeable(p, standalone, configurations, i);
        return;
      }
      MergeableWhenChecked(p, standalone, configurations, resolved);
      var s := Scope(resolved, runs, debugs, true);
      var error := Validate(s);
      if error.Some? {
        diagnostics := diagnostics + ["Shared Run/Debug configuration: " + error.value];
        return;
      }
      shared := SharedDebugIds(s);
      CheckDebugReferences(resolved, shared);
      if projects == [] && resolved != [] {
        projects := [standalone];
      }
    }

    /**
     * The merge. It succeeds exactly on a mergeable file; any reported problem leaves the run and debug
     * lists as they were. Otherwise the lists hold the emitted entries with a debug entry unavailable
     * exactly if it leads down to an unavailable or missing one, and the finished model is closed.
     */
    method MergeShared(configurations: seq<SharedConfiguration>, standalone: Project, commandFound: set<string>)
      returns (ghost resolved: seq<Resolved>, ghost emitted: Lists)
      requires ProviderModel(View())
      modifies this
      ensures targets == old(targets)
      ensures diagnostics == [] <==> old(diagnostics) == [] && Mergeable(old(View()), standalone, configurations)
      ensures diagnostics != [] ==> runs == old(runs) && debugs == old(debugs)
      ensures diagnostics == [] ==>
        && ResolvesTo(old(View()), standalone, configurations, resolved)
        && ResolvedFrom(old(View()), resolved) && Checked(old(View()), resolved)
        && var shared := SharedDebugIds(Scope(resolved, old(runs), old(debugs), true));
        && emitted == Emitted(old(View()), resolved, |resolved|, shared, commandFound)
        && runs == emitted.runs && SameButAvailability(emitted.debugs, debugs) && OutcomeWritten(emitted.debugs, debugs)
        && forall x :: x in debugs ==>
             (!x.available <==> Availability.ReachesDown(Availability.Collect(emitted.debugs), x.id))
      ensures diagnostics == [] ==> Closed(targets, runs, debugs) && AvailabilitySettled(debugs)
    {
      hide Mergeable, Emitted, Closed, OutcomeWritten, AvailabilitySettled, SharedDebugIds, KnownReference, DistinctTrimmedIds;
      ghost var p := View();
      var entries, shared := Prepare(configurations, standalone);
      resolved, emitted := entries, Lists(runs, debugs);
      if diagnostics != [] { return; }
      ResolvedEntries(p, standalone, configurations, entries);
      SharedDebugIdsExist(Scope(entries, runs, debugs, true));
      EmitAll(entries, shared, commandFound, p);
      emitted := Lists(runs, debugs);
      PropagateAvailability();
      AvailabilityKeepsClosure(targets, runs, emitted.debugs, debugs);
    }
  }

  lemma SharedDebugIdsExist(s: Scope)
    ensures SharedIdsExist(s.resolved, SharedDebugIds(s))
  {
  }

  /** Closure does not depend on availability or diagnostics. */
  lemma AvailabilityKeepsClosure(targets: seq<BuildTarget>, runs: seq<RunConfiguration>,
                                 before: seq<DebugConfiguration>, after: seq<DebugConfiguration>)
    requires Closed(targets, runs, before)
    requires SameButAvailability(before, after)
    ensures Closed(targets, runs, after)
  {
    forall x | x in before ensures exists y :: y in after && y.id == x.id {
      var i :| 0 <= i < |before| && before[i] == x;
      assert after[i] in after;
    }
    forall x | x in runs ensures ClosedRun(targets, runs, after, x) {
      assert ClosedRun(targets, runs, before, x);
    }
    forall y | y in after ensures ClosedDebug(targets, after, y) {
      var i :| 0 <= i < |after| && after[i] == y;
      var x := before[i];
      assert x in before && ClosedDebug(targets, before, x);
      if y.compoundConfigurationIds.Some? {
        forall k | k in y.compoundConfigurationIds.value ensures NamesDebug(after, k, y.projectId) {
          assert NamesDebug(before, k, x.projectId);
          forall z | z in after && z.id == k ensures z.projectId == y.projectId {
            var j :| 0 <= j < |after| && after[j] == z;
            assert before[j] in before;
          }
        }
      }
    }
  }
}
