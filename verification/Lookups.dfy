/** How lookups of compound children change when entries are appended to the model. */
module Lookups {
  import opened Wrappers
  import opened Text
  import opened ExecutionModel
  import opened Compounds

  // ---------------------------------------------------------------------
  // One lookup in a longer list.

  lemma MoreRuns(runs: seq<RunConfiguration>, extra: seq<RunConfiguration>, t: string, q: Option<string>)
    ensures MatchingRuns(runs + extra, t, q) == MatchingRuns(runs, t, q) + MatchingRuns(extra, t, q)
  {
    FilterAppend(runs, extra, (c: RunConfiguration) => RunMatches(c, t, q));
  }

  lemma MoreDebugs(debugs: seq<DebugConfiguration>, extra: seq<DebugConfiguration>, t: string, q: Option<string>)
    ensures MatchingDebugs(debugs + extra, t, q) == MatchingDebugs(debugs, t, q) + MatchingDebugs(extra, t, q)
  {
    FilterAppend(debugs, extra, (c: DebugConfiguration) => DebugMatches(c, t, q));
  }

  /** What a lookup says of the matches it found, and of none. */
  lemma RunLookup(runs: seq<RunConfiguration>, t: string, q: Option<string>)
    ensures var m := MatchingRuns(runs, t, q);
      && (ProviderRun(runs, t, q).Err? <==> |m| >= 2)
      && (ProviderRun(runs, t, q) == Ok(None) <==> m == [])
      && (|m| == 1 ==> ProviderRun(runs, t, q) == Ok(Some(m[0])))
      && ProviderRun(runs, t, q) == Unique(m, t, "kind")
  {
  }

  lemma DebugLookup(debugs: seq<DebugConfiguration>, t: string, q: Option<string>)
    ensures var m := MatchingDebugs(debugs, t, q);
      && (ProviderDebug(debugs, t, q).Err? <==> |m| >= 2)
      && (ProviderDebug(debugs, t, q) == Ok(None) <==> m == [])
      && (|m| == 1 ==> ProviderDebug(debugs, t, q) == Ok(Some(m[0])))
      && ProviderDebug(debugs, t, q) == Unique(m, t, "adapterId")
  {
  }

  /** A lookup gives the same answer in a longer list exactly if it was ambiguous already or nothing new matches. */
  lemma RunLookupUnchanged(runs: seq<RunConfiguration>, extra: seq<RunConfiguration>, t: string, q: Option<string>)
    ensures ProviderRun(runs + extra, t, q) == ProviderRun(runs, t, q) <==>
            ProviderRun(runs, t, q).Err? || MatchingRuns(extra, t, q) == []
  {
    hide ProviderRun, MatchingRuns;
    MoreRuns(runs, extra, t, q);
    RunLookup(runs, t, q);
    RunLookup(runs + extra, t, q);
  }

  lemma DebugLookupUnchanged(debugs: seq<DebugConfiguration>, extra: seq<DebugConfiguration>, t: string, q: Option<string>)
    ensures ProviderDebug(debugs + extra, t, q) == ProviderDebug(debugs, t, q) <==>
            ProviderDebug(debugs, t, q).Err? || MatchingDebugs(extra, t, q) == []
  {
    hide ProviderDebug, MatchingDebugs;
    MoreDebugs(debugs, extra, t, q);
    DebugLookup(debugs, t, q);
    DebugLookup(debugs + extra, t, q);
  }

  // ---------------------------------------------------------------------
  // Children.

  /** The scope with entries appended to both lists. */
  function Grown(s: Scope, runs: seq<RunConfiguration>, debugs: seq<DebugConfiguration>): Scope {
    s.(runs := s.runs + runs, debugs := s.debugs + debugs)
  }

  /** Every debug id that a run entry carries names a debug entry. */
  ghost predicate DebugIdsExist(s: Scope) {
    forall x :: x in s.runs && x.debugConfigurationId.Some? ==>
      exists y :: y in s.debugs && y.id == x.debugConfigurationId.value
  }

  lemma {:induction false} FoundDebugStays(debugs: seq<DebugConfiguration>, extra: seq<DebugConfiguration>, id: string)
    requires exists y :: y in debugs && y.id == id
    ensures FindDebug(debugs + extra, id) == FindDebug(debugs, id)
  {
    if debugs[0].id != id {
      assert (debugs + extra)[1..] == debugs[1..] + extra;
      var y :| y in debugs && y.id == id;
      assert y in debugs[1..];
      FoundDebugStays(debugs[1..], extra, id);
    }
  }

  lemma {:induction false} FoundRunStays(runs: seq<RunConfiguration>, extra: seq<RunConfiguration>, id: string)
    requires exists x :: x in runs && x.id == id
    ensures FindRun(runs + extra, id) == FindRun(runs, id)
  {
    if runs[0].id != id {
      assert (runs + extra)[1..] == runs[1..] + extra;
      var x :| x in runs && x.id == id;
      assert x in runs[1..];
      FoundRunStays(runs[1..], extra, id);
    }
  }

  /** In Run mode: the child names a repository entry, or its lookup does not change. */
  ghost predicate RunChildSettled(s: Scope, runs: seq<RunConfiguration>, reference: string, q: string) {
    var name := Trim(reference);
    || name == "" || FindNamed(s.resolved, name).Some?
    || ProviderRun(s.runs, name, Some(q)).Err? || MatchingRuns(runs, name, Some(q)) == []
  }

  /** A Run child resolves to the same as before exactly if it is settled. */
  lemma RunChildUnchanged(s: Scope, runs: seq<RunConfiguration>, debugs: seq<DebugConfiguration>, reference: string,
                          q: string)
    requires !s.debug
    ensures RunChildSettled(s, runs, reference, q) ==>
      ResolveChild(Grown(s, runs, debugs), reference, q) == ResolveChild(s, reference, q)
    ensures ResolveChild(s, reference, q).Ok? && !RunChildSettled(s, runs, reference, q) ==>
      ResolveChild(Grown(s, runs, debugs), reference, q) != ResolveChild(s, reference, q)
  {
    hide ProviderRun, MatchingRuns, Trim, FindNamed, StripPrefix;
    var g, name := Grown(s, runs, debugs), Trim(reference);
    var named := FindNamed(s.resolved, name);
    RunLookupUnchanged(s.runs, runs, name, Some(q));
    if name != "" && named.Some? {
      StripPrefixOfConcat(SHARED_RUN, named.value.id);
    } else if name != "" && ProviderRun(s.runs, name, Some(q)).Ok? && ProviderRun(s.runs, name, Some(q)).value.Some? {
      FoundRunStays(s.runs, runs, ProviderRun(s.runs, name, Some(q)).value.value.id);
      MoreRuns(s.runs, runs, name, Some(q));
      RunLookup(s.runs, name, Some(q));
      RunLookup(s.runs + runs, name, Some(q));
    }
  }

  /** Whether the debug target of a reference is looked up with the same result in the grown lists. */
  ghost predicate TargetSettled(s: Scope, runs: seq<RunConfiguration>, debugs: seq<DebugConfiguration>, t: string,
                                q: string)
  {
    var d, r := ProviderDebug(s.debugs, t, Some(q)), ProviderRun(s.runs, t, Some(q));
    var newDebugs, newRuns := MatchingDebugs(debugs, t, Some(q)), MatchingRuns(runs, t, Some(q));
    || d.Err?
    || (newDebugs == []
        && (d.value.Some? || r.Err? || newRuns == []
            || (r == Ok(None) && |newRuns| == 1 && newRuns[0].debugConfigurationId.None?)))
    || (d == Ok(None) && |newDebugs| == 1 && r.Ok? && r.value.Some?
        && r.value.value.debugConfigurationId == Some(newDebugs[0].id))
  }

  lemma AmbiguityHintsDiffer(t: string)
    ensures "provider base `" + t + "` is ambiguous; add `project` or use `" + "adapterId" + ":label`"
         != "provider base `" + t + "` is ambiguous; add `project` or use `" + "kind" + ":label`"
  {
    assert |"adapterId"| != |"kind"|;
  }

  lemma TargetUnchanged(s: Scope, runs: seq<RunConfiguration>, debugs: seq<DebugConfiguration>, t: string, q: string)
    ensures DebugTarget(Grown(s, runs, debugs), t, q) == DebugTarget(s, t, q) <==> TargetSettled(s, runs, debugs, t, q)
  {
    hide ProviderRun, MatchingRuns, ProviderDebug, MatchingDebugs;
    MoreRuns(s.runs, runs, t, Some(q));
    MoreDebugs(s.debugs, debugs, t, Some(q));
    RunLookup(s.runs, t, Some(q));
    RunLookup(s.runs + runs, t, Some(q));
    DebugLookup(s.debugs, t, Some(q));
    DebugLookup(s.debugs + debugs, t, Some(q));
    AmbiguityHintsDiffer(t);
  }

  /** Without a target of its own, the shared entry that the reference names stands in. */
  predicate StandsIn(resolved: seq<Resolved>, t: string) {
    var shared := FindShared(resolved, t);
    shared.Some? && (shared.value.debug.Some? || shared.value.compound.Some?)
  }

  /** The lookup found nothing before, and now finds what leads to the shared entry that stood in. */
  ghost predicate FindsStandIn(s: Scope, runs: seq<RunConfiguration>, debugs: seq<DebugConfiguration>, t: string,
                               q: string)
  {
    && StandsIn(s.resolved, t)
    && DebugTarget(s, t, q) == Ok(None)
    && var newDebugs, newRuns := MatchingDebugs(debugs, t, Some(q)), MatchingRuns(runs, t, Some(q));
       || (|newDebugs| == 1 && newDebugs[0].id == SHARED_DEBUG + t)
       || (newDebugs == [] && ProviderRun(s.runs, t, Some(q)) == Ok(None)
           && |newRuns| == 1 && newRuns[0].debugConfigurationId == Some(SHARED_DEBUG + t))
  }

  lemma StandInFound(s: Scope, runs: seq<RunConfiguration>, debugs: seq<DebugConfiguration>, t: string, q: string)
    ensures FindsStandIn(s, runs, debugs, t, q) <==>
      && StandsIn(s.resolved, t) && DebugTarget(s, t, q) == Ok(None)
      && DebugTarget(Grown(s, runs, debugs), t, q) == Ok(Some(SHARED_DEBUG + t))
  {
    hide ProviderRun, MatchingRuns, ProviderDebug, MatchingDebugs, StandsIn;
    MoreRuns(s.runs, runs, t, Some(q));
    MoreDebugs(s.debugs, debugs, t, Some(q));
    RunLookup(s.runs, t, Some(q));
    RunLookup(s.runs + runs, t, Some(q));
    DebugLookup(s.debugs, t, Some(q));
    DebugLookup(s.debugs + debugs, t, Some(q));
  }

  /** In Debug mode: the child has a debug entry of its own, or the lookup for its target does not matter or change. */
  ghost predicate DebugChildSettled(s: Scope, runs: seq<RunConfiguration>, debugs: seq<DebugConfiguration>,
                                    reference: string, q: string)
  {
    var name := Trim(reference);
    name == "" ||
    match FindNamed(s.resolved, name)
    case None => TargetSettled(s, runs, debugs, name, q)
    case Some(named) =>
      || named.debug.Some? || named.compound.Some? || named.debugReference.None?
      || TargetSettled(s, runs, debugs, named.debugReference.value, q)
      || FindsStandIn(s, runs, debugs, named.debugReference.value, q)
  }

  /** A debug target that was found is an existing debug entry. */
  lemma FoundTargetExists(s: Scope, t: string, q: string)
    requires DebugIdsExist(s) && DebugTarget(s, t, q).Ok? && DebugTarget(s, t, q).value.Some?
    ensures exists y :: y in s.debugs && y.id == DebugTarget(s, t, q).value.value
  {
    var d := ProviderDebug(s.debugs, t, Some(q)).value;
    if d.None? {
      assert ProviderRun(s.runs, t, Some(q)).value.value in s.runs;
    }
  }

  /** The project of a child id that the scope already resolved is looked up as before. */
  lemma ChildProjectStays(s: Scope, runs: seq<RunConfiguration>, debugs: seq<DebugConfiguration>, childId: string)
    requires s.debug
    requires StripPrefix(childId, SHARED_DEBUG).Some? || exists y :: y in s.debugs && y.id == childId
    ensures ChildProject(Grown(s, runs, debugs), childId) == ChildProject(s, childId)
  {
    hide StripPrefix;
    if y :| y in s.debugs && y.id == childId {
      FoundDebugStays(s.debugs, debugs, childId);
    }
  }

  /** What the Debug child is, before its project is checked. */
  lemma DebugChildIdUnchanged(s: Scope, runs: seq<RunConfiguration>, debugs: seq<DebugConfiguration>,
                              reference: string, q: string)
    requires s.debug && DebugChildSettled(s, runs, debugs, reference, q)
    ensures ResolveChildId(Grown(s, runs, debugs), reference, q) == ResolveChildId(s, reference, q)
  {
    hide Trim, FindNamed, DebugTarget, TargetSettled, FindsStandIn, FindShared;
    var name := Trim(reference);
    var named := FindNamed(s.resolved, name);
    if named.None? {
      TargetUnchanged(s, runs, debugs, name, q);
    } else if named.value.debugReference.Some? {
      var t := named.value.debugReference.value;
      TargetUnchanged(s, runs, debugs, t, q);
      StandInFound(s, runs, debugs, t, q);
    }
  }

  lemma DebugChildIdExists(s: Scope, reference: string, q: string)
    requires s.debug && DebugIdsExist(s) && ResolveChildId(s, reference, q).Ok?
    ensures var childId := ResolveChildId(s, reference, q).value;
      StripPrefix(childId, SHARED_DEBUG).Some? || exists y :: y in s.debugs && y.id == childId
  {
    hide Trim, FindNamed, DebugTarget, StripPrefix, DebugIdsExist;
    var name := Trim(reference);
    var named := FindNamed(s.resolved, name);
    if named.None? {
      FoundTargetExists(s, name, q);
    } else {
      StripPrefixOfConcat(SHARED_DEBUG, named.value.id);
      if named.value.debugReference.Some? {
        var t := named.value.debugReference.value;
        StripPrefixOfConcat(SHARED_DEBUG, t);
        if DebugTarget(s, t, q).Ok? && DebugTarget(s, t, q).value.Some? { FoundTargetExists(s, t, q); }
      }
    }
  }

  /** A Debug child resolves to the same as before exactly if it is settled. */
  lemma DebugChildUnchanged(s: Scope, runs: seq<RunConfiguration>, debugs: seq<DebugConfiguration>, reference: string,
                            q: string)
    requires s.debug && DebugIdsExist(s)
    ensures DebugChildSettled(s, runs, debugs, reference, q) ==>
      ResolveChild(Grown(s, runs, debugs), reference, q) == ResolveChild(s, reference, q)
    ensures ResolveChild(s, reference, q).Ok? && !DebugChildSettled(s, runs, debugs, reference, q) ==>
      ResolveChild(Grown(s, runs, debugs), reference, q) != ResolveChild(s, reference, q)
  {
    hide ResolveChildId, ChildProject, StripPrefix, DebugIdsExist, DebugChildSettled;
    if DebugChildSettled(s, runs, debugs, reference, q) {
      DebugChildIdUnchanged(s, runs, debugs, reference, q);
      if ResolveChildId(s, reference, q).Ok? {
        DebugChildIdExists(s, reference, q);
        ChildProjectStays(s, runs, debugs, ResolveChildId(s, reference, q).value);
      }
    } else if ResolveChild(s, reference, q).Ok? {
      DebugChildIdChanges(s, runs, debugs, reference, q);
    }
  }

  lemma DebugChildIdChanges(s: Scope, runs: seq<RunConfiguration>, debugs: seq<DebugConfiguration>,
                            reference: string, q: string)
    requires s.debug && !DebugChildSettled(s, runs, debugs, reference, q) && ResolveChildId(s, reference, q).Ok?
    ensures ResolveChildId(Grown(s, runs, debugs), reference, q) != ResolveChildId(s, reference, q)
  {
    hide Trim, FindNamed, DebugTarget, TargetSettled, FindsStandIn, FindShared;
    var name := Trim(reference);
    var named := FindNamed(s.resolved, name);
    if named.None? {
      TargetUnchanged(s, runs, debugs, name, q);
      TargetIsNotLost(s, runs, debugs, name, q);
    } else {
      var t := named.value.debugReference.value;
      TargetUnchanged(s, runs, debugs, t, q);
      StandInFound(s, runs, debugs, t, q);
      TargetIsNotLost(s, runs, debugs, t, q);
    }
  }

  /** Appending entries cannot make a target disappear without an error. */
  lemma TargetIsNotLost(s: Scope, runs: seq<RunConfiguration>, debugs: seq<DebugConfiguration>, t: string, q: string)
    ensures DebugTarget(Grown(s, runs, debugs), t, q) == Ok(None) ==> DebugTarget(s, t, q) == Ok(None)
  {
    hide ProviderRun, MatchingRuns, ProviderDebug, MatchingDebugs;
    MoreRuns(s.runs, runs, t, Some(q));
    MoreDebugs(s.debugs, debugs, t, Some(q));
    RunLookup(s.runs, t, Some(q));
    RunLookup(s.runs + runs, t, Some(q));
    DebugLookup(s.debugs, t, Some(q));
    DebugLookup(s.debugs + debugs, t, Some(q));
  }

  // ---------------------------------------------------------------------
  // Plans.

  ghost predicate ChildSettled(s: Scope, runs: seq<RunConfiguration>, debugs: seq<DebugConfiguration>,
                               reference: string, q: string)
  {
    if s.debug then DebugChildSettled(s, runs, debugs, reference, q) else RunChildSettled(s, runs, reference, q)
  }

  /** Every child of every compound is settled. */
  ghost predicate AllSettled(s: Scope, runs: seq<RunConfiguration>, debugs: seq<DebugConfiguration>) {
    forall c, x :: c in s.resolved && c.compound.Some? && x in c.compound.value ==>
      ChildSettled(s, runs, debugs, x, c.projectId)
  }

  /** A child resolves to the same as before exactly if it is settled; if it did not resolve, settled suffices. */
  lemma ChildUnchanged(s: Scope, runs: seq<RunConfiguration>, debugs: seq<DebugConfiguration>, reference: string,
                       q: string)
    requires DebugIdsExist(s)
    ensures ChildSettled(s, runs, debugs, reference, q) ==>
      ResolveChild(Grown(s, runs, debugs), reference, q) == ResolveChild(s, reference, q)
    ensures ResolveChild(s, reference, q).Ok? ==>
      (ResolveChild(Grown(s, runs, debugs), reference, q) == ResolveChild(s, reference, q) <==>
       ChildSettled(s, runs, debugs, reference, q))
  {
    hide ResolveChild, DebugIdsExist, DebugChildSettled, RunChildSettled;
    if s.debug {
      DebugChildUnchanged(s, runs, debugs, reference, q);
    } else {
      RunChildUnchanged(s, runs, debugs, reference, q);
    }
  }

  lemma {:induction false} ChildrenUnchanged(s: Scope, runs: seq<RunConfiguration>, debugs: seq<DebugConfiguration>,
                                             references: seq<string>, q: string)
    requires DebugIdsExist(s) && forall x :: x in references ==> ChildSettled(s, runs, debugs, x, q)
    ensures ResolveAll(Grown(s, runs, debugs), references, q) == ResolveAll(s, references, q)
  {
    hide ResolveChild, DebugIdsExist, ChildSettled;
    if references != [] {
      SuffixMembers(references, 1);
      assert references[0] in references;
      ChildUnchanged(s, runs, debugs, references[0], q);
      ChildrenUnchanged(s, runs, debugs, references[1..], q);
    }
  }

  /** When every child is settled, every plan is as before. */
  lemma {:induction false} PlanUnchanged(s: Scope, runs: seq<RunConfiguration>, debugs: seq<DebugConfiguration>,
                                         c: Resolved, visiting: seq<string>)
    requires DebugIdsExist(s) && AllSettled(s, runs, debugs) && c in s.resolved
    ensures Plan(Grown(s, runs, debugs), c, visiting) == Plan(s, c, visiting)
    decreases Unvisited(s, visiting), 0
  {
    hide ResolveAll, DebugIdsExist, ChildSettled, TargetOf;
    if c.compound.Some? { ChildrenUnchanged(s, runs, debugs, c.compound.value, c.projectId); }
    if c.id !in visiting && ResolveChildren(s, c).Ok? {
      UnvisitedShrinks(s, visiting, c.id);
      FirstFailureUnchanged(s, runs, debugs, ResolveChildren(s, c).value, visiting + [c.id]);
    }
  }

  lemma {:induction false} FirstFailureUnchanged(s: Scope, runs: seq<RunConfiguration>, debugs: seq<DebugConfiguration>,
                                                 childIds: seq<string>, visiting: seq<string>)
    requires DebugIdsExist(s) && AllSettled(s, runs, debugs)
    ensures FirstFailure(Grown(s, runs, debugs), childIds, visiting) == FirstFailure(s, childIds, visiting)
    decreases Unvisited(s, visiting), |childIds|
  {
    hide DebugIdsExist, AllSettled;
    if childIds != [] {
      var target := TargetOf(s, childIds[0]);
      assert TargetOf(Grown(s, runs, debugs), childIds[0]) == target;
      hide TargetOf;
      if target.Nested? { PlanUnchanged(s, runs, debugs, target.configuration, visiting); }
      FirstFailureUnchanged(s, runs, debugs, childIds[1..], visiting);
    }
  }

  lemma {:induction false} OneChildChanges(s: Scope, g: Scope, references: seq<string>, q: string, x: string)
    requires x in references && ResolveAll(s, references, q).Ok?
    requires ResolveChild(g, x, q) != ResolveChild(s, x, q)
    ensures ResolveAll(g, references, q) != ResolveAll(s, references, q)
  {
    hide ResolveChild;
    var i :| 0 <= i < |references| && references[i] == x;
    if ResolveAll(g, references, q).Ok? {
      assert ResolveChild(g, references[i], q) == Ok(ResolveAll(g, references, q).value[i]);
      assert ResolveChild(s, references[i], q) == Ok(ResolveAll(s, references, q).value[i]);
    }
  }

  /** A plan with an unsettled child changes. */
  lemma UnsettledChildChangesPlan(s: Scope, runs: seq<RunConfiguration>, debugs: seq<DebugConfiguration>, c: Resolved,
                                  x: string)
    requires DebugIdsExist(s) && c in s.resolved && PlanIds(s, c).Ok?
    requires c.compound.Some? && x in c.compound.value && !ChildSettled(s, runs, debugs, x, c.projectId)
    ensures PlanIds(Grown(s, runs, debugs), c) != PlanIds(s, c)
  {
    hide ResolveAll, ResolveChild, ChildSettled, DebugIdsExist, FirstFailure;
    assert x in c.compound.value && ResolveAll(s, c.compound.value, c.projectId).Ok?;
    ResolvedChild(s, c.compound.value, c.projectId, x);
    ChildUnchanged(s, runs, debugs, x, c.projectId);
    OneChildChanges(s, Grown(s, runs, debugs), c.compound.value, c.projectId, x);
  }

  lemma ResolvedChild(s: Scope, references: seq<string>, q: string, x: string)
    requires x in references && ResolveAll(s, references, q).Ok?
    ensures ResolveChild(s, x, q).Ok?
  {
  }

  /** If every compound has a plan, the plans stay the same exactly if every child is settled. */
  lemma AllPlansUnchangedExactly(s: Scope, runs: seq<RunConfiguration>, debugs: seq<DebugConfiguration>)
    requires DebugIdsExist(s) && forall c :: c in s.resolved && c.compound.Some? ==> PlanIds(s, c).Ok?
    ensures (forall c :: c in s.resolved && c.compound.Some? ==> PlanIds(Grown(s, runs, debugs), c) == PlanIds(s, c)) <==>
            AllSettled(s, runs, debugs)
  {
    hide DebugIdsExist, ChildSettled, Plan;
    if AllSettled(s, runs, debugs) {
      forall c | c in s.resolved && c.compound.Some?
        ensures PlanIds(Grown(s, runs, debugs), c) == PlanIds(s, c)
      {
        PlanUnchanged(s, runs, debugs, c, []);
      }
    }
    if forall c :: c in s.resolved && c.compound.Some? ==> PlanIds(Grown(s, runs, debugs), c) == PlanIds(s, c) {
      forall c, x | c in s.resolved && c.compound.Some? && x in c.compound.value
        ensures ChildSettled(s, runs, debugs, x, c.projectId)
      {
        if !ChildSettled(s, runs, debugs, x, c.projectId) {
          UnsettledChildChangesPlan(s, runs, debugs, c, x);
        }
      }
    }
  }
}
