/** Resolution of compound children and the depth-first check for compound cycles. */
module Compounds {
  import opened Wrappers
  import opened Text
  import opened ExecutionModel
  import opened Graph

  /** What a compound is resolved against: the repository entries, the model built so far, the mode. */
  datatype Scope = Scope(
    resolved: seq<Resolved>,
    runs: seq<RunConfiguration>,
    debugs: seq<DebugConfiguration>,
    debug: bool)

  datatype PlanError =
    | Cycle(walk: seq<string>)
    | Unresolved(message: string)
    | InvalidChild(childId: string, debug: bool, cause: PlanError)

  const CYCLE_TEXT := "compound configuration cycle"

  function Render(e: PlanError): string {
    match e
    case Cycle(walk) => CYCLE_TEXT + (": " + Join(walk, " -> "))
    case Unresolved(message) => message
    case InvalidChild(childId, debug, cause) =>
      "compound child `" + childId + "` is not valid for " + (if debug then "Debug" else "Run")
      + ": " + Render(cause)
  }

  /** Errors are classified by their text, as the code does. */
  predicate IsCycleError(e: PlanError) {
    Contains(Render(e), CYCLE_TEXT)
  }

  /** The debug id a run that matches the reference leads to, if it has one. */
  function DebugOfRun(runs: seq<RunConfiguration>, reference: string, projectId: string)
    : Result<Option<string>, string>
  {
    match ProviderRun(runs, reference, Some(projectId))
    case Err(e) => Err(e)
    case Ok(None) => Ok(None)
    case Ok(Some(run)) => Ok(run.debugConfigurationId)
  }

  /** The debug id of a provider debug entry, or else of a provider run entry, matching the reference. */
  function DebugTarget(s: Scope, reference: string, projectId: string): Result<Option<string>, string> {
    match ProviderDebug(s.debugs, reference, Some(projectId))
    case Err(e) => Err(e)
    case Ok(Some(configuration)) => Ok(Some(configuration.id))
    case Ok(None) => DebugOfRun(s.runs, reference, projectId)
  }

  predicate NamesShared(candidate: Resolved, reference: string) {
    || candidate.id == reference
    || SHARED_RUN + candidate.id == reference
    || SHARED_DEBUG + candidate.id == reference
  }

  function FindNamed(resolved: seq<Resolved>, reference: string): (r: Option<Resolved>)
    ensures r.Some? ==> r.value in resolved && NamesShared(r.value, reference)
    ensures r.None? ==> forall c :: c in resolved ==> !NamesShared(c, reference)
  {
    if resolved == [] then None
    else if NamesShared(resolved[0], reference) then Some(resolved[0])
    else FindNamed(resolved[1..], reference)
  }

  function NoTarget(s: Scope, reference: string): string {
    "compound child `" + reference + "` does not define a " + (if s.debug then "debug" else "run") + " target"
  }

  /** A child that names a repository entry. */
  function ResolveSharedChild(s: Scope, candidate: Resolved, reference: string, projectId: string)
    : Result<string, string>
  {
    if !s.debug then
      if candidate.run.Some? || candidate.compound.Some? then Ok(SHARED_RUN + candidate.id)
      else Err(NoTarget(s, reference))
    else if candidate.debug.Some? || candidate.compound.Some? then Ok(SHARED_DEBUG + candidate.id)
    else if candidate.debugReference.None? then Err(NoTarget(s, reference))
    else
      var target := candidate.debugReference.value;
      match DebugTarget(s, target, projectId)
      case Err(e) => Err(e)
      case Ok(Some(id)) => Ok(id)
      case Ok(None) =>
        var shared := FindShared(s.resolved, target);
        if shared.Some? && (shared.value.debug.Some? || shared.value.compound.Some?)
        then Ok(SHARED_DEBUG + target)
        else Err(NoTarget(s, reference))
  }

  /** A child that names an entry some provider put into the model. */
  function ResolveProviderChild(s: Scope, reference: string, projectId: string): Result<string, string> {
    var unknown := "unknown compound child `" + reference + "`";
    if s.debug then
      match DebugTarget(s, reference, projectId)
      case Err(e) => Err(e)
      case Ok(Some(id)) => Ok(id)
      case Ok(None) => Err(unknown)
    else
      match ProviderRun(s.runs, reference, Some(projectId))
      case Err(e) => Err(e)
      case Ok(Some(configuration)) => Ok(configuration.id)
      case Ok(None) => Err(unknown)
  }

  function ResolveChildId(s: Scope, reference: string, projectId: string): Result<string, string> {
    var name := Trim(reference);
    if name == "" then Err("compound child reference must not be empty")
    else
      match FindNamed(s.resolved, name)
      case Some(candidate) => ResolveSharedChild(s, candidate, name, projectId)
      case None => ResolveProviderChild(s, name, projectId)
  }

  function SharedProject(resolved: seq<Resolved>, id: string): Option<string> {
    match FindShared(resolved, id)
    case Some(item) => Some(item.projectId)
    case None => None
  }

  /** The project of the entry a child id names, when that entry is known already. */
  function ChildProject(s: Scope, childId: string): Option<string> {
    if StripPrefix(childId, SHARED_RUN).Some? then
      SharedProject(s.resolved, StripPrefix(childId, SHARED_RUN).value)
    else if StripPrefix(childId, SHARED_DEBUG).Some? then
      SharedProject(s.resolved, StripPrefix(childId, SHARED_DEBUG).value)
    else if s.debug then
      match FindDebug(s.debugs, childId) case Some(item) => Some(item.projectId) case None => None
    else
      match FindRun(s.runs, childId) case Some(item) => Some(item.projectId) case None => None
  }

  function ResolveChild(s: Scope, reference: string, projectId: string): Result<string, string> {
    match ResolveChildId(s, reference, projectId)
    case Err(e) => Err(e)
    case Ok(childId) =>
      var project := ChildProject(s, childId);
      if project.Some? && project.value != projectId
      then Err("compound child `" + reference + "` belongs to another project")
      else Ok(childId)
  }

  /** The ids of all children, or the error of the first child that does not resolve. */
  function ResolveAll(s: Scope, references: seq<string>, projectId: string)
    : (r: Result<seq<string>, string>)
    ensures r.Ok? <==> forall x :: x in references ==> ResolveChild(s, x, projectId).Ok?
    ensures r.Ok? ==> |r.value| == |references|
    ensures r.Ok? ==> forall i :: 0 <= i < |references| ==>
      ResolveChild(s, references[i], projectId) == Ok(r.value[i])
  {
    if references == [] then Ok([])
    else
      match ResolveChild(s, references[0], projectId)
      case Err(e) => Err(e)
      case Ok(childId) =>
        match ResolveAll(s, references[1..], projectId)
        case Err(e) => Err(e)
        case Ok(rest) => Ok([childId] + rest)
  }

  function ResolveChildren(s: Scope, configuration: Resolved): Result<seq<string>, string> {
    if configuration.compound.None? then Err("configuration is not compound")
    else ResolveAll(s, configuration.compound.value, configuration.projectId)
  }

  /** What the depth-first search does at a child id. */
  datatype Target =
    | Foreign                      // not a repository entry of this mode: nothing to descend into
    | Missing(sharedId: string)
    | Leaf
    | Nested(configuration: Resolved)

  function TargetOf(s: Scope, childId: string): (t: Target)
    ensures t.Nested? ==>
      && t.configuration in s.resolved
      && t.configuration.compound.Some?
      && FindShared(s.resolved, t.configuration.id) == Some(t.configuration)
  {
    match StripPrefix(childId, if s.debug then SHARED_DEBUG else SHARED_RUN)
    case None => Foreign
    case Some(sharedId) =>
      match FindShared(s.resolved, sharedId)
      case None => Missing(sharedId)
      case Some(child) => if child.compound.Some? then Nested(child) else Leaf
  }

  // ---------------------------------------------------------------------
  // What a reference stands for.

  /** The ways to name an entry of the file: its id and the ids of its two emitted entries. */
  ghost predicate NamedInFile(r: Resolved, name: string) {
    name == r.id || name == "shared-run:" + r.id || name == "shared-debug:" + r.id
  }

  /** The ways to name an entry of a provider. */
  ghost predicate NamedByProvider(name: string, id: string, kind: string, caption: string) {
    name == id || name == kind || name == caption || name == kind + ":" + caption
  }

  lemma OnlyNamed(resolved: seq<Resolved>, r: Resolved, name: string)
    requires r in resolved && NamedInFile(r, name)
    requires forall c :: c in resolved && NamedInFile(c, name) ==> c == r
    ensures FindNamed(resolved, name) == Some(r)
  {
  }

  lemma OwnProject(s: Scope, r: Resolved)
    requires r in s.resolved && forall c :: c in s.resolved && c.id == r.id ==> c == r
    ensures ChildProject(s, SHARED_RUN + r.id) == Some(r.projectId)
    ensures ChildProject(s, SHARED_DEBUG + r.id) == Some(r.projectId)
  {
    StripPrefixOfConcat(SHARED_RUN, r.id);
    StripPrefixOfConcat(SHARED_DEBUG, r.id);
    assert (SHARED_DEBUG + r.id)[7] == 'd' && SHARED_RUN[7] == 'r';
    assert |SHARED_RUN| <= |SHARED_DEBUG + r.id| ==> (SHARED_DEBUG + r.id)[..|SHARED_RUN|][7] == 'd';
    assert FindShared(s.resolved, r.id) == Some(r);
  }

  /** Each name of an entry of the file leads to the entry's own id in the mode, within its project. */
  lemma FileEntryIsFound(s: Scope, r: Resolved, reference: string, projectId: string)
    requires r in s.resolved && NamedInFile(r, Trim(reference)) && Trim(reference) != ""
    requires forall c :: c in s.resolved && (c.id == r.id || NamedInFile(c, Trim(reference))) ==> c == r
    ensures !s.debug ==>
      ResolveChild(s, reference, projectId).Ok? == ((r.run.Some? || r.compound.Some?) && projectId == r.projectId)
    ensures !s.debug && ResolveChild(s, reference, projectId).Ok? ==>
      ResolveChild(s, reference, projectId) == Ok("shared-run:" + r.id)
    ensures s.debug && r.debugReference.None? ==>
      ResolveChild(s, reference, projectId).Ok? == ((r.debug.Some? || r.compound.Some?) && projectId == r.projectId)
    ensures s.debug && (r.debug.Some? || r.compound.Some?) && projectId == r.projectId ==>
      ResolveChild(s, reference, projectId) == Ok("shared-debug:" + r.id)
  {
    hide Trim, FindNamed, ChildProject;
    OnlyNamed(s.resolved, r, Trim(reference));
    OwnProject(s, r);
  }

  lemma ProviderRunIs(runs: seq<RunConfiguration>, i: nat, name: string, projectId: string)
    requires i < |runs| && runs[i].projectId == projectId
    requires NamedByProvider(name, runs[i].id, runs[i].kind, runs[i].caption)
    requires forall j :: 0 <= j < |runs| && j != i && runs[j].projectId == projectId ==>
      !NamedByProvider(name, runs[j].id, runs[j].kind, runs[j].caption)
    ensures ProviderRun(runs, name, Some(projectId)) == Ok(Some(runs[i]))
  {
    assert runs[i] in runs && RunMatches(runs[i], name, Some(projectId));
    forall j | 0 <= j < |runs| && RunMatches(runs[j], name, Some(projectId)) ensures j == i {}
    forall x | x in runs && RunMatches(x, name, Some(projectId)) ensures x == runs[i] {
      var j :| 0 <= j < |runs| && runs[j] == x;
    }
  }

  lemma ProviderDebugIs(debugs: seq<DebugConfiguration>, i: nat, name: string, projectId: string)
    requires i < |debugs| && debugs[i].projectId == projectId
    requires NamedByProvider(name, debugs[i].id, debugs[i].adapterId, debugs[i].caption)
    requires forall j :: 0 <= j < |debugs| && j != i && debugs[j].projectId == projectId ==>
      !NamedByProvider(name, debugs[j].id, debugs[j].adapterId, debugs[j].caption)
    ensures ProviderDebug(debugs, name, Some(projectId)) == Ok(Some(debugs[i]))
  {
    assert debugs[i] in debugs && DebugMatches(debugs[i], name, Some(projectId));
    forall j | 0 <= j < |debugs| && DebugMatches(debugs[j], name, Some(projectId)) ensures j == i {}
    forall x | x in debugs && DebugMatches(x, name, Some(projectId)) ensures x == debugs[i] {
      var j :| 0 <= j < |debugs| && debugs[j] == x;
    }
  }

  /** A name that no entry of the file has leads to the one provider entry of the project that it names. */
  lemma ProviderEntryIsFound(s: Scope, i: nat, reference: string, projectId: string)
    requires Trim(reference) != "" && forall c :: c in s.resolved ==> !NamedInFile(c, Trim(reference))
    requires if s.debug then i < |s.debugs| else i < |s.runs|
    requires var id := if s.debug then s.debugs[i].id else s.runs[i].id;
      StripPrefix(id, SHARED_RUN).None? && StripPrefix(id, SHARED_DEBUG).None?
    requires !s.debug ==>
      && s.runs[i].projectId == projectId
      && NamedByProvider(Trim(reference), s.runs[i].id, s.runs[i].kind, s.runs[i].caption)
      && (forall j :: 0 <= j < |s.runs| && j != i && s.runs[j].projectId == projectId ==>
            !NamedByProvider(Trim(reference), s.runs[j].id, s.runs[j].kind, s.runs[j].caption))
      && (forall x :: x in s.runs && x.id == s.runs[i].id ==> x.projectId == projectId)
    requires s.debug ==>
      && s.debugs[i].projectId == projectId
      && NamedByProvider(Trim(reference), s.debugs[i].id, s.debugs[i].adapterId, s.debugs[i].caption)
      && (forall j :: 0 <= j < |s.debugs| && j != i && s.debugs[j].projectId == projectId ==>
            !NamedByProvider(Trim(reference), s.debugs[j].id, s.debugs[j].adapterId, s.debugs[j].caption))
      && (forall x :: x in s.debugs && x.id == s.debugs[i].id ==> x.projectId == projectId)
    ensures ResolveChild(s, reference, projectId) == Ok(if s.debug then s.debugs[i].id else s.runs[i].id)
  {
    hide Trim, NamedByProvider, StripPrefix, ProviderRun, ProviderDebug;
    if s.debug {
      assert s.debugs[i] in s.debugs;
      ProviderDebugIs(s.debugs, i, Trim(reference), projectId);
    } else {
      assert s.runs[i] in s.runs;
      ProviderRunIs(s.runs, i, Trim(reference), projectId);
    }
  }

  function Ids(resolved: seq<Resolved>): set<string> {
    set c | c in resolved :: c.id
  }

  /** The ids that a walk with the given stack may still enter: the search's termination measure. */
  function Unvisited(s: Scope, visiting: seq<string>): set<string> {
    Ids(s.resolved) - (set id | id in visiting)
  }

  lemma UnvisitedShrinks(s: Scope, visiting: seq<string>, id: string)
    requires id in Ids(s.resolved) && id !in visiting
    ensures Unvisited(s, visiting + [id]) < Unvisited(s, visiting)
  {
    var stack := visiting + [id];
    assert id in stack;
    assert id in Unvisited(s, visiting) && id !in Unvisited(s, stack);
    assert forall x :: x in visiting ==> x in stack;
  }

  function IndexOf(ids: seq<string>, id: string): (i: nat)
    requires id in ids
    ensures i < |ids| && ids[i] == id && id !in ids[..i]
  {
    if ids[0] == id then 0 else 1 + IndexOf(ids[1..], id)
  }

  function Wrap(s: Scope, child: Resolved, e: PlanError): PlanError {
    if IsCycleError(e) then e else InvalidChild(child.id, s.debug, e)
  }

  /** The plan of a compound: its child ids, provided that everything below it is sound. */
  function Plan(s: Scope, configuration: Resolved, visiting: seq<string>): Result<seq<string>, PlanError>
    requires configuration in s.resolved
    decreases Unvisited(s, visiting), 0
  {
    if configuration.id in visiting then
      Err(Cycle(visiting[IndexOf(visiting, configuration.id)..] + [configuration.id]))
    else
      match ResolveChildren(s, configuration)
      case Err(message) => Err(Unresolved(message))
      case Ok(childIds) =>
        UnvisitedShrinks(s, visiting, configuration.id);
        match FirstFailure(s, childIds, visiting + [configuration.id])
        case Some(e) => Err(e)
        case None => Ok(childIds)
  }

  /** The first error among the children, visited from left to right. */
  function FirstFailure(s: Scope, childIds: seq<string>, visiting: seq<string>): Option<PlanError>
    decreases Unvisited(s, visiting), |childIds|
  {
    if childIds == [] then None
    else
      match TargetOf(s, childIds[0])
      case Missing(sharedId) => Some(Unresolved("unknown compound child `" + sharedId + "`"))
      case Nested(child) =>
        (match Plan(s, child, visiting)
         case Err(e) => Some(Wrap(s, child, e))
         case Ok(_) => FirstFailure(s, childIds[1..], visiting))
      case _ => FirstFailure(s, childIds[1..], visiting)
  }

  /** The stack of ids that the recursive search pushes to and pops from. */
  class Search {
    var visiting: seq<string>

    constructor ()
      ensures visiting == []
    {
      visiting := [];
    }

    /** The search itself. The stack is restored on success and left as it stands on an error. */
    method Visit(s: Scope, configuration: Resolved) returns (result: Result<seq<string>, PlanError>)
      requires configuration in s.resolved
      modifies this
      decreases Unvisited(s, visiting)
      ensures result == Plan(s, configuration, old(visiting))
      ensures result.Ok? ==> visiting == old(visiting)
    {
      hide ResolveChildren, TargetOf, Wrap, Unvisited, FindShared, StripPrefix;
      if configuration.id in visiting {
        var index := IndexOf(visiting, configuration.id);
        return Err(Cycle(visiting[index..] + [configuration.id]));
      }
      UnvisitedShrinks(s, visiting, configuration.id);
      visiting := visiting + [configuration.id];
      var children := ResolveChildren(s, configuration);
      if children.Err? {
        return Err(Unresolved(children.error));
      }
      var childIds := children.value;
      var i := 0;
      while i < |childIds|
        invariant 0 <= i <= |childIds|
        invariant visiting == old(visiting) + [configuration.id]
        invariant FirstFailure(s, childIds, visiting) == FirstFailure(s, childIds[i..], visiting)
      {
        var target := TargetOf(s, childIds[i]);
        match target {
          case Missing(sharedId) =>
            return Err(Unresolved("unknown compound child `" + sharedId + "`"));
          case Nested(child) =>
            var nested := Visit(s, child);
            if nested.Err? {
              return Err(Wrap(s, child, nested.error));
            }
          case _ =>
        }
        i := i + 1;
      }
      visiting := visiting[..|visiting| - 1];
      return Ok(childIds);
    }
  }

  /** The plan of a compound, searched with an empty stack. */
  function PlanIds(s: Scope, configuration: Resolved): Result<seq<string>, PlanError>
    requires configuration in s.resolved
  {
    Plan(s, configuration, [])
  }

  method ResolvePlanIds(s: Scope, configuration: Resolved) returns (result: Result<seq<string>, PlanError>)
    requires configuration in s.resolved
    ensures result == PlanIds(s, configuration)
  {
    var search := new Search();
    result := search.Visit(s, configuration);
  }

  // ---------------------------------------------------------------------
  // What the search decides, stated on the graph of compounds.

  /** `b` is a compound that some child of the compound `a` names. */
  ghost predicate Edge(s: Scope, a: string, b: string) {
    var source := FindShared(s.resolved, a);
    && source.Some?
    && ResolveChildren(s, source.value).Ok?
    && exists childId :: childId in ResolveChildren(s, source.value).value
                         && TargetOf(s, childId).Nested? && TargetOf(s, childId).configuration.id == b
  }

  ghost function Edges(s: Scope): Relation<string> {
    (a, b) => Edge(s, a, b)
  }

  /** Every child of the compound resolves and every repository child exists. */
  ghost predicate Sound(s: Scope, id: string) {
    var source := FindShared(s.resolved, id);
    && source.Some?
    && ResolveChildren(s, source.value).Ok?
    && forall childId :: childId in ResolveChildren(s, source.value).value ==> !TargetOf(s, childId).Missing?
  }

  /** Everything reachable from `id` is sound, off the stack and on no cycle. */
  ghost predicate Clear(s: Scope, id: string, visiting: seq<string>) {
    forall d :: Reaches(Edges(s), id, d) ==> Sound(s, d) && d !in visiting && !OnCycle(Edges(s), d)
  }

  ghost predicate AllClear(s: Scope, childIds: seq<string>, visiting: seq<string>) {
    forall childId :: childId in childIds ==>
      && !TargetOf(s, childId).Missing?
      && (TargetOf(s, childId).Nested? ==> Clear(s, TargetOf(s, childId).configuration.id, visiting))
  }

  /** One step of the search is one step of the definition of `Clear`. */
  lemma ClearStep(s: Scope, c: Resolved, visiting: seq<string>, childIds: seq<string>)
    requires FindShared(s.resolved, c.id) == Some(c)
    requires ResolveChildren(s, c) == Ok(childIds)
    requires c.id !in visiting
    ensures Clear(s, c.id, visiting) <==> AllClear(s, childIds, visiting + [c.id])
  {
    hide Reaches, ResolveChildren, TargetOf, FindShared;
    var e := Edges(s);
    var stack := visiting + [c.id];
    if Clear(s, c.id, visiting) {
      ReachesSelf(e, c.id);
      forall childId | childId in childIds
        ensures !TargetOf(s, childId).Missing?
        ensures TargetOf(s, childId).Nested? ==> Clear(s, TargetOf(s, childId).configuration.id, stack)
      {
        if TargetOf(s, childId).Nested? {
          var k := TargetOf(s, childId).configuration.id;
          assert e(c.id, k);
          forall d | Reaches(e, k, d)
            ensures Sound(s, d) && d !in stack && !OnCycle(e, d)
          {
            ReachesPrepend(e, c.id, k, d);
          }
        }
      }
    }
    if AllClear(s, childIds, stack) {
      assert c.id in stack;
      forall d | Reaches(e, c.id, d)
        ensures Sound(s, d) && d !in visiting && !OnCycle(e, d)
      {
        ReachesFirstStep(e, c.id, d);
        if d == c.id {
          assert Sound(s, d);
          forall k | e(c.id, k) ensures !Reaches(e, k, c.id) {
            var childId :| childId in childIds && TargetOf(s, childId).Nested?
                           && TargetOf(s, childId).configuration.id == k;
            assert Clear(s, k, stack);
          }
        } else {
          var k :| e(c.id, k) && Reaches(e, k, d);
          var childId :| childId in childIds && TargetOf(s, childId).Nested?
                         && TargetOf(s, childId).configuration.id == k;
          assert Clear(s, k, stack);
          assert d !in stack;
        }
      }
    }
  }

  lemma {:induction false} PlanDecides(s: Scope, c: Resolved, visiting: seq<string>)
    requires FindShared(s.resolved, c.id) == Some(c) && c.compound.Some?
    ensures Plan(s, c, visiting).Ok? <==> Clear(s, c.id, visiting)
    decreases Unvisited(s, visiting), 0
  {
    ReachesSelf(Edges(s), c.id);
    if c.id !in visiting && ResolveChildren(s, c).Ok? {
      var childIds := ResolveChildren(s, c).value;
      UnvisitedShrinks(s, visiting, c.id);
      FirstFailureDecides(s, childIds, visiting + [c.id]);
      ClearStep(s, c, visiting, childIds);
    }
  }

  lemma {:induction false} FirstFailureDecides(s: Scope, childIds: seq<string>, visiting: seq<string>)
    ensures FirstFailure(s, childIds, visiting).None? <==> AllClear(s, childIds, visiting)
    decreases Unvisited(s, visiting), |childIds|
  {
    if childIds != [] {
      FirstFailureDecides(s, childIds[1..], visiting);
      assert childIds == [childIds[0]] + childIds[1..];
      if TargetOf(s, childIds[0]).Nested? {
        PlanDecides(s, TargetOf(s, childIds[0]).configuration, visiting);
      }
    }
  }

  lemma FindSharedWhenDistinct(resolved: seq<Resolved>, c: Resolved)
    requires DistinctIds(resolved) && c in resolved
    ensures FindShared(resolved, c.id) == Some(c)
  {
  }

  /** The search succeeds exactly when every compound below the start is sound and on no cycle. */
  lemma PlanSucceedsExactly(s: Scope, c: Resolved)
    requires DistinctIds(s.resolved) && c in s.resolved && c.compound.Some?
    ensures PlanIds(s, c).Ok? <==>
            forall d :: Reaches(Edges(s), c.id, d) ==> Sound(s, d) && !OnCycle(Edges(s), d)
  {
    FindSharedWhenDistinct(s.resolved, c);
    PlanDecides(s, c, []);
  }

  /** The stack is a walk that ends just before `id`. */
  ghost predicate StackLeadsTo(s: Scope, visiting: seq<string>, id: string) {
    IsWalk(Edges(s), visiting + [id])
  }

  ghost predicate RealCycle(s: Scope, walk: seq<string>) {
    && |walk| >= 2
    && walk[0] == walk[|walk| - 1]
    && IsWalk(Edges(s), walk)
  }

  lemma LongerStack(s: Scope, visiting: seq<string>, id: string, next: string)
    requires StackLeadsTo(s, visiting, id) && Edges(s)(id, next)
    ensures StackLeadsTo(s, visiting + [id], next)
  {
    hide Edge;
    var stack := visiting + [id];
    var longer := stack + [next];
    forall i | 0 <= i < |longer| - 1
      ensures Edges(s)(longer[i], longer[i + 1])
    {
      assert i < |stack| - 1 ==> Edges(s)(stack[i], stack[i + 1]);
    }
  }

  lemma {:induction false} PlanReportsRealCycle(s: Scope, c: Resolved, visiting: seq<string>)
    requires FindShared(s.resolved, c.id) == Some(c)
    requires StackLeadsTo(s, visiting, c.id)
    ensures Plan(s, c, visiting).Err? && Plan(s, c, visiting).error.Cycle? ==>
              RealCycle(s, Plan(s, c, visiting).error.walk)
    decreases Unvisited(s, visiting), 0
  {
    hide ResolveChildren, TargetOf, Unvisited;
    var e := Edges(s);
    var stack := visiting + [c.id];
    if c.id in visiting {
      var index := IndexOf(visiting, c.id);
      var walk := visiting[index..] + [c.id];
      forall i | 0 <= i < |walk| - 1 ensures e(walk[i], walk[i + 1]) {
        assert e(stack[index + i], stack[index + i + 1]);
      }
    } else if ResolveChildren(s, c).Ok? {
      UnvisitedShrinks(s, visiting, c.id);
      var childIds := ResolveChildren(s, c).value;
      forall childId | childId in childIds && TargetOf(s, childId).Nested?
        ensures StackLeadsTo(s, stack, TargetOf(s, childId).configuration.id)
      {
        assert e(c.id, TargetOf(s, childId).configuration.id);
        LongerStack(s, visiting, c.id, TargetOf(s, childId).configuration.id);
      }
      FirstFailureReportsRealCycle(s, childIds, stack);
    }
  }

  lemma {:induction false} FirstFailureReportsRealCycle(s: Scope, childIds: seq<string>, visiting: seq<string>)
    requires forall childId :: childId in childIds && TargetOf(s, childId).Nested? ==>
      StackLeadsTo(s, visiting, TargetOf(s, childId).configuration.id)
    ensures FirstFailure(s, childIds, visiting).Some? && FirstFailure(s, childIds, visiting).value.Cycle? ==>
      RealCycle(s, FirstFailure(s, childIds, visiting).value.walk)
    decreases Unvisited(s, visiting), |childIds|
  {
    if childIds != [] {
      if TargetOf(s, childIds[0]).Nested? {
        PlanReportsRealCycle(s, TargetOf(s, childIds[0]).configuration, visiting);
      }
      FirstFailureReportsRealCycle(s, childIds[1..], visiting);
    }
  }

  /** A reported cycle is a closed walk over real child edges. */
  lemma ReportedCycleIsReal(s: Scope, c: Resolved)
    requires DistinctIds(s.resolved) && c in s.resolved
    requires PlanIds(s, c).Err? && PlanIds(s, c).error.Cycle?
    ensures RealCycle(s, PlanIds(s, c).error.walk)
  {
    FindSharedWhenDistinct(s.resolved, c);
    PlanReportsRealCycle(s, c, []);
  }

  // ---------------------------------------------------------------------
  // Validation of the whole file.

  /** A compound is accepted when one mode has a plan and neither mode reports a cycle. */
  ghost predicate Accepted(s: Scope, c: Resolved)
    requires c in s.resolved
  {
    var run, debug := PlanIds(s.(debug := false), c), PlanIds(s.(debug := true), c);
    && !(run.Err? && IsCycleError(run.error))
    && !(debug.Err? && IsCycleError(debug.error))
    && (run.Ok? || debug.Ok?)
  }

  method Validate(s: Scope) returns (error: Option<string>)
    ensures error.None? <==> forall c :: c in s.resolved && c.compound.Some? ==> Accepted(s, c)
  {
    for i := 0 to |s.resolved|
      invariant forall c :: c in s.resolved[..i] && c.compound.Some? ==> Accepted(s, c)
    {
      var c := s.resolved[i];
      if c.compound.Some? {
        var run := ResolvePlanIds(s.(debug := false), c);
        var debug := ResolvePlanIds(s.(debug := true), c);
        if run.Err? && IsCycleError(run.error) {
          return Some(Render(run.error));
        }
        if debug.Err? && IsCycleError(debug.error) {
          return Some(Render(debug.error));
        }
        if run.Err? && debug.Err? {
          return Some("compound configuration `" + c.id + "` has no valid execution mode; Run: "
                      + Render(run.error) + "; Debug: " + Render(debug.error));
        }
      }
      assert s.resolved[..i + 1] == s.resolved[..i] + [c];
    }
    assert s.resolved[..|s.resolved|] == s.resolved;
    return None;
  }

  /** Resolved against the lists of the validation, an accepted compound has a mode without a cycle below it. */
  lemma AcceptedIsExecutable(s: Scope, c: Resolved)
    requires DistinctIds(s.resolved) && c in s.resolved && c.compound.Some?
    requires Accepted(s, c)
    ensures exists debug ::
      forall d :: Reaches(Edges(s.(debug := debug)), c.id, d) ==>
        Sound(s.(debug := debug), d) && !OnCycle(Edges(s.(debug := debug)), d)
  {
    var debug := PlanIds(s.(debug := true), c).Ok?;
    PlanSucceedsExactly(s.(debug := debug), c);
  }
}
