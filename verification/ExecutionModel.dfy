/** The execution model's entries and the reference lookups over them. */
module ExecutionModel {
  import opened Wrappers

  // `caption` is the label shown to the user: `label` is a reserved word of Dafny.

  datatype Project = Project(id: string, moduleName: string, provider: string, root: string)

  datatype BuildTarget = BuildTarget(id: string, projectId: string, caption: string, kind: string)

  datatype RunConfiguration = RunConfiguration(
    id: string,
    projectId: string,
    caption: string,
    kind: string,
    executable: string,
    preLaunchTargets: seq<string>,
    debugConfigurationId: Option<string>,
    compoundConfigurationIds: Option<seq<string>>)

  datatype DebugConfiguration = DebugConfiguration(
    id: string,
    projectId: string,
    caption: string,
    adapterId: string,
    request: string,
    available: bool,
    diagnostic: Option<string>,
    preLaunchTargets: seq<string>,
    compoundConfigurationIds: Option<seq<string>>)

  datatype ResolvedRun = ResolvedRun(executable: string)

  datatype ResolvedDebug = ResolvedDebug(adapterId: string, request: string, available: Option<bool>)

  /** A repository entry after its template, platform and provider base were applied. */
  datatype Resolved = Resolved(
    id: string,
    caption: string,
    kind: string,
    projectId: string,
    beforeLaunch: seq<string>,
    run: Option<ResolvedRun>,
    debug: Option<ResolvedDebug>,
    debugReference: Option<string>,
    compound: Option<seq<string>>)

  const SHARED_RUN := "shared-run:"
  const SHARED_DEBUG := "shared-debug:"

  predicate PortableReferenceMatches(reference: string, id: string, kind: string, caption: string) {
    || reference == id
    || reference == kind
    || reference == caption
    || reference == kind + ":" + caption
  }

  predicate InProject(projectId: Option<string>, candidate: string) {
    projectId.None? || candidate == projectId.value
  }

  /** No match, the single match, or an ambiguity error. */
  function Unique<T>(matches: seq<T>, reference: string, hint: string): Result<Option<T>, string> {
    if matches == [] then Ok(None)
    else if |matches| == 1 then Ok(Some(matches[0]))
    else Err("provider base `" + reference + "` is ambiguous; add `project` or use `" + hint + ":label`")
  }

  predicate RunMatches(c: RunConfiguration, reference: string, projectId: Option<string>) {
    InProject(projectId, c.projectId) && PortableReferenceMatches(reference, c.id, c.kind, c.caption)
  }

  predicate DebugMatches(c: DebugConfiguration, reference: string, projectId: Option<string>) {
    InProject(projectId, c.projectId) && PortableReferenceMatches(reference, c.id, c.adapterId, c.caption)
  }

  function MatchingRuns(runs: seq<RunConfiguration>, reference: string, projectId: Option<string>)
    : seq<RunConfiguration>
  {
    Filter(runs, (c: RunConfiguration) => RunMatches(c, reference, projectId))
  }

  function MatchingDebugs(debugs: seq<DebugConfiguration>, reference: string, projectId: Option<string>)
    : seq<DebugConfiguration>
  {
    Filter(debugs, (c: DebugConfiguration) => DebugMatches(c, reference, projectId))
  }

  /** The one run entry that matches; nothing if none does, an error if two do. */
  function ProviderRun(runs: seq<RunConfiguration>, reference: string, projectId: Option<string>)
    : (r: Result<Option<RunConfiguration>, string>)
    ensures r.Ok? && r.value.Some? ==> r.value.value in runs && RunMatches(r.value.value, reference, projectId)
    ensures r == Ok(None) <==> forall c :: c in runs ==> !RunMatches(c, reference, projectId)
    ensures r.Err? <==> HoldTwo(runs, (c: RunConfiguration) => RunMatches(c, reference, projectId))
  {
    var matching := (c: RunConfiguration) => RunMatches(c, reference, projectId);
    FilterMembers(runs, matching);
    TwoInFilter(runs, matching);
    assert MatchingRuns(runs, reference, projectId) == Filter(runs, matching);
    assert Filter(runs, matching) != [] ==> Filter(runs, matching)[0] in Filter(runs, matching);
    Unique(MatchingRuns(runs, reference, projectId), reference, "kind")
  }

  function ProviderDebug(debugs: seq<DebugConfiguration>, reference: string, projectId: Option<string>)
    : (r: Result<Option<DebugConfiguration>, string>)
    ensures r.Ok? && r.value.Some? ==> r.value.value in debugs && DebugMatches(r.value.value, reference, projectId)
    ensures r == Ok(None) <==> forall c :: c in debugs ==> !DebugMatches(c, reference, projectId)
    ensures r.Err? <==> HoldTwo(debugs, (c: DebugConfiguration) => DebugMatches(c, reference, projectId))
  {
    var matching := (c: DebugConfiguration) => DebugMatches(c, reference, projectId);
    FilterMembers(debugs, matching);
    TwoInFilter(debugs, matching);
    assert MatchingDebugs(debugs, reference, projectId) == Filter(debugs, matching);
    assert Filter(debugs, matching) != [] ==> Filter(debugs, matching)[0] in Filter(debugs, matching);
    Unique(MatchingDebugs(debugs, reference, projectId), reference, "adapterId")
  }

  /** The first repository entry with the given id. */
  function FindShared(resolved: seq<Resolved>, id: string): (r: Option<Resolved>)
    ensures r.Some? ==> r.value in resolved && r.value.id == id
    ensures r.None? ==> forall c :: c in resolved ==> c.id != id
  {
    if resolved == [] then None
    else if resolved[0].id == id then Some(resolved[0])
    else FindShared(resolved[1..], id)
  }

  function FindRun(runs: seq<RunConfiguration>, id: string): (r: Option<RunConfiguration>)
    ensures r.Some? ==> r.value in runs && r.value.id == id
    ensures r.None? ==> forall c :: c in runs ==> c.id != id
  {
    if runs == [] then None
    else if runs[0].id == id then Some(runs[0])
    else FindRun(runs[1..], id)
  }

  function FindDebug(debugs: seq<DebugConfiguration>, id: string): (r: Option<DebugConfiguration>)
    ensures r.Some? ==> r.value in debugs && r.value.id == id
    ensures r.None? ==> forall c :: c in debugs ==> c.id != id
  {
    if debugs == [] then None
    else if debugs[0].id == id then Some(debugs[0])
    else FindDebug(debugs[1..], id)
  }

  /** No two entries of the repository file carry the same id. */
  ghost predicate DistinctIds(resolved: seq<Resolved>) {
    forall c, d :: c in resolved && d in resolved && c.id == d.id ==> c == d
  }
}
