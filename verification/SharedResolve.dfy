/** One entry of the repository file, checked and completed from the providers' model. */
module SharedResolve {
  import opened Wrappers
  import opened Text
  import opened ExecutionModel

  /** `rejected` carries the message of a failed check on the parts of the patch that are not modelled. */
  datatype RunPatch = RunPatch(executable: Option<string>, rejected: Option<string>)

  datatype DebugPatch = DebugPatch(
    adapterId: Option<string>,
    request: Option<string>,
    available: Option<bool>,
    rejected: Option<string>)

  datatype SharedConfiguration = SharedConfiguration(
    id: string,
    caption: Option<string>,
    kind: Option<string>,
    base: Option<string>,
    project: Option<string>,
    beforeLaunch: Option<seq<string>>,
    run: Option<RunPatch>,
    debug: Option<DebugPatch>,
    compound: Option<seq<string>>,
    debugReference: Option<string>)

  /** The model as the providers left it. */
  datatype Providers = Providers(
    projects: seq<Project>,
    targets: seq<BuildTarget>,
    runs: seq<RunConfiguration>,
    debugs: seq<DebugConfiguration>)

  predicate IsControl(c: char) {
    c as int < 0x20 || 0x7F <= c as int < 0xA0
  }

  /** The error a bad identifier gives, if it is one. */
  function CheckIdentifier(value: string, field: string): Option<string> {
    if Trim(value) == "" then Some("`" + field + "` must not be empty")
    else if exists c :: c in Trim(value) && IsControl(c) then
      Some("`" + field + "` must not contain control characters")
    else None
  }

  function CheckChildren(children: seq<string>, seen: set<string>): Option<string> {
    if children == [] then None
    else
      var bad := CheckIdentifier(children[0], "compound.configurations entry");
      if bad.Some? then bad
      else if Trim(children[0]) in seen then
        Some("compound configuration contains duplicate child `" + children[0] + "`")
      else CheckChildren(children[1..], seen + {Trim(children[0])})
  }

  function CheckCompound(c: SharedConfiguration): Option<string> {
    if c.compound.None? then None
    else if c.compound.value == [] then Some("compound configuration must list at least one child")
    else if CheckChildren(c.compound.value, {}).Some? then CheckChildren(c.compound.value, {})
    else if c.run.Some? || c.debug.Some? || c.base.Some? || c.debugReference.Some? then
      Some("compound configuration cannot also define run, debug, base, or debugConfigurationId")
    else None
  }

  function ProviderProject(projects: seq<Project>, reference: Option<string>): Result<Project, string> {
    if reference.None? || Trim(reference.value) == "" then
      if |projects| == 1 then Ok(projects[0])
      else Err("`project` is required when the workspace contains zero or multiple projects")
    else
      var name := Trim(reference.value);
      var matches := Filter(projects, (p: Project) =>
        p.id == name || p.moduleName == name || p.provider == name || p.root == name);
      if matches == [] then Err("unknown project `" + name + "`")
      else if |matches| == 1 then Ok(matches[0])
      else Err("project reference `" + name + "` is ambiguous; use a project id")
  }

  function FindProject(projects: seq<Project>, id: string): Option<Project> {
    if projects == [] then None
    else if projects[0].id == id then Some(projects[0])
    else FindProject(projects[1..], id)
  }

  predicate TargetMatches(t: BuildTarget, reference: string, projectId: string) {
    t.projectId == projectId && PortableReferenceMatches(reference, t.id, t.kind, t.caption)
  }

  /** A target of the project goes by its id, its kind, its caption and `kind:caption`. */
  predicate IsNamed(t: BuildTarget, reference: string, projectId: string) {
    t.projectId == projectId && reference in {t.id, t.kind, t.caption, t.kind + ":" + t.caption}
  }

  /** The reference names a build target of the project with the given id. */
  ghost predicate Names(targets: seq<BuildTarget>, reference: string, projectId: string, id: string) {
    exists t :: t in targets && t.id == id && IsNamed(t, reference, projectId)
  }

  /** Exactly one build target of the project matches the reference. */
  ghost predicate NamesOne(targets: seq<BuildTarget>, reference: string, projectId: string) {
    && (exists t :: t in targets && IsNamed(t, reference, projectId))
    && !HoldTwo(targets, (t: BuildTarget) => IsNamed(t, reference, projectId))
  }

  /** The id of the one build target of the project that the reference names, or an error. */
  function ResolveBuildReference(targets: seq<BuildTarget>, reference: string, projectId: string)
    : (r: Result<string, string>)
    ensures r.Ok? <==> NamesOne(targets, reference, projectId)
    ensures r.Ok? ==> Names(targets, reference, projectId, r.value)
  {
    var matching := (t: BuildTarget) => TargetMatches(t, reference, projectId);
    var matches := Filter(targets, matching);
    FilterMembers(targets, matching);
    TwoInFilter(targets, matching);
    assert matches != [] ==> matches[0] in matches;
    assert forall t :: matching(t) <==> IsNamed(t, reference, projectId);
    assert HoldTwo(targets, matching) <==> HoldTwo(targets, (t: BuildTarget) => IsNamed(t, reference, projectId));
    if matches == [] then Err("unknown Before launch target `" + reference + "`")
    else if |matches| > 1 then Err("Before launch target `" + reference + "` is ambiguous; use `kind:label`")
    else Ok(matches[0].id)
  }

  /** Each before-launch reference becomes the id of the one build target of the project it names. */
  function ResolveBuildReferences(targets: seq<BuildTarget>, references: seq<string>, projectId: string)
    : (r: Result<seq<string>, string>)
    ensures r.Ok? <==> forall x :: x in references ==> NamesOne(targets, x, projectId)
    ensures r.Ok? ==> |r.value| == |references|
    ensures r.Ok? ==> forall i :: 0 <= i < |references| ==> Names(targets, references[i], projectId, r.value[i])
  {
    if references == [] then Ok([])
    else
      match ResolveBuildReference(targets, references[0], projectId)
      case Err(e) =>
        assert references[0] in references;
        Err(e)
      case Ok(id) =>
        match ResolveBuildReferences(targets, references[1..], projectId)
        case Err(e) => Err(e)
        case Ok(rest) => Ok([id] + rest)
  }

  /** The provider entry that `base` names: a run entry if there is one, else a debug entry. */
  datatype Base = NoBase | RunBase(run: RunConfiguration) | DebugBase(debug: DebugConfiguration)

  function FindBase(p: Providers, base: Option<string>, projectId: Option<string>): (r: Result<Base, string>)
    ensures r == Ok(NoBase) <==> base.None?
    ensures r.Ok? && r.value.RunBase? ==>
      r.value.run in p.runs && RunMatches(r.value.run, base.value, projectId)
    ensures r.Ok? && r.value.DebugBase? ==>
      && r.value.debug in p.debugs && DebugMatches(r.value.debug, base.value, projectId)
      && forall x :: x in p.runs ==> !RunMatches(x, base.value, projectId)
    ensures r.Err? <==>
      && base.Some?
      && (|| HoldTwo(p.runs, (x: RunConfiguration) => RunMatches(x, base.value, projectId))
          || ((forall x :: x in p.runs ==> !RunMatches(x, base.value, projectId))
              && (HoldTwo(p.debugs, (x: DebugConfiguration) => DebugMatches(x, base.value, projectId))
                  || forall x :: x in p.debugs ==> !DebugMatches(x, base.value, projectId))))
  {
    if base.None? then Ok(NoBase)
    else
      match ProviderRun(p.runs, base.value, projectId)
      case Err(e) => Err(e)
      case Ok(Some(run)) => Ok(RunBase(run))
      case Ok(None) =>
        match ProviderDebug(p.debugs, base.value, projectId)
        case Err(e) => Err(e)
        case Ok(Some(debug)) => Ok(DebugBase(debug))
        case Ok(None) => Err("unknown provider base `" + base.value + "`")
  }

  function ProjectOf(p: Providers, standalone: Project, c: SharedConfiguration, base: Base,
                     requested: Option<Project>): Result<Project, string>
  {
    match base
    case RunBase(run) =>
      (match FindProject(p.projects, run.projectId)
       case Some(project) => Ok(project)
       case None => Err("provider base `" + run.id + "` has no project"))
    case DebugBase(debug) =>
      (match FindProject(p.projects, debug.projectId)
       case Some(project) => Ok(project)
       case None => Err("provider base `" + debug.id + "` has no project"))
    case NoBase =>
      if p.projects == [] && c.project.None? then Ok(standalone)
      else if requested.Some? then Ok(requested.value)
      else ProviderProject(p.projects, c.project)
  }

  function DefaultTargets(base: Base): seq<string> {
    match base
    case RunBase(run) => run.preLaunchTargets
    case DebugBase(debug) => debug.preLaunchTargets
    case NoBase => []
  }

  function ResolveRun(base: Base, patch: Option<RunPatch>): Result<Option<ResolvedRun>, string> {
    if !base.RunBase? && patch.None? then Ok(None)
    else if patch.Some? && patch.value.rejected.Some? then Err(patch.value.rejected.value)
    else
      var inherited := if base.RunBase? then base.run.executable else "";
      var executable := if patch.Some? && patch.value.executable.Some?
                        then patch.value.executable.value else inherited;
      match CheckIdentifier(executable, "run.executable")
      case Some(e) => Err(e)
      case None => Ok(Some(ResolvedRun(executable)))
  }

  function InheritedDebug(p: Providers, base: Base): Option<ResolvedDebug> {
    match base
    case DebugBase(debug) => Some(ResolvedDebug(debug.adapterId, debug.request, None))
    case RunBase(run) =>
      if run.debugConfigurationId.None? then None
      else
        (match FindDebug(p.debugs, run.debugConfigurationId.value)
         case Some(debug) => Some(ResolvedDebug(debug.adapterId, debug.request, None))
         case None => None)
    case NoBase => None
  }

  function PatchDebug(d: ResolvedDebug, patch: DebugPatch): Result<ResolvedDebug, string> {
    if patch.adapterId.Some? && CheckIdentifier(patch.adapterId.value, "debug.adapterId").Some? then
      Err(CheckIdentifier(patch.adapterId.value, "debug.adapterId").value)
    else if patch.request.Some? && patch.request.value != "launch" && patch.request.value != "attach" then
      Err("invalid debug.request `" + patch.request.value + "`")
    else if patch.rejected.Some? then Err(patch.rejected.value)
    else Ok(ResolvedDebug(
      if patch.adapterId.Some? then patch.adapterId.value else d.adapterId,
      if patch.request.Some? then patch.request.value else d.request,
      OrElse(patch.available, d.available)))
  }

  function ResolveDebug(p: Providers, base: Base, patch: Option<DebugPatch>)
    : Result<Option<ResolvedDebug>, string>
  {
    var inherited := InheritedDebug(p, base);
    if inherited.None? && patch.None? then Ok(None)
    else
      var start := if inherited.Some? then inherited.value else ResolvedDebug("", "", None);
      var patched := if patch.Some? then PatchDebug(start, patch.value) else Ok(start);
      match patched
      case Err(e) => Err(e)
      case Ok(debug) =>
        match CheckIdentifier(debug.adapterId, "debug.adapterId")
        case Some(e) => Err(e)
        case None => Ok(Some(debug))
  }

  /** What every resolved entry guarantees to the rest of the merge. */
  ghost predicate WellFormed(p: Providers, r: Resolved) {
    && (r.run.Some? || r.debug.Some? || r.compound.Some?)
    && (r.compound.Some? ==> r.run.None? && r.debug.None? && r.debugReference.None? && r.compound.value != [])
    && TargetsExist(p.targets, r.beforeLaunch)
  }

  ghost predicate TargetsExist(targets: seq<BuildTarget>, ids: seq<string>) {
    forall id :: id in ids ==> exists t :: t in targets && t.id == id
  }

  lemma NamedTargetsExist(targets: seq<BuildTarget>, references: seq<string>, projectId: string, ids: seq<string>)
    requires ResolveBuildReferences(targets, references, projectId) == Ok(ids)
    ensures TargetsExist(targets, ids)
  {
    forall id | id in ids
      ensures exists t :: t in targets && t.id == id
    {
      var i :| 0 <= i < |ids| && ids[i] == id;
      assert Names(targets, references[i], projectId, ids[i]);
    }
  }

  function RequestedProject(p: Providers, c: SharedConfiguration): Result<Option<Project>, string> {
    if c.project.None? then Ok(None)
    else
      match ProviderProject(p.projects, c.project)
      case Err(e) => Err(e)
      case Ok(project) => Ok(Some(project))
  }

  function Complete(p: Providers, c: SharedConfiguration, base: Base, project: Project)
    : (r: Result<Resolved, string>)
    requires CheckCompound(c).None?
    requires c.base.None? ==> base.NoBase?
    ensures r.Ok? ==> WellFormed(p, r.value) && r.value.id == Trim(c.id) && r.value.projectId == project.id
  {
    var references := if c.beforeLaunch.Some? then c.beforeLaunch.value else DefaultTargets(base);
    match ResolveBuildReferences(p.targets, references, project.id)
    case Err(e) => Err(e)
    case Ok(beforeLaunch) =>
      NamedTargetsExist(p.targets, references, project.id, beforeLaunch);
      match ResolveRun(base, c.run)
      case Err(e) => Err(e)
      case Ok(run) =>
        match ResolveDebug(p, base, c.debug)
        case Err(e) => Err(e)
        case Ok(debug) =>
          if run.None? && debug.None? && c.compound.None? then
            Err("configuration must define `run`, `debug`, or a provider `base`")
          else Ok(Resolved(
            Trim(c.id),
            if c.caption.Some? then c.caption.value else c.id,
            if c.kind.Some? then c.kind.value else if base.RunBase? then base.run.kind else "shared",
            project.id, beforeLaunch, run, debug, c.debugReference, c.compound))
  }

  function Resolve(p: Providers, standalone: Project, c: SharedConfiguration): (r: Result<Resolved, string>)
    ensures r.Ok? ==> WellFormed(p, r.value) && r.value.id == Trim(c.id)
  {
    if CheckIdentifier(c.id, "id").Some? then Err(CheckIdentifier(c.id, "id").value)
    else if CheckCompound(c).Some? then Err(CheckCompound(c).value)
    else
      match RequestedProject(p, c)
      case Err(e) => Err(e)
      case Ok(requested) =>
        match FindBase(p, c.base, if requested.Some? then Some(requested.value.id) else None)
        case Err(e) => Err(e)
        case Ok(base) =>
          match ProjectOf(p, standalone, c, base, requested)
          case Err(e) => Err(e)
          case Ok(project) =>
            if requested.Some? && requested.value.id != project.id then
              Err("`project` does not match the selected provider base")
            else Complete(p, c, base, project)
  }

  // ---------------------------------------------------------------------
  // When an entry resolves.

  ghost predicate GoodIdentifier(value: string) {
    Trim(value) != "" && forall c :: c in Trim(value) ==> !IsControl(c)
  }

  /** The children are identifiers that are new and distinct after trimming. */
  ghost predicate GoodChildren(children: seq<string>, seen: set<string>) {
    && (forall x :: x in children ==> GoodIdentifier(x) && Trim(x) !in seen)
    && (forall i, j :: 0 <= i < j < |children| ==> Trim(children[i]) != Trim(children[j]))
  }

  /** Every child is an identifier of its own, and the compound defines nothing else. */
  ghost predicate GoodCompound(c: SharedConfiguration) {
    c.compound.Some? ==>
      var children := c.compound.value;
      && children != [] && GoodChildren(children, {})
      && c.run.None? && c.debug.None? && c.base.None? && c.debugReference.None?
  }

  lemma {:induction false} ChildrenAreChecked(children: seq<string>, seen: set<string>)
    ensures CheckChildren(children, seen).None? <==> GoodChildren(children, seen)
  {
    if children != [] {
      hide Trim, IsControl, GoodChildren;
      ChildrenAreChecked(children[1..], seen + {Trim(children[0])});
      GoodChildrenStep(children, seen);
    }
  }

  lemma GoodChildrenStep(children: seq<string>, seen: set<string>)
    requires children != []
    ensures GoodChildren(children, seen) <==>
      && GoodIdentifier(children[0]) && Trim(children[0]) !in seen
      && GoodChildren(children[1..], seen + {Trim(children[0])})
  {
    hide Trim, GoodIdentifier;
    var first, rest := children[0], children[1..];
    assert children == [first] + rest && first in children;
    assert forall x :: x in children <==> x == first || x in rest;
    DistinctTail(children);
    FirstDiffers(children);
  }

  lemma FirstDiffers(children: seq<string>)
    requires children != []
    ensures (forall x :: x in children[1..] ==> Trim(x) != Trim(children[0])) <==>
            forall j :: 0 < j < |children| ==> Trim(children[0]) != Trim(children[j])
  {
    hide Trim;
    var rest := children[1..];
    if forall j :: 0 < j < |children| ==> Trim(children[0]) != Trim(children[j]) {
      forall x | x in rest
        ensures Trim(x) != Trim(children[0])
      {
        var i :| 0 <= i < |rest| && rest[i] == x;
        assert children[i + 1] == x;
      }
    }
    if forall x :: x in rest ==> Trim(x) != Trim(children[0]) {
      forall j | 0 < j < |children|
        ensures Trim(children[0]) != Trim(children[j])
      {
        assert rest[j - 1] == children[j];
      }
    }
  }

  lemma DistinctTail(children: seq<string>)
    requires children != []
    ensures (forall i, j :: 0 <= i < j < |children| ==> Trim(children[i]) != Trim(children[j])) <==>
      && (forall j :: 0 < j < |children| ==> Trim(children[0]) != Trim(children[j]))
      && (forall i, j :: 0 <= i < j < |children[1..]| ==> Trim(children[1..][i]) != Trim(children[1..][j]))
  {
    hide Trim;
    var rest := children[1..];
    if forall i, j :: 0 <= i < j < |children| ==> Trim(children[i]) != Trim(children[j]) {
      forall i, j | 0 <= i < j < |rest|
        ensures Trim(rest[i]) != Trim(rest[j])
      {
        assert rest[i] == children[i + 1] && rest[j] == children[j + 1];
      }
    }
    if (forall i, j :: 0 <= i < j < |rest| ==> Trim(rest[i]) != Trim(rest[j]))
       && forall j :: 0 < j < |children| ==> Trim(children[0]) != Trim(children[j]) {
      forall i, j | 0 <= i < j < |children|
        ensures Trim(children[i]) != Trim(children[j])
      {
        assert i > 0 ==> rest[i - 1] == children[i] && rest[j - 1] == children[j];
      }
    }
  }

  lemma CompoundIsChecked(c: SharedConfiguration)
    ensures CheckCompound(c).None? <==> GoodCompound(c)
  {
    if c.compound.Some? { ChildrenAreChecked(c.compound.value, {}); }
  }

  /** The command to run: the patch's executable over the base's. */
  function Executable(base: Base, patch: Option<RunPatch>): string {
    if patch.Some? && patch.value.executable.Some? then patch.value.executable.value
    else if base.RunBase? then base.run.executable
    else ""
  }

  ghost predicate GoodRun(base: Base, patch: Option<RunPatch>) {
    base.RunBase? || patch.Some? ==>
      (patch.Some? ==> patch.value.rejected.None?) && GoodIdentifier(Executable(base, patch))
  }

  /** The adapter: the patch's over the one inherited from the provider. */
  function Adapter(inherited: Option<ResolvedDebug>, patch: Option<DebugPatch>): string {
    if patch.Some? && patch.value.adapterId.Some? then patch.value.adapterId.value
    else if inherited.Some? then inherited.value.adapterId
    else ""
  }

  /** The request: the patch's over the inherited one. Without either it is empty. */
  function Request(inherited: Option<ResolvedDebug>, patch: Option<DebugPatch>): string {
    if patch.Some? && patch.value.request.Some? then patch.value.request.value
    else if inherited.Some? then inherited.value.request
    else ""
  }

  ghost predicate GoodDebug(inherited: Option<ResolvedDebug>, patch: Option<DebugPatch>) {
    inherited.Some? || patch.Some? ==>
      && (patch.Some? ==>
            && patch.value.rejected.None?
            && (patch.value.request.Some? ==> patch.value.request.value in {"launch", "attach"}))
      && GoodIdentifier(Adapter(inherited, patch))
  }

  /** The project and the base that the entry selects fit together. */
  ghost predicate Selects(p: Providers, standalone: Project, c: SharedConfiguration, base: Base, project: Project) {
    exists requested ::
      && RequestedProject(p, c) == Ok(requested)
      && FindBase(p, c.base, if requested.Some? then Some(requested.value.id) else None) == Ok(base)
      && ProjectOf(p, standalone, c, base, requested) == Ok(project)
      && (requested.Some? ==> requested.value.id == project.id)
  }

  function References(c: SharedConfiguration, base: Base): seq<string> {
    if c.beforeLaunch.Some? then c.beforeLaunch.value else DefaultTargets(base)
  }

  /** What remains to be right once base and project are selected. */
  ghost predicate Completable(p: Providers, c: SharedConfiguration, base: Base, project: Project) {
    && (forall x :: x in References(c, base) ==> NamesOne(p.targets, x, project.id))
    && GoodRun(base, c.run) && GoodDebug(InheritedDebug(p, base), c.debug)
    && (base.RunBase? || c.run.Some? || InheritedDebug(p, base).Some? || c.debug.Some? || c.compound.Some?)
  }

  lemma RunResolvesExactly(base: Base, patch: Option<RunPatch>)
    ensures ResolveRun(base, patch).Ok? <==> GoodRun(base, patch)
    ensures ResolveRun(base, patch).Ok? ==>
      ResolveRun(base, patch).value ==
        if base.RunBase? || patch.Some? then Some(ResolvedRun(Executable(base, patch))) else None
  {
  }

  lemma DebugResolvesExactly(p: Providers, base: Base, patch: Option<DebugPatch>)
    ensures ResolveDebug(p, base, patch).Ok? <==> GoodDebug(InheritedDebug(p, base), patch)
    ensures ResolveDebug(p, base, patch).Ok? ==>
      && (ResolveDebug(p, base, patch).value.Some? <==> InheritedDebug(p, base).Some? || patch.Some?)
      && (ResolveDebug(p, base, patch).value.Some? ==>
            ResolveDebug(p, base, patch).value.value
            == ResolvedDebug(Adapter(InheritedDebug(p, base), patch), Request(InheritedDebug(p, base), patch),
                             if patch.Some? then patch.value.available else None))
  {
    hide Trim, IsControl;
  }

  lemma CompletesExactly(p: Providers, c: SharedConfiguration, base: Base, project: Project)
    requires CheckCompound(c).None? && (c.base.None? ==> base.NoBase?)
    ensures Complete(p, c, base, project).Ok? <==> Completable(p, c, base, project)
  {
    hide GoodRun, GoodDebug, ResolveRun, ResolveDebug, InheritedDebug, ResolveBuildReferences, NamesOne, CheckCompound;
    RunResolvesExactly(base, c.run);
    DebugResolvesExactly(p, base, c.debug);
  }

  /** An entry resolves exactly if its identifiers, its selection and its parts are in order. */
  lemma ResolvesExactly(p: Providers, standalone: Project, c: SharedConfiguration)
    ensures Resolve(p, standalone, c).Ok? <==>
      && GoodIdentifier(c.id) && GoodCompound(c)
      && exists base, project :: Selects(p, standalone, c, base, project) && Completable(p, c, base, project)
  {
    hide Complete, Completable, ProjectOf, RequestedProject, GoodCompound, CheckCompound, WellFormed;
    CompoundIsChecked(c);
    assert CheckIdentifier(c.id, "id").None? <==> GoodIdentifier(c.id);
    if GoodCompound(c) && RequestedProject(p, c).Ok? {
      var requested := RequestedProject(p, c).value;
      var found := FindBase(p, c.base, if requested.Some? then Some(requested.value.id) else None);
      if found.Ok? && ProjectOf(p, standalone, c, found.value, requested).Ok? {
        var project := ProjectOf(p, standalone, c, found.value, requested).value;
        CompletesExactly(p, c, found.value, project);
        assert (requested.Some? ==> requested.value.id == project.id) <==> Selects(p, standalone, c, found.value, project);
      }
    }
  }

  // ---------------------------------------------------------------------
  // Which project an entry selects.

  predicate NamedProject(q: Project, name: string) {
    name == q.id || name == q.moduleName || name == q.provider || name == q.root
  }

  /** The project that a reference names: the only one that has the name, or for a blank reference the only one at all. */
  ghost predicate NamesProject(projects: seq<Project>, reference: string, project: Project) {
    if Trim(reference) == "" then projects == [project]
    else exists i ::
      && 0 <= i < |projects| && projects[i] == project && NamedProject(project, Trim(reference))
      && forall j :: 0 <= j < |projects| && j != i ==> !NamedProject(projects[j], Trim(reference))
  }

  /** The first project with the id. */
  ghost predicate FirstWithId(projects: seq<Project>, id: string, project: Project) {
    exists i ::
      && 0 <= i < |projects| && projects[i] == project && project.id == id
      && forall j :: 0 <= j < i ==> projects[j].id != id
  }

  lemma ProjectByName(projects: seq<Project>, reference: string, project: Project)
    ensures ProviderProject(projects, Some(reference)) == Ok(project) <==> NamesProject(projects, reference, project)
  {
    var name := Trim(reference);
    if name != "" {
      hide Trim;
      var matching := (p: Project) => p.id == name || p.moduleName == name || p.provider == name || p.root == name;
      var matches := Filter(projects, matching);
      FilterMembers(projects, matching);
      TwoInFilter(projects, matching);
      assert matches != [] ==> matches[0] in matches;
      assert forall q :: matching(q) <==> NamedProject(q, name);
      if |matches| == 1 {
        var i :| 0 <= i < |projects| && projects[i] == matches[0];
        assert forall j :: 0 <= j < |projects| && j != i ==> !matching(projects[j]);
      }
      if NamesProject(projects, reference, project) {
        assert project in projects && project in matches;
      }
    } else {
      hide Trim;
      assert |projects| == 1 ==> projects == [projects[0]];
    }
  }

  lemma ProjectById(projects: seq<Project>, id: string, project: Project)
    ensures FindProject(projects, id) == Some(project) <==> FirstWithId(projects, id, project)
  {
    if projects != [] && projects[0].id != id {
      ProjectById(projects[1..], id, project);
      if FirstWithId(projects, id, project) {
        var i :| 0 <= i < |projects| && projects[i] == project && project.id == id
                 && forall j :: 0 <= j < i ==> projects[j].id != id;
        assert projects[1..][i - 1] == project;
      }
      if FirstWithId(projects[1..], id, project) {
        var i :| 0 <= i < |projects[1..]| && projects[1..][i] == project && project.id == id
                 && forall j :: 0 <= j < i ==> projects[1..][j].id != id;
        assert projects[i + 1] == project;
        forall j | 0 <= j < i + 1 ensures projects[j].id != id {
          assert j > 0 ==> projects[1..][j - 1] == projects[j];
        }
      }
    }
  }

  /** The project follows from the base, or else from the reference, or else is the only one; without any, a stand-in. */
  ghost predicate ProjectFits(p: Providers, standalone: Project, requested: Option<Project>, base: Base, project: Project) {
    match base
    case RunBase(run) => FirstWithId(p.projects, run.projectId, project)
    case DebugBase(debug) => FirstWithId(p.projects, debug.projectId, project)
    case NoBase =>
      if requested.Some? then project == requested.value
      else if p.projects == [] then project == standalone
      else p.projects == [project]
  }

  /** Base and project are selected exactly if the reference, where there is one, names a project with the same id. */
  lemma SelectsExactly(p: Providers, standalone: Project, c: SharedConfiguration, base: Base, project: Project)
    ensures Selects(p, standalone, c, base, project) <==>
      exists requested: Option<Project> ::
        && (requested.Some? <==> c.project.Some?)
        && (requested.Some? ==> NamesProject(p.projects, c.project.value, requested.value) && requested.value.id == project.id)
        && FindBase(p, c.base, if requested.Some? then Some(requested.value.id) else None) == Ok(base)
        && ProjectFits(p, standalone, requested, base, project)
  {
    hide NamesProject, FirstWithId, FindBase, ProviderProject, FindProject;
    forall requested: Option<Project>
      ensures RequestedProject(p, c) == Ok(requested) <==>
        (requested.Some? <==> c.project.Some?)
        && (requested.Some? ==> NamesProject(p.projects, c.project.value, requested.value))
    {
      if c.project.Some? && requested.Some? { ProjectByName(p.projects, c.project.value, requested.value); }
    }
    forall requested: Option<Project> | RequestedProject(p, c) == Ok(requested)
      ensures ProjectOf(p, standalone, c, base, requested) == Ok(project) <==>
              ProjectFits(p, standalone, requested, base, project)
    {
      ProjectFollows(p, standalone, c, base, requested, project);
    }
  }

  lemma ProjectFollows(p: Providers, standalone: Project, c: SharedConfiguration, base: Base, requested: Option<Project>,
                       project: Project)
    requires RequestedProject(p, c) == Ok(requested)
    ensures ProjectOf(p, standalone, c, base, requested) == Ok(project) <==>
            ProjectFits(p, standalone, requested, base, project)
  {
    hide FirstWithId, FindProject;
    match base {
      case RunBase(run) => ProjectById(p.projects, run.projectId, project);
      case DebugBase(debug) => ProjectById(p.projects, debug.projectId, project);
      case NoBase => assert |p.projects| == 1 ==> p.projects == [p.projects[0]];
    }
  }

  // ---------------------------------------------------------------------
  // What an entry resolves to.

  /** The entry takes over what the configuration says, and from its base what it does not say. */
  ghost predicate Carries(p: Providers, c: SharedConfiguration, base: Base, project: Project, r: Resolved) {
    && r.id == Trim(c.id) && r.projectId == project.id
    && r.caption == (if c.caption.Some? then c.caption.value else c.id)
    && (c.kind.Some? ==> r.kind == c.kind.value)
    && (c.kind.None? && base.RunBase? ==> r.kind == base.run.kind)
    && (c.kind.None? && !base.RunBase? ==> r.kind == "shared")
    && r.debugReference == c.debugReference && r.compound == c.compound
    && |r.beforeLaunch| == |References(c, base)|
    && (forall i :: 0 <= i < |r.beforeLaunch| ==>
          Names(p.targets, References(c, base)[i], project.id, r.beforeLaunch[i]))
    && (r.run.Some? <==> base.RunBase? || c.run.Some?)
    && (r.run.Some? ==> r.run.value.executable == Executable(base, c.run))
    && CarriesDebug(p, c, base, r)
  }

  /** A provider's availability is not inherited: only the entry itself can disable its debug target. */
  ghost predicate CarriesDebug(p: Providers, c: SharedConfiguration, base: Base, r: Resolved) {
    var inherited := InheritedDebug(p, base);
    && (r.debug.Some? <==> inherited.Some? || c.debug.Some?)
    && (r.debug.Some? ==>
          && r.debug.value.adapterId == Adapter(inherited, c.debug)
          && r.debug.value.request == Request(inherited, c.debug)
          && r.debug.value.available == if c.debug.Some? then c.debug.value.available else None)
    && (c.debug.None? && base.DebugBase? ==>
          r.debug == Some(ResolvedDebug(base.debug.adapterId, base.debug.request, None)))
    && (c.debug.None? && base.RunBase? && base.run.debugConfigurationId.Some? && r.debug.Some? ==>
          exists d :: d in p.debugs && d.id == base.run.debugConfigurationId.value
                      && r.debug == Some(ResolvedDebug(d.adapterId, d.request, None)))
  }

  lemma CompleteCarries(p: Providers, c: SharedConfiguration, base: Base, project: Project)
    requires CheckCompound(c).None? && (c.base.None? ==> base.NoBase?)
    ensures Complete(p, c, base, project).Ok? ==> Carries(p, c, base, project, Complete(p, c, base, project).value)
  {
    hide ResolveRun, ResolveDebug, ResolveBuildReferences, CheckCompound, Trim, Names;
    RunResolvesExactly(base, c.run);
    DebugResolvesExactly(p, base, c.debug);
    if base.RunBase? && base.run.debugConfigurationId.Some? {
      assert FindDebug(p.debugs, base.run.debugConfigurationId.value).Some? ==>
             FindDebug(p.debugs, base.run.debugConfigurationId.value).value in p.debugs;
    }
  }

  /** What a resolved entry holds. */
  lemma ResolvedCarries(p: Providers, standalone: Project, c: SharedConfiguration)
    requires Resolve(p, standalone, c).Ok?
    ensures exists base, project ::
      Selects(p, standalone, c, base, project) && Carries(p, c, base, project, Resolve(p, standalone, c).value)
  {
    hide Complete, Carries, ProjectOf, RequestedProject, CheckCompound, WellFormed;
    var requested := RequestedProject(p, c).value;
    var base := FindBase(p, c.base, if requested.Some? then Some(requested.value.id) else None).value;
    var project := ProjectOf(p, standalone, c, base, requested).value;
    CompleteCarries(p, c, base, project);
    assert Selects(p, standalone, c, base, project);
  }

  /**
   * A debug part ends up with a request to launch or to attach exactly if it names one or inherits
   * one; nothing is filled in for a part that does neither.
   */
  lemma RequestIsChecked(p: Providers, base: Base, patch: Option<DebugPatch>)
    requires ResolveDebug(p, base, patch).Ok? && ResolveDebug(p, base, patch).value.Some?
    ensures ResolveDebug(p, base, patch).value.value.request in {"launch", "attach"} <==>
      || (patch.Some? && patch.value.request.Some?)
      || (InheritedDebug(p, base).Some? && InheritedDebug(p, base).value.request in {"launch", "attach"})
  {
    hide Trim, IsControl;
    assert |""| < |"launch"| && |""| < |"attach"|;
    DebugResolvesExactly(p, base, patch);
  }
}
