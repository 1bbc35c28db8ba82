/** The repository file before resolution: migration of version 1 and the layers of an entry. */
module SharedLayers {
  import opened Wrappers

  datatype RunSpec = RunSpec(
    executable: Option<string>,
    args: Option<seq<string>>,
    cwd: Option<string>,
    env: Option<map<string, string>>,
    display: Option<string>,
    runtimeOptions: Option<seq<string>>,
    envFile: Option<string>,
    argumentStrategy: Option<string>,
    environmentModes: Option<map<string, string>>)

  /** The launch configuration is kept as the text of its JSON value. */
  datatype DebugSpec = DebugSpec(
    adapterId: Option<string>,
    request: Option<string>,
    available: Option<bool>,
    launchConfig: Option<string>,
    envFile: Option<string>)

  datatype CompoundSpec = CompoundSpec(
    configurations: seq<string>, parallel: Option<bool>, stopOnFailure: Option<bool>)

  datatype Patch = Patch(
    sourceFile: Option<string>,
    beforeLaunch: Option<seq<string>>,
    kind: Option<string>,
    run: Option<RunSpec>,
    debug: Option<DebugSpec>,
    compound: Option<CompoundSpec>)

  datatype Template = Template(patch: Patch, platforms: map<string, Patch>)

  /**
   * `inlineRun` and `inlineDebug` are the run and debug fields that version 1 put on the entry itself;
   * `caption` and `project` are the first of the two spellings that the file may use for each.
   */
  datatype Entry = Entry(
    id: string,
    caption: Option<string>,
    base: Option<string>,
    project: Option<string>,
    debugReference: Option<string>,
    template: Option<string>,
    own: Patch,
    platforms: map<string, Patch>,
    inlineRun: RunSpec,
    inlineDebug: DebugSpec)

  /** An element of `runs` is a JSON value that may fail to be an entry. */
  datatype SharedFile = SharedFile(
    version: Option<nat>,
    configurations: seq<Entry>,
    runs: seq<Option<Entry>>,
    templates: map<string, Template>)

  datatype MigrationError =
    | RunsAndConfigurations
    | BadRun(index: nat)
    | UnsupportedVersion(version: nat)
    | LegacyRuns
    | NoConfiguration
    | UnknownPlatform
    | UnknownTemplate(id: string, template: string)

  const NO_RUN: RunSpec := RunSpec(None, None, None, None, None, None, None, None, None)
  const NO_DEBUG: DebugSpec := DebugSpec(None, None, None, None, None)
  const NO_PATCH: Patch := Patch(None, None, None, None, None, None)

  // ---------------------------------------------------------------------
  // Laying one patch over another.

  /** Maps are united, the upper one winning. */
  function OverMap(upper: Option<map<string, string>>, lower: Option<map<string, string>>)
    : Option<map<string, string>>
  {
    if upper.Some? && lower.Some? then Some(lower.value + upper.value) else OrElse(upper, lower)
  }

  function OverRun(upper: RunSpec, lower: RunSpec): RunSpec {
    RunSpec(
      OrElse(upper.executable, lower.executable),
      OrElse(upper.args, lower.args),
      OrElse(upper.cwd, lower.cwd),
      OverMap(upper.env, lower.env),
      OrElse(upper.display, lower.display),
      OrElse(upper.runtimeOptions, lower.runtimeOptions),
      OrElse(upper.envFile, lower.envFile),
      OrElse(upper.argumentStrategy, lower.argumentStrategy),
      OverMap(upper.environmentModes, lower.environmentModes))
  }

  function OverDebug(upper: DebugSpec, lower: DebugSpec): DebugSpec {
    DebugSpec(
      OrElse(upper.adapterId, lower.adapterId),
      OrElse(upper.request, lower.request),
      OrElse(upper.available, lower.available),
      OrElse(upper.launchConfig, lower.launchConfig),
      OrElse(upper.envFile, lower.envFile))
  }

  function Over(upper: Patch, lower: Patch): Patch {
    Patch(
      OrElse(upper.sourceFile, lower.sourceFile),
      OrElse(upper.beforeLaunch, lower.beforeLaunch),
      OrElse(upper.kind, lower.kind),
      if upper.run.Some? && lower.run.Some? then Some(OverRun(upper.run.value, lower.run.value))
      else OrElse(upper.run, lower.run),
      if upper.debug.Some? && lower.debug.Some? then Some(OverDebug(upper.debug.value, lower.debug.value))
      else OrElse(upper.debug, lower.debug),
      OrElse(upper.compound, lower.compound))
  }

  method MergeMap(base: Option<map<string, string>>, patch: Option<map<string, string>>)
    returns (merged: Option<map<string, string>>)
    ensures merged == OverMap(patch, base)
  {
    merged := base;
    if patch.Some? {
      if merged.None? { merged := Some(map[]); }
      merged := Some(merged.value + patch.value);
      assert map[] + patch.value == patch.value;
    }
  }

  method MergeRun(base: RunSpec, patch: RunSpec) returns (merged: RunSpec)
    ensures merged == OverRun(patch, base)
  {
    var executable, args, cwd, display := base.executable, base.args, base.cwd, base.display;
    if patch.executable.Some? { executable := patch.executable; }
    if patch.args.Some? { args := patch.args; }
    if patch.cwd.Some? { cwd := patch.cwd; }
    var env := MergeMap(base.env, patch.env);
    if patch.display.Some? { display := patch.display; }
    var options, envFile, strategy := base.runtimeOptions, base.envFile, base.argumentStrategy;
    if patch.runtimeOptions.Some? { options := patch.runtimeOptions; }
    if patch.envFile.Some? { envFile := patch.envFile; }
    if patch.argumentStrategy.Some? { strategy := patch.argumentStrategy; }
    var modes := MergeMap(base.environmentModes, patch.environmentModes);
    merged := RunSpec(executable, args, cwd, env, display, options, envFile, strategy, modes);
  }

  method MergeDebug(base: DebugSpec, patch: DebugSpec) returns (merged: DebugSpec)
    ensures merged == OverDebug(patch, base)
  {
    var adapter, request, available := base.adapterId, base.request, base.available;
    if patch.adapterId.Some? { adapter := patch.adapterId; }
    if patch.request.Some? { request := patch.request; }
    if patch.available.Some? { available := patch.available; }
    var launch, envFile := base.launchConfig, base.envFile;
    if patch.launchConfig.Some? { launch := patch.launchConfig; }
    if patch.envFile.Some? { envFile := patch.envFile; }
    merged := DebugSpec(adapter, request, available, launch, envFile);
  }

  /** A run or debug part that only the patch has is laid over an empty one. */
  method MergePatch(base: Patch, patch: Patch) returns (merged: Patch)
    ensures merged == Over(patch, base)
  {
    merged := base;
    if patch.sourceFile.Some? { merged := merged.(sourceFile := patch.sourceFile); }
    if patch.beforeLaunch.Some? { merged := merged.(beforeLaunch := patch.beforeLaunch); }
    if patch.kind.Some? { merged := merged.(kind := patch.kind); }
    if patch.run.Some? {
      var run := MergeRun(if merged.run.Some? then merged.run.value else NO_RUN, patch.run.value);
      merged := merged.(run := Some(run));
    }
    if patch.debug.Some? {
      var debug := MergeDebug(if merged.debug.Some? then merged.debug.value else NO_DEBUG, patch.debug.value);
      merged := merged.(debug := Some(debug));
    }
    if patch.compound.Some? { merged := merged.(compound := patch.compound); }
  }

  // ---------------------------------------------------------------------
  // What a stack of layers means, field by field.

  datatype Field =
    | SourceFile | BeforeLaunch | Kind | Compound
    | Executable | Args | Cwd | Env(name: string) | Display | RuntimeOptions | RunEnvFile | ArgumentStrategy
    | EnvironmentMode(name: string)
    | AdapterId | Request | Available | LaunchConfig | DebugEnvFile

  datatype Value = Text(text: string) | Texts(texts: seq<string>) | Flag(flag: bool) | Children(compound: CompoundSpec)

  function AsText(o: Option<string>): Option<Value> {
    if o.Some? then Some(Text(o.value)) else None
  }

  function AsTexts(o: Option<seq<string>>): Option<Value> {
    if o.Some? then Some(Texts(o.value)) else None
  }

  function LookUp(m: Option<map<string, string>>, name: string): Option<Value> {
    if m.Some? && name in m.value then Some(Text(m.value[name])) else None
  }

  function ReadRun(run: RunSpec, f: Field): Option<Value> {
    match f
    case Executable => AsText(run.executable)
    case Args => AsTexts(run.args)
    case Cwd => AsText(run.cwd)
    case Env(name) => LookUp(run.env, name)
    case Display => AsText(run.display)
    case RuntimeOptions => AsTexts(run.runtimeOptions)
    case RunEnvFile => AsText(run.envFile)
    case ArgumentStrategy => AsText(run.argumentStrategy)
    case EnvironmentMode(name) => LookUp(run.environmentModes, name)
    case _ => None
  }

  function ReadDebug(debug: DebugSpec, f: Field): Option<Value> {
    match f
    case AdapterId => AsText(debug.adapterId)
    case Request => AsText(debug.request)
    case Available => if debug.available.Some? then Some(Flag(debug.available.value)) else None
    case LaunchConfig => AsText(debug.launchConfig)
    case DebugEnvFile => AsText(debug.envFile)
    case _ => None
  }

  /** What a patch sets a field to; every environment variable is a field of its own. */
  function Read(p: Patch, f: Field): Option<Value> {
    match f
    case SourceFile => AsText(p.sourceFile)
    case BeforeLaunch => AsTexts(p.beforeLaunch)
    case Kind => AsText(p.kind)
    case Compound => if p.compound.Some? then Some(Children(p.compound.value)) else None
    case _ =>
      OrElse(if p.run.Some? then ReadRun(p.run.value, f) else None,
             if p.debug.Some? then ReadDebug(p.debug.value, f) else None)
  }

  lemma OverRunReads(upper: RunSpec, lower: RunSpec, f: Field)
    ensures ReadRun(OverRun(upper, lower), f) == OrElse(ReadRun(upper, f), ReadRun(lower, f))
  {
  }

  lemma OverDebugReads(upper: DebugSpec, lower: DebugSpec, f: Field)
    ensures ReadDebug(OverDebug(upper, lower), f) == OrElse(ReadDebug(upper, f), ReadDebug(lower, f))
  {
  }

  lemma PartsAreDisjoint(run: RunSpec, debug: DebugSpec, f: Field)
    ensures ReadRun(run, f).None? || ReadDebug(debug, f).None?
  {
  }

  lemma OverReads(upper: Patch, lower: Patch, f: Field)
    ensures Read(Over(upper, lower), f) == OrElse(Read(upper, f), Read(lower, f))
  {
    hide ReadRun, ReadDebug, OverRun, OverDebug;
    if upper.run.Some? && lower.run.Some? { OverRunReads(upper.run.value, lower.run.value, f); }
    if upper.debug.Some? && lower.debug.Some? { OverDebugReads(upper.debug.value, lower.debug.value, f); }
    var over := Over(upper, lower);
    if over.run.Some? {
      if upper.debug.Some? { PartsAreDisjoint(over.run.value, upper.debug.value, f); }
      if lower.debug.Some? { PartsAreDisjoint(over.run.value, lower.debug.value, f); }
    }
  }

  /** Layers can be grouped in any way: laying them over each other is associative, and the empty patch is neutral. */
  lemma OverIsMonoid(a: Patch, b: Patch, c: Patch)
    ensures Over(a, Over(b, c)) == Over(Over(a, b), c)
    ensures Over(NO_PATCH, a) == a == Over(a, NO_PATCH)
  {
    MapsAreAssociative(RunEnv(a), RunEnv(b), RunEnv(c));
    MapsAreAssociative(RunModes(a), RunModes(b), RunModes(c));
  }

  function RunEnv(p: Patch): Option<map<string, string>> {
    if p.run.Some? then p.run.value.env else None
  }

  function RunModes(p: Patch): Option<map<string, string>> {
    if p.run.Some? then p.run.value.environmentModes else None
  }

  lemma MapsAreAssociative(a: Option<map<string, string>>, b: Option<map<string, string>>, c: Option<map<string, string>>)
    ensures OverMap(a, OverMap(b, c)) == OverMap(OverMap(a, b), c)
  {
    if a.Some? && b.Some? && c.Some? {
      assert (c.value + b.value) + a.value == c.value + (b.value + a.value);
    }
  }

  /** The layers merged from the bottom up. */
  function Stack(layers: seq<Patch>): Patch {
    if layers == [] then NO_PATCH
    else Over(layers[|layers| - 1], Stack(layers[..|layers| - 1]))
  }

  /** The layer at `i` sets the field, and no layer above it does. */
  predicate SetsLast(layers: seq<Patch>, f: Field, i: nat)
    requires i < |layers|
  {
    Read(layers[i], f).Some? && forall j :: i < j < |layers| ==> Read(layers[j], f).None?
  }

  /** A field has the value of the topmost layer that sets it. */
  lemma {:induction false} TopmostLayerWins(layers: seq<Patch>, f: Field, i: nat)
    requires i < |layers| && SetsLast(layers, f, i)
    ensures Read(Stack(layers), f) == Read(layers[i], f)
    decreases |layers|
  {
    hide Read, Over;
    var n := |layers| - 1;
    OverReads(layers[n], Stack(layers[..n]), f);
    if i < n {
      TopmostLayerWins(layers[..n], f, i);
    }
  }

  /** A field that no layer sets stays unset. */
  lemma {:induction false} NoLayerMeansUnset(layers: seq<Patch>, f: Field)
    requires forall i :: 0 <= i < |layers| ==> Read(layers[i], f).None?
    ensures Read(Stack(layers), f).None?
    decreases |layers|
  {
    if layers != [] {
      var n := |layers| - 1;
      OverReads(layers[n], Stack(layers[..n]), f);
      NoLayerMeansUnset(layers[..n], f);
    }
  }

  // ---------------------------------------------------------------------
  // Migration.

  predicate HasInlineRun(run: RunSpec) {
    run.executable.Some? || run.args.Some? || run.cwd.Some? || run.env.Some?
  }

  /**
   * Version 1 fields become the entry's run and debug parts, unless it has those already. The inline
   * fields themselves are not read again.
   */
  function MigrateInline(e: Entry): Entry {
    var own := e.own.(
      run := if e.own.run.None? && HasInlineRun(e.inlineRun) then Some(e.inlineRun) else e.own.run,
      debug :=
        if e.own.debug.None? && (e.inlineDebug.adapterId.Some? || e.inlineDebug.launchConfig.Some?)
        then Some(DebugSpec(e.inlineDebug.adapterId, e.inlineDebug.request, None, e.inlineDebug.launchConfig, None))
        else e.own.debug);
    e.(own := own)
  }

  /** The entry as version 1 writes it: its run and debug parts as fields of the entry itself. */
  function Inlined(e: Entry): Entry {
    e.(own := e.own.(run := None, debug := None),
       inlineRun := if e.own.run.Some? then e.own.run.value
                    else RunSpec(None, None, None, None, None, None, None, None, None),
       inlineDebug := if e.own.debug.Some? then e.own.debug.value else DebugSpec(None, None, None, None, None))
  }

  /** Version 1 can write a part only if it sets a field by which the part is recognised, and no other debug field. */
  predicate Inlinable(e: Entry) {
    && (e.own.run.Some? ==>
          || e.own.run.value.executable.Some? || e.own.run.value.args.Some?
          || e.own.run.value.cwd.Some? || e.own.run.value.env.Some?)
    && (e.own.debug.Some? ==>
          && (e.own.debug.value.adapterId.Some? || e.own.debug.value.launchConfig.Some?)
          && e.own.debug.value.available.None? && e.own.debug.value.envFile.None?)
  }

  /** An entry written in the form of version 1 migrates to what it was, exactly if that form can hold its parts. */
  lemma InlinedComesBack(e: Entry)
    ensures MigrateInline(Inlined(e)).own == e.own <==> Inlinable(e)
  {
  }

  /** Parts that an entry has already are kept whatever its inline fields say. */
  lemma OwnPartsAreKept(e: Entry)
    ensures e.own.run.Some? ==> MigrateInline(e).own.run == e.own.run
    ensures e.own.debug.Some? ==> MigrateInline(e).own.debug == e.own.debug
    ensures MigrateInline(e) == e.(own := e.own.(run := MigrateInline(e).own.run, debug := MigrateInline(e).own.debug))
  {
  }

  const PLATFORMS: set<string> := {"linux", "macos", "windows"}

  predicate KnownPlatforms(platforms: map<string, Patch>)
    ensures KnownPlatforms(platforms) <==>
      forall key :: key in platforms ==> key == "linux" || key == "macos" || key == "windows"
  {
    platforms.Keys <= PLATFORMS
  }

  function Version(f: SharedFile): nat {
    if f.version.Some? then f.version.value else if f.runs == [] then 2 else 1
  }

  /** The entries that the file lists, in the form of version 2. */
  function Listed(f: SharedFile): Result<seq<Entry>, MigrationError> {
    if Version(f) == 1 then
      if f.configurations != [] && f.runs != [] then Err(RunsAndConfigurations)
      else if f.runs == [] then Ok(MigrateAll(f.configurations))
      else MigrateRuns(f.runs, 0)
    else if Version(f) != 2 then Err(UnsupportedVersion(Version(f)))
    else if f.runs != [] then Err(LegacyRuns)
    else Ok(f.configurations)
  }

  /** A file without a version is of version 1 if it has runs, and of version 2 otherwise. */
  ghost predicate IsVersion(f: SharedFile, version: nat) {
    f.version == Some(version) || (f.version.None? && (if f.runs == [] then version == 2 else version == 1))
  }

  /** Version 1 lists either runs, all of them entries, or configurations; version 2 lists configurations. */
  lemma ListedExactly(f: SharedFile)
    ensures Listed(f).Ok? <==>
      || (IsVersion(f, 1) && (f.runs == [] || f.configurations == []) && forall i :: 0 <= i < |f.runs| ==> f.runs[i].Some?)
      || (IsVersion(f, 2) && f.runs == [])
    ensures forall i :: 0 <= i < |f.runs| && Listed(f) == Err(BadRun(i)) ==>
      f.runs[i].None? && forall j :: 0 <= j < i ==> f.runs[j].Some?
    ensures Listed(f).Ok? && IsVersion(f, 2) ==> Listed(f).value == f.configurations
    ensures Listed(f).Ok? && IsVersion(f, 1) && f.runs == [] ==>
      && |Listed(f).value| == |f.configurations|
      && forall i :: 0 <= i < |f.configurations| ==> Listed(f).value[i] == MigrateInline(f.configurations[i])
    ensures Listed(f).Ok? && IsVersion(f, 1) && f.runs != [] ==>
      && |Listed(f).value| == |f.runs|
      && forall i :: 0 <= i < |f.runs| ==> f.runs[i].Some? && Listed(f).value[i] == MigrateInline(f.runs[i].value)
  {
    hide MigrateInline;
  }

  function MigrateAll(entries: seq<Entry>): seq<Entry> {
    seq(|entries|, i requires 0 <= i < |entries| => MigrateInline(entries[i]))
  }

  function MigrateRuns(runs: seq<Option<Entry>>, index: nat): (r: Result<seq<Entry>, MigrationError>)
    ensures r.Ok? <==> forall i :: 0 <= i < |runs| ==> runs[i].Some?
    ensures r.Ok? ==> |r.value| == |runs|
    ensures r.Ok? ==> forall i :: 0 <= i < |runs| ==> runs[i].Some? && r.value[i] == MigrateInline(runs[i].value)
    ensures r.Err? ==> exists i :: 0 <= i < |runs| && runs[i].None? && r.error == BadRun(index + i)
                                   && forall j :: 0 <= j < i ==> runs[j].Some?
  {
    if runs == [] then Ok([])
    else if runs[0].None? then Err(BadRun(index))
    else
      match MigrateRuns(runs[1..], index + 1)
      case Err(e) =>
        assert forall i :: 0 <= i < |runs[1..]| ==> runs[1..][i] == runs[i + 1];
        Err(e)
      case Ok(rest) => Ok([MigrateInline(runs[0].value)] + rest)
  }

  function PlatformLayer(platforms: map<string, Patch>, key: string): Patch {
    if key in platforms then platforms[key] else NO_PATCH
  }

  /** The layers of an entry in a file, from the bottom up, for the platform `key`. */
  function Layers(templates: map<string, Template>, e: Entry, key: string): seq<Patch>
    requires e.template.Some? ==> e.template.value in templates
  {
    if e.template.None? then [e.own]
    else
      var t := templates[e.template.value];
      [t.patch, PlatformLayer(t.platforms, key), e.own]
  }

  predicate KnownTemplate(templates: map<string, Template>, e: Entry) {
    e.template.Some? ==> e.template.value in templates
  }

  /** The entry and its migrated form differ at most in the patch, which stacks the layers. */
  predicate Layered(templates: map<string, Template>, key: string, before: Entry, after: Entry) {
    KnownTemplate(templates, before) && after == before.(own := Stack(Layers(templates, before, key)))
  }

  lemma StackOfThree(a: Patch, b: Patch, c: Patch)
    ensures Stack([a, b, c]) == Over(c, Over(b, a)) && Stack([c]) == c
    ensures b == NO_PATCH ==> Stack([a, b, c]) == Over(c, a)
  {
    assert [a, b, c][..2] == [a, b] && [a, b][..1] == [a] && [a][..0] == [] && [c][..0] == [];
    OverIsMonoid(a, b, c);
    OverIsMonoid(c, b, a);
    assert Stack([a]) == a && Stack([a, b]) == Over(b, a);
  }

  /** Lays the template, its platform part and the entry's own fields over each other. */
  method ApplyTemplate(e: Entry, template: Template, key: string) returns (patched: Patch)
    ensures patched == Stack([template.patch, PlatformLayer(template.platforms, key), e.own])
  {
    patched := MergePatch(NO_PATCH, template.patch);
    OverIsMonoid(template.patch, NO_PATCH, NO_PATCH);
    if key in template.platforms {
      patched := MergePatch(patched, template.platforms[key]);
    }
    patched := MergePatch(patched, e.own);
    StackOfThree(template.patch, PlatformLayer(template.platforms, key), e.own);
  }

  /** What makes a file acceptable. */
  predicate Acceptable(f: SharedFile) {
    && Listed(f).Ok? && Listed(f).value != []
    && (forall id :: id in f.templates ==> KnownPlatforms(f.templates[id].platforms))
    && (forall e :: e in Listed(f).value ==> KnownPlatforms(e.platforms) && KnownTemplate(f.templates, e))
  }

  /** The migration succeeds exactly on acceptable files, and then layers every entry in place. */
  method Migrate(f: SharedFile, key: string) returns (r: Result<seq<Entry>, MigrationError>)
    ensures r.Ok? <==> Acceptable(f)
    ensures r.Ok? ==> |r.value| == |Listed(f).value|
    ensures r.Ok? ==> forall i :: 0 <= i < |r.value| ==> Layered(f.templates, key, Listed(f).value[i], r.value[i])
    ensures r.Err? && r.error.UnknownTemplate? ==>
      && Listed(f).Ok? && r.error.template !in f.templates
      && (exists e :: e in Listed(f).value && e.id == r.error.id && e.template == Some(r.error.template))
  {
    var listed := Listed(f);
    if listed.Err? { return Err(listed.error); }
    var configurations := listed.value;
    if configurations == [] { return Err(NoConfiguration); }
    if exists id :: id in f.templates && !KnownPlatforms(f.templates[id].platforms) { return Err(UnknownPlatform); }
    if exists e :: e in configurations && !KnownPlatforms(e.platforms) { return Err(UnknownPlatform); }
    for i := 0 to |configurations|
      invariant |configurations| == |listed.value|
      invariant forall j :: i <= j < |configurations| ==> configurations[j] == listed.value[j]
      invariant forall j :: 0 <= j < i ==> Layered(f.templates, key, listed.value[j], configurations[j])
    {
      var e := configurations[i];
      assert e in listed.value;
      StackOfThree(NO_PATCH, NO_PATCH, e.own);
      if e.template.Some? {
        if e.template.value !in f.templates {
          return Err(UnknownTemplate(e.id, e.template.value));
        }
        var patched := ApplyTemplate(e, f.templates[e.template.value], key);
        configurations := configurations[i := e.(own := patched)];
      }
    }
    r := Ok(configurations);
  }

  /** When an entry is resolved, its own platform part is laid over everything and dropped. */
  method ApplyPlatform(e: Entry, key: string) returns (applied: Entry)
    ensures applied == e.(own := Over(PlatformLayer(e.platforms, key), e.own), platforms := e.platforms - {key})
  {
    applied := e;
    if key in e.platforms {
      var merged := MergePatch(e.own, e.platforms[key]);
      applied := e.(own := merged, platforms := e.platforms - {key});
    } else {
      OverIsMonoid(e.own, NO_PATCH, NO_PATCH);
      assert e.platforms - {key} == e.platforms;
    }
  }

  /**
   * The entry that is resolved has each field from the first of: its platform part, its own part, the
   * template's platform part, the template.
   */
  lemma EffectiveEntry(templates: map<string, Template>, key: string, before: Entry, after: Entry, f: Field)
    requires Layered(templates, key, before, after)
    ensures var effective := Over(PlatformLayer(after.platforms, key), after.own);
      var template := if before.template.None? then NO_PATCH else templates[before.template.value].patch;
      var platform := if before.template.None? then NO_PATCH
                      else PlatformLayer(templates[before.template.value].platforms, key);
      Read(effective, f) ==
        OrElse(Read(PlatformLayer(before.platforms, key), f),
          OrElse(Read(before.own, f), OrElse(Read(platform, f), Read(template, f))))
  {
    OverReads(PlatformLayer(after.platforms, key), after.own, f);
    if before.template.None? {
      StackOfThree(NO_PATCH, NO_PATCH, before.own);
    } else {
      var t := templates[before.template.value];
      var platform := PlatformLayer(t.platforms, key);
      StackOfThree(t.patch, platform, before.own);
      OverReads(before.own, Over(platform, t.patch), f);
      OverReads(platform, t.patch, f);
    }
  }
}
