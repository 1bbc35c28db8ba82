/** From the parsed repository file to the finished execution model. */
module SharedFileMerge {
  import opened Wrappers
  import opened ExecutionModel
  import opened SharedLayers
  import opened SharedResolve
  import opened SharedMerge
  import opened FinishedModel

  /** What the checks on a run or debug part report, as far as those parts are not modelled. */
  type Check<!T> = T -> Option<string>

  /** A layered entry as it is resolved: its own platform part is laid over everything first. */
  function Configured(e: Entry, key: string, checkRun: Check<RunSpec>, checkDebug: Check<DebugSpec>)
    : SharedConfiguration
  {
    var p := Over(PlatformLayer(e.platforms, key), e.own);
    SharedConfiguration(
      e.id, e.caption, p.kind, e.base, e.project, p.beforeLaunch,
      if p.run.Some? then Some(RunPatch(p.run.value.executable, checkRun(p.run.value))) else None,
      if p.debug.Some? then
        Some(DebugPatch(p.debug.value.adapterId, p.debug.value.request, p.debug.value.available,
                        checkDebug(p.debug.value)))
      else None,
      if p.compound.Some? then Some(p.compound.value.configurations) else None,
      e.debugReference)
  }

  function LayeredEntry(templates: map<string, Template>, key: string, e: Entry): Entry
    requires KnownTemplate(templates, e)
  {
    e.(own := Stack(Layers(templates, e, key)))
  }

  /** The configurations that an acceptable file stands for. */
  function Configurations(f: SharedFile, key: string, checkRun: Check<RunSpec>, checkDebug: Check<DebugSpec>)
    : seq<SharedConfiguration>
    requires Listed(f).Ok? && forall e :: e in Listed(f).value ==> KnownTemplate(f.templates, e)
  {
    var listed := Listed(f).value;
    seq(|listed|, i requires 0 <= i < |listed| =>
      assert listed[i] in listed;
      Configured(LayeredEntry(f.templates, key, listed[i]), key, checkRun, checkDebug))
  }

  /** The file can be migrated, and what it stands for can be merged. */
  ghost predicate MergeableFile(p: Providers, standalone: Project, f: SharedFile, key: string,
                                checkRun: Check<RunSpec>, checkDebug: Check<DebugSpec>)
  {
    Acceptable(f) && Mergeable(p, standalone, Configurations(f, key, checkRun, checkDebug))
  }

  /** Lays the platform parts over the migrated entries. */
  method Configure(entries: seq<Entry>, key: string, checkRun: Check<RunSpec>, checkDebug: Check<DebugSpec>)
    returns (configurations: seq<SharedConfiguration>)
    ensures |configurations| == |entries|
    ensures forall i :: 0 <= i < |entries| ==> configurations[i] == Configured(entries[i], key, checkRun, checkDebug)
  {
    configurations := [];
    for i := 0 to |entries|
      invariant |configurations| == i
      invariant forall j :: 0 <= j < i ==> configurations[j] == Configured(entries[j], key, checkRun, checkDebug)
    {
      var applied := ApplyPlatform(entries[i], key);
      var p := applied.own;
      var run := if p.run.Some? then Some(RunPatch(p.run.value.executable, checkRun(p.run.value))) else None;
      var debug := if p.debug.Some?
                   then Some(DebugPatch(p.debug.value.adapterId, p.debug.value.request, p.debug.value.available,
                                        checkDebug(p.debug.value)))
                   else None;
      configurations := configurations
        + [SharedConfiguration(applied.id, applied.caption, p.kind, applied.base, applied.project, p.beforeLaunch,
                               run, debug, if p.compound.Some? then Some(p.compound.value.configurations) else None,
                               applied.debugReference)];
    }
  }

  /**
   * The whole merge of a parsed file: it succeeds exactly if the file can be migrated and merged. An
   * error leaves the run and debug lists as they were; success leaves a closed model that holds, besides
   * the providers' entries, exactly what the resolved entries of the file describe.
   */
  method MergeFile(builder: ModelBuilder, f: SharedFile, key: string, standalone: Project,
                   commandFound: set<string>, checkRun: Check<RunSpec>, checkDebug: Check<DebugSpec>)
    returns (ghost resolved: seq<Resolved>)
    requires ProviderModel(builder.View())
    modifies builder
    ensures builder.targets == old(builder.targets)
    ensures builder.diagnostics == [] <==>
      old(builder.diagnostics) == []
      && MergeableFile(old(builder.View()), standalone, f, key, checkRun, checkDebug)
    ensures builder.diagnostics != [] ==> builder.runs == old(builder.runs) && builder.debugs == old(builder.debugs)
    ensures builder.diagnostics == [] ==>
      && Closed(builder.targets, builder.runs, builder.debugs) && AvailabilitySettled(builder.debugs)
      && ResolvesTo(old(builder.View()), standalone, Configurations(f, key, checkRun, checkDebug), resolved)
      && Describes(old(builder.View()), resolved, commandFound, builder.runs, builder.debugs)
  {
    hide Mergeable, Closed, AvailabilitySettled, ProviderModel, Configured, Acceptable, Describes, ResolvesTo,
         ResolvedFrom, Checked, Emitted, SharedDebugIds, OutcomeWritten, SameButAvailability;
    ghost var p := builder.View();
    resolved := [];
    var migrated := Migrate(f, key);
    if migrated.Err? {
      builder.diagnostics := builder.diagnostics + ["Shared Run/Debug configuration: cannot be migrated"];
      return;
    }
    var configurations := Configure(migrated.value, key, checkRun, checkDebug);
    MigratedConfigurations(f, key, checkRun, checkDebug, migrated.value, configurations);
    ghost var emitted;
    resolved, emitted := builder.MergeShared(configurations, standalone, commandFound);
    if builder.diagnostics == [] { MergeDescribes(p, resolved, commandFound, emitted, builder.debugs); }
  }

  lemma MigratedConfigurations(f: SharedFile, key: string, checkRun: Check<RunSpec>, checkDebug: Check<DebugSpec>,
                               migrated: seq<Entry>, configurations: seq<SharedConfiguration>)
    requires Acceptable(f) && |migrated| == |Listed(f).value| == |configurations|
    requires forall i :: 0 <= i < |migrated| ==> Layered(f.templates, key, Listed(f).value[i], migrated[i])
    requires forall i :: 0 <= i < |migrated| ==>
      configurations[i] == Configured(migrated[i], key, checkRun, checkDebug)
    ensures configurations == Configurations(f, key, checkRun, checkDebug)
  {
    hide Configured, Stack, Listed;
    forall i | 0 <= i < |migrated|
      ensures configurations[i] == Configurations(f, key, checkRun, checkDebug)[i]
    {
      assert Layered(f.templates, key, Listed(f).value[i], migrated[i]);
    }
  }
}
