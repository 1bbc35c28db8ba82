/** Repository files small enough to resolve by hand, for exhibiting failures. */
module SmallFiles {
  import opened Wrappers
  import opened Text
  import opened ExecutionModel
  import opened SharedResolve
  import opened SharedMerge

  const RUN := RunPatch(Some("run"), None)
  const DEBUG := DebugPatch(Some("lldb"), Some("launch"), None, None)

  /** An entry that can be run, perhaps with the id of the debug target to use. */
  function RunnableEntry(id: string, caption: string, debugReference: Option<string>): SharedConfiguration {
    SharedConfiguration(id, Some(caption), None, None, None, None, Some(RUN), None, None, debugReference)
  }

  function Runnable(id: string, caption: string, debugReference: Option<string>, projectId: string): Resolved {
    Resolved(id, caption, "shared", projectId, [], Some(ResolvedRun("run")), None, debugReference, None)
  }

  /** An entry that can only be debugged. */
  function DebuggableEntry(id: string, caption: string): SharedConfiguration {
    SharedConfiguration(id, Some(caption), None, None, None, None, None, Some(DEBUG), None, None)
  }

  function Debuggable(id: string, caption: string, projectId: string): Resolved {
    Resolved(id, caption, "shared", projectId, [], None, Some(ResolvedDebug("lldb", "launch", None)), None, None)
  }

  /** A compound with one child. */
  function GroupEntry(id: string, caption: string, child: string): SharedConfiguration {
    SharedConfiguration(id, Some(caption), None, None, None, None, None, None, Some([child]), None)
  }

  function Group(id: string, caption: string, child: string, projectId: string): Resolved {
    Resolved(id, caption, "shared", projectId, [], None, None, None, Some([child]))
  }

  /** An identifier that trimming leaves alone. */
  ghost predicate PlainId(id: string) {
    GoodIdentifier(id) && Trimmed(id)
  }

  lemma PlainTextIsId(id: string)
    requires id != "" && Trimmed(id) && forall c :: c in id ==> ' ' <= c <= '~'
    ensures PlainId(id) && GoodIdentifier(id)
  {
    TrimFixpoint(id);
  }

  lemma LetterIsId(id: string)
    requires |id| == 1 && 'a' <= id[0] <= 'z'
    ensures PlainId(id) && GoodIdentifier(id)
  {
    PlainTextIsId(id);
  }

  lemma PartsAreIds()
    ensures CheckIdentifier("run", "run.executable").None? && CheckIdentifier("lldb", "debug.adapterId").None?
  {
    PlainTextIsId("run");
    PlainTextIsId("lldb");
  }

  /** A workspace with one project. */
  function OneProject(runs: seq<RunConfiguration>, debugs: seq<DebugConfiguration>): Providers {
    Providers([Project("p", "p", "cargo", "/p")], [], runs, debugs)
  }

  lemma SelectsOnlyProject(p: Providers, standalone: Project, c: SharedConfiguration)
    requires |p.projects| == 1 && c.project.None? && c.base.None? && PlainId(c.id) && CheckCompound(c).None?
    ensures Resolve(p, standalone, c) == Complete(p, c, NoBase, p.projects[0])
  {
    hide Trim, CheckCompound;
    assert CheckIdentifier(c.id, "id").None?;
  }

  lemma RunnableResolves(p: Providers, standalone: Project, id: string, caption: string, reference: Option<string>)
    requires |p.projects| == 1 && PlainId(id)
    ensures Resolve(p, standalone, RunnableEntry(id, caption, reference))
         == Ok(Runnable(id, caption, reference, p.projects[0].id))
  {
    hide Trim, Resolve, CheckIdentifier;
    SelectsOnlyProject(p, standalone, RunnableEntry(id, caption, reference));
    PartsAreIds();
    TrimFixpoint(id);
  }

  lemma DebuggableResolves(p: Providers, standalone: Project, id: string, caption: string)
    requires |p.projects| == 1 && PlainId(id)
    ensures Resolve(p, standalone, DebuggableEntry(id, caption)) == Ok(Debuggable(id, caption, p.projects[0].id))
  {
    hide Trim, Resolve, CheckIdentifier;
    SelectsOnlyProject(p, standalone, DebuggableEntry(id, caption));
    PartsAreIds();
    TrimFixpoint(id);
  }

  lemma GroupResolves(p: Providers, standalone: Project, id: string, caption: string, child: string)
    requires |p.projects| == 1 && PlainId(id) && GoodIdentifier(child)
    ensures Resolve(p, standalone, GroupEntry(id, caption, child)) == Ok(Group(id, caption, child, p.projects[0].id))
  {
    hide Trim, Resolve, CheckIdentifier, CheckCompound, GoodIdentifier;
    var c := GroupEntry(id, caption, child);
    assert GoodCompound(c);
    CompoundIsChecked(c);
    SelectsOnlyProject(p, standalone, c);
    TrimFixpoint(id);
  }

  /** A debug part that names no request and inherits none resolves without one. */
  lemma RequestCanBeEmpty(p: Providers, standalone: Project)
    requires |p.projects| == 1
    ensures var c := DebuggableEntry("d", "d").(debug := Some(DebugPatch(Some("lldb"), None, None, None)));
      Resolve(p, standalone, c).Ok? && Resolve(p, standalone, c).value.debug == Some(ResolvedDebug("lldb", "", None))
  {
    hide Trim, Resolve, CheckIdentifier;
    var c := DebuggableEntry("d", "d").(debug := Some(DebugPatch(Some("lldb"), None, None, None)));
    LetterIsId("d");
    SelectsOnlyProject(p, standalone, c);
    PartsAreIds();
  }

  /** Distinct ids stay distinct when nothing is trimmed. */
  lemma PlainIdsAreDistinct(configurations: seq<SharedConfiguration>)
    requires forall c :: c in configurations ==> PlainId(c.id)
    requires forall i, j :: 0 <= i < j < |configurations| ==> configurations[i].id != configurations[j].id
    ensures DistinctTrimmedIds(configurations)
  {
    hide Trim, GoodIdentifier, Trimmed;
    forall c | c in configurations
      ensures Trim(c.id) == c.id
    {
      TrimFixpoint(c.id);
    }
  }
}
