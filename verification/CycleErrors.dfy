/** When the text of a compound error makes it count as a cycle. */
module CycleErrors {
  import opened Wrappers
  import opened Text
  import opened ExecutionModel
  import opened Compounds
  import opened SharedResolve
  import opened SharedMerge
  import opened SmallFiles

  /** The error is a cycle, possibly inside errors about the compounds above. */
  predicate RootIsCycle(e: PlanError) {
    match e
    case Cycle(_) => true
    case Unresolved(_) => false
    case InvalidChild(_, _, cause) => RootIsCycle(cause)
  }

  /** The innermost message or the id of a compound around it contains the phrase. */
  predicate Mentions(e: PlanError) {
    match e
    case Cycle(_) => false
    case Unresolved(message) => Contains(message, CYCLE_TEXT)
    case InvalidChild(childId, _, cause) => Contains(childId, CYCLE_TEXT) || Mentions(cause)
  }

  lemma PhraseCharacters()
    ensures |CYCLE_TEXT| == 28 && CYCLE_TEXT[0] == 'c'
    ensures '`' !in CYCLE_TEXT && ':' !in CYCLE_TEXT && 's' !in CYCLE_TEXT && 'h' !in CYCLE_TEXT && 'b' !in CYCLE_TEXT
  {
  }

  /** Around a quoted name, only the name and what follows it can contain the phrase. */
  lemma QuotedName(before: string, name: string, after: string)
    requires |before| < |CYCLE_TEXT|
    ensures Contains((before + "`") + name + ("`" + after), CYCLE_TEXT) <==>
            Contains(name, CYCLE_TEXT) || Contains(after, CYCLE_TEXT)
  {
    PhraseCharacters();
    hide Contains;
    assert (before + "`") + name + ("`" + after) == before + ['`'] + (name + ['`'] + after);
    SeparatorSplits(before, '`', name + ['`'] + after, CYCLE_TEXT);
    SeparatorSplits(name, '`', after, CYCLE_TEXT);
    ShortTextContainsNothing(before, CYCLE_TEXT);
  }

  /** The opening texts of the messages that quote a name. */
  lemma Openings()
    ensures "compound child `" == "compound child " + "`" && |"compound child "| < |CYCLE_TEXT|
    ensures "provider base `" == "provider base " + "`" && |"provider base "| < |CYCLE_TEXT|
    ensures "unknown compound child `" == "unknown compound child " + "`" && |"unknown compound child "| < |CYCLE_TEXT|
  {
  }

  lemma RenderedChild(childId: string, debug: bool, cause: PlanError)
    ensures IsCycleError(InvalidChild(childId, debug, cause)) <==> Contains(childId, CYCLE_TEXT) || IsCycleError(cause)
  {
    Openings();
    PhraseCharacters();
    RenderedText(childId, debug, cause, Render(cause));
    var mode := " is not valid for " + if debug then "Debug" else "Run";
    var text := Render(cause);
    hide Contains, Render;
    QuotedName("compound child ", childId, mode + [':'] + ([' '] + text));
    SeparatorSplits(mode, ':', [' '] + text, CYCLE_TEXT);
    ShortTextContainsNothing(mode, CYCLE_TEXT);
    FrontIsIgnored(' ', text, CYCLE_TEXT);
  }

  lemma RenderedText(childId: string, debug: bool, cause: PlanError, text: string)
    requires text == Render(cause)
    ensures Render(InvalidChild(childId, debug, cause)) ==
      ("compound child " + "`") + childId
      + ("`" + (" is not valid for " + (if debug then "Debug" else "Run") + [':'] + ([' '] + text)))
  {
    Openings();
    var mode := if debug then "Debug" else "Run";
    var full := "compound child `" + childId + "` is not valid for " + mode + ": " + text;
    assert "` is not valid for " == "`" + " is not valid for ";
    assert ": " == [':'] + [' '];
    Reassociate("compound child `", childId, "`", " is not valid for ", mode, [':'], [' '], text);
    assert Render(InvalidChild(childId, debug, cause)) == full;
  }

  lemma Reassociate(a: string, b: string, c: string, d: string, e: string, f: string, g: string, h: string)
    ensures a + b + (c + d) + e + (f + g) + h == a + b + (c + (d + e + f + (g + h)))
  {
  }

  /** An error counts as a cycle exactly if it is one, or if it mentions the phrase. */
  lemma {:induction false} ClassificationExactly(e: PlanError)
    ensures IsCycleError(e) <==> RootIsCycle(e) || Mentions(e)
  {
    match e {
      case Cycle(walk) => CycleIsClassified(walk);
      case Unresolved(_) =>
      case InvalidChild(childId, debug, cause) =>
        RenderedChild(childId, debug, cause);
        ClassificationExactly(cause);
    }
  }

  /** Every genuine cycle is classified as one. */
  lemma CycleIsClassified(walk: seq<string>)
    ensures IsCycleError(Cycle(walk))
  {
    assert OccursAt(Render(Cycle(walk)), CYCLE_TEXT, 0);
  }

  /** The search never wraps a cycle in the error of a compound above it. */
  lemma {:induction false} PlanKeepsCyclesBare(s: Scope, c: Resolved, visiting: seq<string>)
    requires c in s.resolved
    ensures Plan(s, c, visiting).Err? ==>
      (RootIsCycle(Plan(s, c, visiting).error) <==> Plan(s, c, visiting).error.Cycle?)
    decreases Unvisited(s, visiting), 0
  {
    hide ResolveChildren, TargetOf, Unvisited, IsCycleError;
    if c.id !in visiting && ResolveChildren(s, c).Ok? {
      UnvisitedShrinks(s, visiting, c.id);
      FirstFailureKeepsCyclesBare(s, ResolveChildren(s, c).value, visiting + [c.id]);
    }
  }

  lemma {:induction false} FirstFailureKeepsCyclesBare(s: Scope, childIds: seq<string>, visiting: seq<string>)
    ensures FirstFailure(s, childIds, visiting).Some? ==>
      (RootIsCycle(FirstFailure(s, childIds, visiting).value) <==> FirstFailure(s, childIds, visiting).value.Cycle?)
    decreases Unvisited(s, visiting), |childIds|
  {
    hide TargetOf, Unvisited, IsCycleError;
    if childIds != [] {
      var target := TargetOf(s, childIds[0]);
      if target.Nested? {
        PlanKeepsCyclesBare(s, target.configuration, visiting);
        if Plan(s, target.configuration, visiting).Err? {
          ClassificationExactly(Plan(s, target.configuration, visiting).error);
        }
      }
      FirstFailureKeepsCyclesBare(s, childIds[1..], visiting);
    }
  }

  /** The error of a plan counts as a cycle exactly if it is one, or if it mentions the phrase. */
  lemma PlanClassifiedExactly(s: Scope, c: Resolved)
    requires c in s.resolved && PlanIds(s, c).Err?
    ensures IsCycleError(PlanIds(s, c).error) <==> PlanIds(s, c).error.Cycle? || Mentions(PlanIds(s, c).error)
  {
    PlanKeepsCyclesBare(s, c, []);
    ClassificationExactly(PlanIds(s, c).error);
  }

  // ---------------------------------------------------------------------
  // A condition on the file.

  predicate Free(text: string) {
    !Contains(text, CYCLE_TEXT)
  }

  predicate FreeOption(text: Option<string>) {
    text.Some? ==> Free(text.value)
  }

  /** No id and no reference that a compound error may quote contains the phrase. */
  ghost predicate PhraseFree(s: Scope) {
    && (forall r :: r in s.resolved ==>
          && Free(r.id) && FreeOption(r.debugReference)
          && (r.compound.Some? ==> forall x :: x in r.compound.value ==> Free(x)))
    && (forall x :: x in s.runs ==> Free(x.id) && FreeOption(x.debugConfigurationId))
    && (forall x :: x in s.debugs ==> Free(x.id))
  }

  lemma TrimIsPart(text: string)
    ensures Free(text) ==> Free(Trim(text))
  {
    TrimStartIsSuffix(text);
    TrimEndIsPrefix(TrimStart(text));
    var from := |text| - |TrimStart(text)|;
    assert Trim(text) == text[from..from + |Trim(text)|];
    PartContains(text, from, from + |Trim(text)|, CYCLE_TEXT);
  }

  lemma FreeJoin(a: string, separator: char, b: string)
    requires Free(a) && Free(b) && separator !in CYCLE_TEXT
    ensures Free(a + [separator] + b)
  {
    SeparatorSplits(a, separator, b, CYCLE_TEXT);
  }

  lemma ShortIsFree(a: string)
    requires |a| < 28
    ensures Free(a)
  {
    PhraseCharacters();
    ShortTextContainsNothing(a, CYCLE_TEXT);
  }

  /** A message that opens, quotes a name and closes contains the phrase only through the name. */
  lemma QuotingIsFree(opening: string, before: string, name: string, closing: string, after: string)
    requires opening == before + "`" && closing == "`" + after && |before| < |CYCLE_TEXT|
    requires Free(name) && Free(after)
    ensures Free(opening + name + closing)
  {
    hide Contains;
    QuotedName(before, name, after);
  }

  /** The error of an ambiguous reference quotes the reference. */
  lemma AmbiguousIsFree(reference: string, hint: string)
    requires Free(reference) && |hint| < 28
    ensures Free("provider base `" + reference + "` is ambiguous; add `project` or use `" + hint + ":label`")
  {
    hide Free;
    var middle, last := "` is ambiguous; add `project` or use `", ":label`";
    Openings();
    AmbiguousTail(hint);
    var after := AmbiguousAfter() + hint + last;
    AmbiguousText();
    QuotingIsFree("provider base `", "provider base ", reference, "`" + after, after);
    Regrouped("provider base `", reference, "`", AmbiguousAfter(), hint, last);
  }

  function AmbiguousAfter(): string {
    " is ambiguous; add `project` or use `"
  }

  lemma AmbiguousText()
    ensures "` is ambiguous; add `project` or use `" == "`" + AmbiguousAfter()
  {
  }

  lemma Regrouped(a: string, b: string, c: string, d: string, e: string, f: string)
    ensures a + b + (c + d) + e + f == a + b + (c + (d + e + f))
  {
  }

  lemma AmbiguousTail(hint: string)
    requires |hint| < 28
    ensures Free(AmbiguousAfter() + hint + ":label`")
  {
    hide Free;
    PhraseCharacters();
    ShortIsFree(" is ambiguous; add ");
    ShortIsFree("project");
    ShortIsFree(" or use ");
    ShortIsFree(hint);
    ShortIsFree("label");
    ShortIsFree("");
    var t := " is ambiguous; add " + ['`'] + "project" + ['`'] + " or use ";
    FreeJoin(" is ambiguous; add ", '`', "project");
    FreeJoin(" is ambiguous; add " + ['`'] + "project", '`', " or use ");
    FreeJoin(t, '`', hint);
    FreeJoin(t + ['`'] + hint, ':', "label");
    FreeJoin(t + ['`'] + hint + [':'] + "label", '`', "");
    AmbiguousPieces();
    TailRegrouped(t + ['`'], hint, [':'], "label", ['`']);
  }

  lemma AmbiguousPieces()
    ensures AmbiguousAfter() == " is ambiguous; add " + ['`'] + "project" + ['`'] + " or use " + ['`']
    ensures ":label`" == [':'] + "label" + ['`']
  {
  }

  lemma TailRegrouped(a: string, b: string, c: string, d: string, e: string)
    ensures a + b + c + d + e + "" == a + b + (c + d + e)
  {
  }

  lemma UnknownIsFree(name: string)
    requires Free(name)
    ensures Free("unknown compound child `" + name + "`")
  {
    Openings();
    ShortIsFree("");
    assert "`" == "`" + "";
    QuotingIsFree("unknown compound child `", "unknown compound child ", name, "`", "");
  }

  /** What follows the name when a child has no target. */
  function NoTargetAfter(debug: bool): string {
    " doe" + ['s'] + (" not define a " + (if debug then "debug" else "run") + " target")
  }

  lemma NoTargetText(s: Scope, name: string)
    ensures NoTarget(s, name) == "compound child `" + name + ("`" + NoTargetAfter(s.debug))
    ensures Free(NoTargetAfter(s.debug))
  {
    PhraseCharacters();
    ShortIsFree(" doe");
    ShortIsFree(" not define a " + (if s.debug then "debug" else "run") + " target");
    FreeJoin(" doe", 's', " not define a " + (if s.debug then "debug" else "run") + " target");
    hide Free;
    DoesNotDefine();
    NoTargetRegrouped("compound child `", name, "`" + " doe" + ['s'], " not define a ",
                      if s.debug then "debug" else "run", " target");
  }

  lemma DoesNotDefine()
    ensures "` does not define a " == "`" + " doe" + ['s'] + " not define a "
  {
  }

  lemma NoTargetRegrouped(a: string, b: string, c: string, d: string, e: string, f: string)
    ensures a + b + (c + d) + e + f == a + b + (c + (d + e + f))
  {
  }

  lemma NoTargetIsFree(s: Scope, name: string)
    requires Free(name)
    ensures Free(NoTarget(s, name))
  {
    hide Free, NoTarget, NoTargetAfter;
    Openings();
    NoTargetText(s, name);
    QuotingIsFree("compound child `", "compound child ", name, "`" + NoTargetAfter(s.debug), NoTargetAfter(s.debug));
  }

  lemma OtherProjectIsFree(name: string)
    requires Free(name)
    ensures Free("compound child `" + name + "` belongs to another project")
  {
    Openings();
    ShortIsFree(" belongs to another project");
    hide Free;
    assert "` belongs to another project" == "`" + " belongs to another project";
    QuotingIsFree("compound child `", "compound child ", name, "` belongs to another project", " belongs to another project");
  }

  lemma FixedTexts()
    ensures "compound child reference must not be empty"
         == "compound c" + ['h'] + "ild reference mu" + ['s'] + "t not be empty"
    ensures "configuration is not compound" == "configuration i" + ['s'] + " not compound"
  {
    assert "compound ch" == "compound c" + ['h'];
    assert "compound child reference mu" == "compound ch" + "ild reference mu";
    assert "compound child reference mus" == "compound child reference mu" + ['s'];
    assert "compound child reference must not be empty" == "compound child reference mus" + "t not be empty";
    assert "configuration is" == "configuration i" + ['s'];
    assert "configuration is not compound" == "configuration is" + " not compound";
  }

  lemma FixedMessagesAreFree()
    ensures Free("compound child reference must not be empty")
    ensures Free("configuration is not compound")
  {
    hide Free;
    FixedTexts();
    PhraseCharacters();
    ShortIsFree("compound c");
    ShortIsFree("ild reference mu");
    ShortIsFree("t not be empty");
    ShortIsFree("configuration i");
    ShortIsFree(" not compound");
    FreeJoin("compound c", 'h', "ild reference mu");
    FreeJoin("compound c" + ['h'] + "ild reference mu", 's', "t not be empty");
    FreeJoin("configuration i", 's', " not compound");
  }

  lemma PrefixedIsFree(id: string)
    requires Free(id)
    ensures Free(SHARED_RUN + id) && Free(SHARED_DEBUG + id)
  {
    hide Free;
    PhraseCharacters();
    ShortIsFree("shared-run");
    ShortIsFree("shared-debug");
    FreeJoin("shared-run", ':', id);
    FreeJoin("shared-debug", ':', id);
    assert SHARED_RUN == "shared-run" + [':'] && SHARED_DEBUG == "shared-debug" + [':'];
  }

  /** What is free in a result: the id, or the message. */
  predicate FreeResult(r: Result<string, string>) {
    match r case Ok(id) => Free(id) case Err(message) => Free(message)
  }

  predicate FreeLookup(r: Result<Option<string>, string>) {
    match r case Ok(id) => FreeOption(id) case Err(message) => Free(message)
  }

  lemma DebugTargetIsFree(s: Scope, reference: string, projectId: string)
    requires PhraseFree(s) && Free(reference)
    ensures FreeLookup(DebugTarget(s, reference, projectId))
  {
    hide Free;
    AmbiguousIsFree(reference, "kind");
    AmbiguousIsFree(reference, "adapterId");
  }

  lemma ChildIdIsFree(s: Scope, reference: string, projectId: string)
    requires PhraseFree(s) && Free(reference)
    ensures FreeResult(ResolveChildId(s, reference, projectId))
  {
    hide Free, Trim, DebugTarget;
    var name := Trim(reference);
    TrimIsPart(reference);
    FixedMessagesAreFree();
    UnknownIsFree(name);
    AmbiguousIsFree(name, "kind");
    DebugTargetIsFree(s, name, projectId);
    var named := FindNamed(s.resolved, name);
    if named.Some? {
      PrefixedIsFree(named.value.id);
      SharedChildIsFree(s, named.value, name, projectId);
    }
  }

  lemma SharedChildIsFree(s: Scope, candidate: Resolved, name: string, projectId: string)
    requires PhraseFree(s) && candidate in s.resolved && Free(name)
    ensures FreeResult(ResolveSharedChild(s, candidate, name, projectId))
  {
    hide Free, DebugTarget;
    PrefixedIsFree(candidate.id);
    NoTargetIsFree(s, name);
    if candidate.debugReference.Some? {
      DebugTargetIsFree(s, candidate.debugReference.value, projectId);
      PrefixedIsFree(candidate.debugReference.value);
    }
  }

  lemma ChildIsFree(s: Scope, reference: string, projectId: string)
    requires PhraseFree(s) && Free(reference)
    ensures FreeResult(ResolveChild(s, reference, projectId))
  {
    hide Free, ResolveChildId, ChildProject;
    ChildIdIsFree(s, reference, projectId);
    OtherProjectIsFree(reference);
  }

  lemma {:induction false} ChildrenAreFree(s: Scope, references: seq<string>, projectId: string)
    requires PhraseFree(s) && forall x :: x in references ==> Free(x)
    ensures var r := ResolveAll(s, references, projectId);
      match r case Ok(ids) => (forall id :: id in ids ==> Free(id)) case Err(message) => Free(message)
  {
    hide Free, ResolveChild;
    if references != [] {
      SuffixMembers(references, 1);
      assert references[0] in references;
      ChildIsFree(s, references[0], projectId);
      ChildrenAreFree(s, references[1..], projectId);
    }
  }

  lemma MissingIsFree(s: Scope, childId: string)
    requires Free(childId) && TargetOf(s, childId).Missing?
    ensures Free("unknown compound child `" + TargetOf(s, childId).sharedId + "`")
  {
    var sharedId := TargetOf(s, childId).sharedId;
    assert childId[|childId| - |sharedId|..|childId|] == sharedId;
    PartContains(childId, |childId| - |sharedId|, |childId|, CYCLE_TEXT);
    UnknownIsFree(sharedId);
  }

  lemma {:induction false} PlanMentionsNothing(s: Scope, c: Resolved, visiting: seq<string>)
    requires PhraseFree(s) && c in s.resolved
    ensures Plan(s, c, visiting).Err? ==> !Mentions(Plan(s, c, visiting).error)
    decreases Unvisited(s, visiting), 0
  {
    hide Unvisited, Free, TargetOf, ResolveAll;
    FixedMessagesAreFree();
    if c.compound.Some? { ChildrenAreFree(s, c.compound.value, c.projectId); }
    MentionsIsNotFree();
    if c.id !in visiting && ResolveChildren(s, c).Ok? {
      UnvisitedShrinks(s, visiting, c.id);
      FirstFailureMentionsNothing(s, ResolveChildren(s, c).value, visiting + [c.id]);
    }
  }

  lemma MentionsIsNotFree()
    ensures forall message :: Mentions(Unresolved(message)) <==> !Free(message)
  {
  }

  lemma {:induction false} FirstFailureMentionsNothing(s: Scope, childIds: seq<string>, visiting: seq<string>)
    requires PhraseFree(s) && forall id :: id in childIds ==> Free(id)
    ensures FirstFailure(s, childIds, visiting).Some? ==> !Mentions(FirstFailure(s, childIds, visiting).value)
    decreases Unvisited(s, visiting), |childIds|
  {
    hide Unvisited, TargetOf, IsCycleError;
    if childIds != [] {
      var target := TargetOf(s, childIds[0]);
      assert childIds[0] in childIds;
      SuffixMembers(childIds, 1);
      if target.Missing? { MissingIsFree(s, childIds[0]); }
      if target.Nested? { PlanMentionsNothing(s, target.configuration, visiting); }
      FirstFailureMentionsNothing(s, childIds[1..], visiting);
    }
  }

  /** If no id and no reference contains the phrase, exactly the cycles count as cycles. */
  lemma PhraseFreeIsClassifiedRight(s: Scope, c: Resolved)
    requires PhraseFree(s) && c in s.resolved && PlanIds(s, c).Err?
    ensures IsCycleError(PlanIds(s, c).error) <==> PlanIds(s, c).error.Cycle?
  {
    PlanClassifiedExactly(s, c);
    PlanMentionsNothing(s, c, []);
  }

  // ---------------------------------------------------------------------
  // A file that is rejected although it has a valid mode.

  /**
   * A compound of one runnable entry whose name contains the phrase has a Run plan, but its Debug
   * error counts as a cycle, so the file is rejected.
   */
  lemma PhraseInNameRejectsFile(name: string, id: string, projectId: string)
    requires Contains(name, CYCLE_TEXT) && Trimmed(name) && name != id
    requires SHARED_RUN + id != name && SHARED_DEBUG + id != name && id != SHARED_RUN + name && id != SHARED_DEBUG + name
    ensures var c := Group(id, id, name, projectId);
      var s := Scope([Runnable(name, name, None, projectId), c], [], [], false);
      PlanIds(s, c).Ok? && !Accepted(s, c)
  {
    var r, c := Runnable(name, name, None, projectId), Group(id, id, name, projectId);
    var s := Scope([r, c], [], [], false);
    TrimFixpoint(name);
    NameIsNotEmpty(name);
    assert s.resolved[1..] == [c] && s.resolved[0] == r && c == s.resolved[1];
    assert FindNamed(s.resolved, name) == Some(r);
    RunModeWorks(s, r, c, name);
    DebugModeMentions(s.(debug := true), r, c, name);
  }

  lemma NameIsNotEmpty(name: string)
    requires Contains(name, CYCLE_TEXT)
    ensures name != ""
  {
    if name == "" { ShortTextContainsNothing(name, CYCLE_TEXT); }
  }

  lemma RunModeWorks(s: Scope, r: Resolved, c: Resolved, name: string)
    requires s.resolved == [r, c] && !s.debug && r.id == name && r.run.Some? && r.compound.None?
    requires c.compound == Some([name]) && c.projectId == r.projectId && c.id != name && c in s.resolved
    requires Trim(name) == name && name != "" && FindNamed(s.resolved, name) == Some(r)
    ensures PlanIds(s, c).Ok?
  {
    hide FindNamed, StripPrefix, Trim;
    var childId := SHARED_RUN + name;
    StripPrefixOfConcat(SHARED_RUN, name);
    assert FindShared(s.resolved, name) == Some(r);
    assert ResolveChild(s, name, c.projectId) == Ok(childId);
    OneChild(s, name, c.projectId, childId);
    assert TargetOf(s, childId).Leaf?;
    OneLeaf(s, childId, [c.id]);
    UnvisitedShrinks(s, [], c.id);
    assert [] + [c.id] == [c.id];
  }

  lemma OneChild(s: Scope, name: string, projectId: string, childId: string)
    requires ResolveChild(s, name, projectId) == Ok(childId)
    ensures ResolveAll(s, [name], projectId) == Ok([childId])
  {
    hide ResolveChild;
    assert ResolveAll(s, [name][1..], projectId) == Ok([]);
    assert [childId] + [] == [childId];
  }

  lemma OneLeaf(s: Scope, childId: string, visiting: seq<string>)
    requires TargetOf(s, childId).Leaf?
    ensures FirstFailure(s, [childId], visiting) == None
  {
    hide TargetOf;
    assert FirstFailure(s, [childId][1..], visiting) == None;
  }

  lemma DebugModeMentions(s: Scope, r: Resolved, c: Resolved, name: string)
    requires s.resolved == [r, c] && s.debug && c in s.resolved
    requires r.debug.None? && r.compound.None? && r.debugReference.None?
    requires c.compound == Some([name]) && Contains(name, CYCLE_TEXT)
    requires Trim(name) == name && name != "" && FindNamed(s.resolved, name) == Some(r)
    ensures PlanIds(s, c).Err? && IsCycleError(PlanIds(s, c).error)
  {
    hide FindNamed, Trim, NoTarget, Contains, NoTargetAfter;
    assert ResolveChild(s, name, c.projectId) == Err(NoTarget(s, name));
    assert PlanIds(s, c) == Err(Unresolved(NoTarget(s, name)));
    NoTargetText(s, name);
    Openings();
    QuotedName("compound child ", name, NoTargetAfter(s.debug));
  }

  /** An unknown child counts as a cycle exactly if its name contains the phrase. */
  lemma UnknownChildIsMistakenForCycle(name: string)
    ensures IsCycleError(Unresolved("unknown compound child `" + name + "`")) <==> Contains(name, CYCLE_TEXT)
  {
    Openings();
    ShortTextContainsNothing("", CYCLE_TEXT);
    assert "`" == "`" + "";
    QuotedName("unknown compound child ", name, "");
  }

  /** One compound that is not accepted rejects the file. */
  lemma RejectedByCompound(p: Providers, standalone: Project, entries: seq<SharedConfiguration>, rs: seq<Resolved>,
                           c: Resolved)
    requires c in rs && c.compound.Some?
    ensures ResolvesTo(p, standalone, entries, rs) && !Accepted(Scope(rs, p.runs, p.debugs, true), c) ==>
              !Mergeable(p, standalone, entries)
  {
    hide ResolvesTo, DistinctTrimmedIds, Accepted;
    if Mergeable(p, standalone, entries) && ResolvesTo(p, standalone, entries, rs) {
      MergeableWhenChecked(p, standalone, entries, rs);
    }
  }

  lemma NothingIsModel()
    ensures ProviderModel(OneProject([], []))
  {
  }

  /** The merge receives such a file and rejects it. */
  lemma PhraseRejectsFile(standalone: Project)
    ensures var p, entries, rs := OneProject([], []), PhraseEntries(), PhraseResolved();
      && ProviderModel(p) && DistinctTrimmedIds(entries) && ResolvesTo(p, standalone, entries, rs)
      && PlanIds(Scope(rs, [], [], false), rs[1]).Ok? && !Mergeable(p, standalone, entries)
  {
    var p, entries, rs := OneProject([], []), PhraseEntries(), PhraseResolved();
    hide ResolvesTo, DistinctTrimmedIds, Mergeable, Accepted, Plan, ProviderModel;
    NothingIsModel();
    PhraseEntriesResolve(p, standalone);
    PhraseIsNotAccepted();
    RejectedByCompound(p, standalone, entries, rs, rs[1]);
  }

  lemma PhraseIsNotAccepted()
    ensures var rs := PhraseResolved();
      PlanIds(Scope(rs, [], [], false), rs[1]).Ok? && !Accepted(Scope(rs, [], [], true), rs[1])
  {
    var rs := PhraseResolved();
    assert OccursAt(CYCLE_TEXT, CYCLE_TEXT, 0);
    assert |CYCLE_TEXT| == 28 && |SHARED_RUN + "all"| == 14 && |SHARED_DEBUG + "all"| == 16;
    hide Contains, Plan, IsCycleError;
    PhraseInNameRejectsFile(CYCLE_TEXT, "all", "p");
    assert Scope(rs, [], [], true).(debug := false) == Scope(rs, [], [], false);
  }

  function PhraseEntries(): seq<SharedConfiguration> {
    [RunnableEntry(CYCLE_TEXT, CYCLE_TEXT, None), GroupEntry("all", "all", CYCLE_TEXT)]
  }

  function PhraseResolved(): seq<Resolved> {
    [Runnable(CYCLE_TEXT, CYCLE_TEXT, None, "p"), Group("all", "all", CYCLE_TEXT, "p")]
  }

  lemma PhraseEntriesResolve(p: Providers, standalone: Project)
    requires p == OneProject([], [])
    ensures DistinctTrimmedIds(PhraseEntries()) && ResolvesTo(p, standalone, PhraseEntries(), PhraseResolved())
  {
    PlainTextIsId(CYCLE_TEXT);
    PlainTextIsId("all");
    assert |CYCLE_TEXT| == 28 && |"all"| == 3;
    hide Resolve, GoodIdentifier, PlainId;
    RunnableResolves(p, standalone, CYCLE_TEXT, CYCLE_TEXT, None);
    GroupResolves(p, standalone, "all", "all", CYCLE_TEXT);
    var entries := PhraseEntries();
    assert forall c :: c in entries ==> c == entries[0] || c == entries[1];
    PlainIdsAreDistinct(entries);
  }
}
