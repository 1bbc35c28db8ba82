/** Reading the dependency trees that Maven and Gradle print. */
module DependencyText {
  import opened Wrappers
  import opened Text
  import opened DependencyForest

  const INFO: string := "[INFO] "
  const MAVEN_DASHES: string := "-"
  const GRADLE_DASHES: string := "---"
  const MAVEN_COLUMNS: nat := 3
  const GRADLE_COLUMNS: nat := 5

  function SplitOnce(s: string, separator: string): Option<(string, string)> {
    match Find(s, separator)
    case None => None
    case Some(i) => Some((s[..i], s[i + |separator|..]))
  }

  // ---------------------------------------------------------------------
  // Connectors.

  function Marker(corner: char, dashes: string): string {
    [corner] + dashes + " "
  }

  /** Where the first connector of either kind starts. */
  function Connector(line: string, dashes: string): (at: Option<nat>)
    ensures at.Some? ==> at.value + |dashes| + 2 <= |line|
  {
    var tee, end := Find(line, Marker('+', dashes)), Find(line, Marker('\\', dashes));
    if tee.None? then end
    else if end.None? || tee.value < end.value then tee
    else end
  }

  /** `line` shows `text` at the given depth: indentation columns, a connector, the text. */
  ghost predicate Prints(line: string, dashes: string, columns: nat, depth: nat, text: string) {
    exists indent: string, corner: char ::
      && line == indent + Marker(corner, dashes) + text
      && (corner == '+' || corner == '\\')
      && depth >= 1 && |indent| == columns * (depth - 1)
      && forall c :: c in indent ==> c == '|' || c == ' '
  }

  lemma FirstConnector(line: string, indent: string, corner: char, dashes: string, text: string)
    requires line == indent + Marker(corner, dashes) + text && (corner == '+' || corner == '\\')
    requires forall c :: c in indent ==> c == '|' || c == ' '
    ensures Connector(line, dashes) == Some(|indent|)
  {
    var at := |indent|;
    assert line[at..at + |dashes| + 2] == Marker(corner, dashes);
    NoConnectorBefore(line, indent, '+', dashes);
    NoConnectorBefore(line, indent, '\\', dashes);
    FindIs(line, Marker(corner, dashes), at);
  }

  lemma NoConnectorBefore(line: string, indent: string, corner: char, dashes: string)
    requires indent <= line && forall c :: c in indent ==> c != corner
    ensures forall j :: 0 <= j < |indent| ==> !OccursAt(line, Marker(corner, dashes), j)
    ensures |indent| < |line| && line[|indent|] != corner ==> !OccursAt(line, Marker(corner, dashes), |indent|)
  {
    forall j | 0 <= j < |line| && j + |dashes| + 2 <= |line| && line[j] != corner
      ensures !OccursAt(line, Marker(corner, dashes), j)
    {
      assert line[j..j + |dashes| + 2][0] == line[j];
    }
    forall j | 0 <= j < |indent|
      ensures line[j] != corner
    {
      assert line[j] == indent[j] && indent[j] in indent;
    }
  }

  lemma ConnectorOfPrinted(line: string, dashes: string, columns: nat, depth: nat, text: string)
    requires Prints(line, dashes, columns, depth, text) && (columns == 3 || columns == 5)
    ensures Connector(line, dashes) == Some(columns * (depth - 1))
    ensures columns * (depth - 1) / columns + 1 == depth
    ensures columns * (depth - 1) + |dashes| + 2 <= |line|
    ensures line[columns * (depth - 1) + |dashes| + 2..] == text
  {
    hide Connector;
    var indent: string, corner: char :|
      && line == indent + Marker(corner, dashes) + text
      && (corner == '+' || corner == '\\')
      && depth >= 1 && |indent| == columns * (depth - 1)
      && forall c :: c in indent ==> c == '|' || c == ' ';
    FirstConnector(line, indent, corner, dashes, text);
  }

  /** A line that ends in a trimmed text loses nothing when its end is trimmed. */
  lemma PrintedKeepsEnd(line: string, dashes: string, columns: nat, depth: nat, text: string)
    requires Prints(line, dashes, columns, depth, text)
    requires text != "" && Trimmed(text)
    ensures TrimEnd(line) == line && line != ""
  {
    assert line[|line| - 1] == text[|text| - 1];
  }

  // ---------------------------------------------------------------------
  // Maven.

  function ParseMavenCoordinate(raw: string): Option<Dependency> {
    var text := Trim(raw);
    var (coordinate, conflict) :=
      match SplitOnce(text, " (")
      case Some((left, note)) => (Trim(left), Some("(" + Trim(note)))
      case None => (text, None);
    var parts := Split(coordinate, ':');
    if !(4 <= |parts| <= 6) || parts[0] == "" || parts[1] == "" then None
    else if |parts| == 4 then Some(Dependency(parts[0], parts[1], parts[3], "", conflict))
    else if |parts| == 5 then Some(Dependency(parts[0], parts[1], parts[3], parts[4], conflict))
    else Some(Dependency(parts[0], parts[1], parts[4], parts[5], conflict))
  }

  function CountColons(s: string): nat {
    if s == "" then 0 else (if s[0] == ':' then 1 else 0) + CountColons(s[1..])
  }

  datatype Line = Ignored | Root | Entry(depth: nat, dependency: Dependency)

  function StripInfo(raw: string): string {
    if StartsWith(raw, INFO) then raw[|INFO|..] else raw
  }

  function MavenLine(raw: string, seenRoot: bool): (r: Line)
    ensures r.Entry? ==> r.depth >= 1
  {
    StrippedMavenLine(TrimEnd(StripInfo(raw)), seenRoot)
  }

  function StrippedMavenLine(line: string, seenRoot: bool): (r: Line)
    ensures r.Entry? ==> r.depth >= 1
  {
    match Connector(line, MAVEN_DASHES)
    case Some(at) =>
      (match ParseMavenCoordinate(line[at + 3..])
       case Some(d) => Entry(at / MAVEN_COLUMNS + 1, d)
       case None => Ignored)
    case None =>
      if line == "" || seenRoot || CountColons(line) < 2 || ParseMavenCoordinate(line).None? then Ignored else Root
  }

  /** Whether the root line was seen, and the entries since then. */
  function RootedEntries(lines: seq<string>, read: (string, bool) -> Line): (bool, seq<Item>) {
    if lines == [] then (false, [])
    else
      var (seenRoot, items) := RootedEntries(lines[..|lines| - 1], read);
      match read(lines[|lines| - 1], seenRoot)
      case Ignored => (seenRoot, items)
      case Root => (true, [])
      case Entry(depth, d) => (seenRoot, items + [(depth, d)])
  }

  lemma ClampAppend(items: seq<Item>, item: Item)
    ensures Clamp(items + [item]) == Clamp(items) + [(Min(item.0, LastDepth(Clamp(items)) + 1), item.1)]
  {
    assert (items + [item])[..|items|] == items;
  }

  lemma EmptyListing()
    ensures Preorder([], 1) == [] && Clamp([]) == []
  {
  }

  method ParseRooted(lines: seq<string>, read: (string, bool) -> Line) returns (forest: seq<Node>)
    requires forall s, b :: read(s, b).Entry? ==> read(s, b).depth >= 1
    ensures Preorder(forest, 1) == Clamp(RootedEntries(lines, read).1)
  {
    EmptyListing();
    hide Clamp, Preorder, LastDepth, Spine;
    var builder := new Builder();
    var seenRoot := false;
    for i := 0 to |lines|
      invariant fresh(builder) && builder.Valid()
      invariant seenRoot == RootedEntries(lines[..i], read).0
      invariant Preorder(builder.forest, 1) == Clamp(RootedEntries(lines[..i], read).1)
    {
      assert lines[..i + 1][..i] == lines[..i];
      match read(lines[i], seenRoot) {
        case Ignored =>
        case Root =>
          seenRoot := true;
          builder.Clear();
        case Entry(depth, d) =>
          ClampAppend(RootedEntries(lines[..i], read).1, (depth, d));
          builder.Insert(depth, d);
      }
    }
    assert lines[..|lines|] == lines;
    forest := builder.forest;
  }

  method ParseMaven(lines: seq<string>) returns (forest: seq<Node>)
    ensures Preorder(forest, 1) == Clamp(RootedEntries(lines, MavenLine).1)
  {
    forest := ParseRooted(lines, MavenLine);
  }

  /** A line of `mvn dependency:tree`, with or without the log prefix. */
  ghost predicate PrintsMaven(raw: string, item: Item) {
    exists text: string ::
      && Prints(StripInfo(raw), MAVEN_DASHES, MAVEN_COLUMNS, item.0, text)
      && text != "" && Trimmed(text)
      && ParseMavenCoordinate(text) == Some(item.1)
  }

  lemma PrintedMavenLine(raw: string, item: Item, seenRoot: bool)
    requires PrintsMaven(raw, item)
    ensures MavenLine(raw, seenRoot) == Entry(item.0, item.1)
  {
    hide ParseMavenCoordinate, Prints, Connector, Trimmed, StripInfo;
    var line := StripInfo(raw);
    var text: string :|
      && Prints(line, MAVEN_DASHES, MAVEN_COLUMNS, item.0, text)
      && text != "" && Trimmed(text) && ParseMavenCoordinate(text) == Some(item.1);
    PrintedKeepsEnd(line, MAVEN_DASHES, MAVEN_COLUMNS, item.0, text);
    ConnectorOfPrinted(line, MAVEN_DASHES, MAVEN_COLUMNS, item.0, text);
  }

  lemma OneMoreLine(lines: seq<string>, line: string, read: (string, bool) -> Line, depth: nat, d: Dependency)
    requires read(line, RootedEntries(lines, read).0) == Entry(depth, d)
    ensures RootedEntries(lines + [line], read).1 == RootedEntries(lines, read).1 + [(depth, d)]
  {
    assert (lines + [line])[..|lines|] == lines;
  }

  lemma {:induction false} ReadRooted(head: seq<string>, lines: seq<string>, read: (string, bool) -> Line, items: seq<Item>)
    requires RootedEntries(head, read).1 == [] && |lines| == |items|
    requires forall i, b :: 0 <= i < |lines| ==> read(lines[i], b) == Entry(items[i].0, items[i].1)
    ensures RootedEntries(head + lines, read).1 == items
    decreases |lines|
  {
    hide RootedEntries;
    if lines == [] {
      assert head + lines == head;
    } else {
      var n := |lines| - 1;
      var front, last := lines[..n], lines[n];
      ReadRooted(head, front, read, items[..n]);
      var seenRoot := RootedEntries(head + front, read).0;
      assert read(lines[n], seenRoot) == Entry(items[n].0, items[n].1);
      OneMoreLine(head + front, last, read, items[n].0, items[n].1);
      assert head + lines == (head + front) + [last];
      assert items == items[..n] + [items[n]];
    }
  }

  /** Parsing a forest printed below any header, such as a root line, gives back the forest. */
  lemma PrintedMavenForest(head: seq<string>, lines: seq<string>, forest: seq<Node>, parsed: seq<Node>)
    requires RootedEntries(head, MavenLine).1 == [] && |lines| == |Preorder(forest, 1)|
    requires forall i :: 0 <= i < |lines| ==> PrintsMaven(lines[i], Preorder(forest, 1)[i])
    ensures Preorder(parsed, 1) == Clamp(RootedEntries(head + lines, MavenLine).1) ==> parsed == forest
  {
    var items := Preorder(forest, 1);
    forall i, b | 0 <= i < |lines| ensures MavenLine(lines[i], b) == Entry(items[i].0, items[i].1) {
      PrintedMavenLine(lines[i], items[i], b);
    }
    ReadRooted(head, lines, MavenLine, items);
    if Preorder(parsed, 1) == Clamp(items) { ListingRebuildsForest(forest, parsed); }
  }

  /** The line shows no connector: it is a root line, a blank line or a message. */
  ghost predicate Bare(raw: string) {
    var line := TrimEnd(StripInfo(raw));
    !Contains(line, "+- ") && !Contains(line, "\\- ")
  }

  lemma BareHasNoConnector(raw: string)
    requires Bare(raw)
    ensures Connector(TrimEnd(StripInfo(raw)), MAVEN_DASHES) == None
  {
    assert Marker('+', MAVEN_DASHES) == "+- " && Marker('\\', MAVEN_DASHES) == "\\- ";
  }

  /** The lines show the entries in order, with bare lines such as the roots of further modules between them. */
  ghost predicate Shows(lines: seq<string>, items: seq<Item>)
    decreases |lines|
  {
    if lines == [] then items == []
    else
      var n := |lines| - 1;
      || (Bare(lines[n]) && Shows(lines[..n], items))
      || (items != [] && PrintsMaven(lines[n], items[|items| - 1]) && Shows(lines[..n], items[..|items| - 1]))
  }

  /** Messages before the first root line: no connector and no colon. */
  ghost predicate IsMessage(raw: string) {
    Bare(raw) && ':' !in TrimEnd(StripInfo(raw))
  }

  lemma {:induction false} NoColons(s: string)
    requires ':' !in s
    ensures CountColons(s) == 0
  {
    if s != "" {
      SuffixMembers(s, 1);
      NoColons(s[1..]);
    }
  }

  lemma {:induction false} MessagesAreIgnored(lines: seq<string>)
    requires forall line :: line in lines ==> IsMessage(line)
    ensures RootedEntries(lines, MavenLine) == (false, [])
    decreases |lines|
  {
    if lines != [] {
      var n := |lines| - 1;
      hide Connector, CountColons, StripInfo;
      assert lines[n] in lines;
      forall line | line in lines[..n]
        ensures IsMessage(line)
      {
        assert line in lines;
      }
      MessagesAreIgnored(lines[..n]);
      BareHasNoConnector(lines[n]);
      NoColons(TrimEnd(StripInfo(lines[n])));
    }
  }

  /** A root line: a coordinate without a connector. */
  ghost predicate IsRoot(raw: string) {
    var line := TrimEnd(StripInfo(raw));
    Bare(raw) && line != "" && CountColons(line) >= 2 && ParseMavenCoordinate(line).Some?
  }

  /** The first root line starts the listing; later ones are ignored, so the modules' trees follow each other. */
  lemma {:induction false} ModulesFollowEachOther(head: seq<string>, root: string, lines: seq<string>, items: seq<Item>)
    requires (forall line :: line in head ==> IsMessage(line)) && IsRoot(root) && Shows(lines, items)
    ensures RootedEntries(head + [root] + lines, MavenLine) == (true, items)
    decreases |lines|
  {
    hide Connector, CountColons, StripInfo, ParseMavenCoordinate, PrintsMaven, IsMessage;
    if lines == [] {
      MessagesAreIgnored(head);
      BareHasNoConnector(root);
      assert head + [root] + lines == head + [root] && (head + [root])[..|head|] == head;
    } else {
      var n := |lines| - 1;
      var all := head + [root] + lines;
      assert all[..|all| - 1] == head + [root] + lines[..n] && all[|all| - 1] == lines[n];
      if Bare(lines[n]) && Shows(lines[..n], items) {
        ModulesFollowEachOther(head, root, lines[..n], items);
        BareHasNoConnector(lines[n]);
      } else {
        var last := |items| - 1;
        ModulesFollowEachOther(head, root, lines[..n], items[..last]);
        PrintedMavenLine(lines[n], items[last], true);
        assert items == items[..last] + [items[last]];
      }
    }
  }

  // ---------------------------------------------------------------------
  // Gradle.

  function StripMarker(text: string, marker: string): string {
    if |marker| <= |text| && text[|text| - |marker|..] == marker then TrimEnd(text[..|text| - |marker|])
    else text
  }

  function StripMarkers(text: string): string {
    StripMarker(StripMarker(StripMarker(text, " (*)"), " (c)"), " (n)")
  }

  function ParseGradleCoordinate(raw: string): Option<Dependency> {
    var text := StripMarkers(Trim(raw));
    if text == "" then None
    else
      var arbitrated := SplitOnce(text, ARROW);
      var coordinate := match arbitrated case Some((left, _)) => Trim(left) case None => text;
      var resolved := match arbitrated case Some((_, right)) => Some(Trim(right)) case None => None;
      var conflict := if resolved.Some? then Some(coordinate + ARROW + resolved.value) else None;
      var parts := Split(coordinate, ':');
      if !(2 <= |parts| <= 3) || parts[0] == "" || parts[1] == "" then None
      else
        var requested := if |parts| == 3 then parts[2] else "";
        Some(Dependency(parts[0], parts[1], if resolved.Some? then resolved.value else requested, "", conflict))
  }

  function GradleLine(raw: string): (r: Line)
    ensures r.Entry? ==> r.depth >= 1
  {
    var line := TrimEnd(raw);
    match Connector(line, GRADLE_DASHES)
    case None => Ignored
    case Some(at) =>
      match ParseGradleCoordinate(line[at + 5..])
      case Some(d) => Entry(at / GRADLE_COLUMNS + 1, d)
      case None => Ignored
  }

  /** The entries that a line reader finds. */
  function Entries(lines: seq<string>, read: string -> Line): seq<Item> {
    if lines == [] then []
    else
      var items := Entries(lines[..|lines| - 1], read);
      match read(lines[|lines| - 1])
      case Entry(depth, d) => items + [(depth, d)]
      case _ => items
  }

  method ParseEntries(lines: seq<string>, read: string -> Line) returns (forest: seq<Node>)
    requires forall s :: read(s).Entry? ==> read(s).depth >= 1
    ensures Preorder(forest, 1) == Clamp(Entries(lines, read))
  {
    EmptyListing();
    hide Clamp, Preorder, LastDepth, Spine;
    var builder := new Builder();
    for i := 0 to |lines|
      invariant fresh(builder) && builder.Valid()
      invariant Preorder(builder.forest, 1) == Clamp(Entries(lines[..i], read))
    {
      assert lines[..i + 1][..i] == lines[..i];
      var line := read(lines[i]);
      if line.Entry? {
        ClampAppend(Entries(lines[..i], read), (line.depth, line.dependency));
        builder.Insert(line.depth, line.dependency);
      }
    }
    assert lines[..|lines|] == lines;
    forest := builder.forest;
  }

  method ParseGradle(lines: seq<string>) returns (forest: seq<Node>)
    ensures Preorder(forest, 1) == Clamp(Entries(lines, GradleLine))
  {
    forest := ParseEntries(lines, GradleLine);
  }

  ghost predicate PrintsGradle(raw: string, item: Item) {
    exists text: string ::
      && Prints(raw, GRADLE_DASHES, GRADLE_COLUMNS, item.0, text)
      && text != "" && Trimmed(text)
      && ParseGradleCoordinate(text) == Some(item.1)
  }

  lemma PrintedGradleLine(raw: string, item: Item)
    requires PrintsGradle(raw, item)
    ensures GradleLine(raw) == Entry(item.0, item.1)
  {
    hide ParseGradleCoordinate, Prints, Connector, Trimmed;
    var text: string :|
      && Prints(raw, GRADLE_DASHES, GRADLE_COLUMNS, item.0, text)
      && text != "" && Trimmed(text) && ParseGradleCoordinate(text) == Some(item.1);
    PrintedKeepsEnd(raw, GRADLE_DASHES, GRADLE_COLUMNS, item.0, text);
    ConnectorOfPrinted(raw, GRADLE_DASHES, GRADLE_COLUMNS, item.0, text);
  }

  lemma {:induction false} ReadEntries(lines: seq<string>, read: string -> Line, items: seq<Item>)
    requires |lines| == |items|
    requires forall i :: 0 <= i < |lines| ==> read(lines[i]) == Entry(items[i].0, items[i].1)
    ensures Entries(lines, read) == items
    decreases |lines|
  {
    if lines != [] {
      var n := |lines| - 1;
      ReadEntries(lines[..n], read, items[..n]);
      assert items == items[..n] + [items[n]];
    }
  }

  /** Parsing a printed Gradle forest gives back the forest. */
  lemma PrintedGradleForest(lines: seq<string>, forest: seq<Node>, parsed: seq<Node>)
    requires |lines| == |Preorder(forest, 1)|
    requires forall i :: 0 <= i < |lines| ==> PrintsGradle(lines[i], Preorder(forest, 1)[i])
    ensures Preorder(parsed, 1) == Clamp(Entries(lines, GradleLine)) ==> parsed == forest
  {
    var items := Preorder(forest, 1);
    forall i | 0 <= i < |lines| ensures GradleLine(lines[i]) == Entry(items[i].0, items[i].1) {
      PrintedGradleLine(lines[i], items[i]);
    }
    ReadEntries(lines, GradleLine, items);
    if Preorder(parsed, 1) == Clamp(items) { ListingRebuildsForest(forest, parsed); }
  }

  // ---------------------------------------------------------------------
  // Coordinates read back as they were printed.

  predicate PlainParts(parts: seq<string>) {
    |parts| >= 2 && parts[0] != "" && parts[1] != "" && forall p :: p in parts ==> ':' !in p
  }

  function MavenParts(d: Dependency, packaging: string, classifier: Option<string>): seq<string> {
    [d.group, d.artifact, packaging] + (if classifier.Some? then [classifier.value] else []) + [d.version, d.scope]
  }

  lemma MavenCoordinateReadsBack(d: Dependency, packaging: string, classifier: Option<string>, note: string)
    requires PlainParts(MavenParts(d, packaging, classifier))
    requires var coordinate := Join(MavenParts(d, packaging, classifier), ":");
      Trimmed(coordinate) && !Contains(coordinate, " (")
    requires d.conflict == None || (d.conflict == Some("(" + note) && Trimmed(note))
    ensures var coordinate := Join(MavenParts(d, packaging, classifier), ":");
      ParseMavenCoordinate(if d.conflict.Some? then coordinate + " (" + note else coordinate) == Some(d)
  {
    var parts := MavenParts(d, packaging, classifier);
    var coordinate := Join(parts, ":");
    SplitOfJoin(parts, ':');
    TrimFixpoint(coordinate);
    if d.conflict.Some? {
      var text := coordinate + " (" + note;
      assert coordinate != "" by { JoinIsNotEmpty(parts); }
      assert Trimmed(text) by {
        assert text[0] == coordinate[0];
        assert note != "" ==> text[|text| - 1] == note[|note| - 1];
        assert note == "" ==> text[|text| - 1] == '(';
      }
      TrimFixpoint(text);
      TrimFixpoint(note);
      FirstAfter(coordinate, " (", note);
      assert text[..|coordinate|] == coordinate && text[|coordinate| + 2..] == note;
    }
  }

  lemma JoinIsNotEmpty(parts: seq<string>)
    requires PlainParts(parts)
    ensures Join(parts, ":") != ""
  {
    assert |Join(parts, ":")| >= |parts[0]|;
  }

  /** A two-character separator starting with a blank first occurs right after a trimmed text free of it. */
  lemma FirstAfter(left: string, separator: string, right: string)
    requires left != "" && Trimmed(left) && !Contains(left, separator)
    requires |separator| == 2 && separator[0] == ' '
    ensures Find(left + separator + right, separator) == Some(|left|)
  {
    var text := left + separator + right;
    assert text[|left|..|left| + 2] == separator;
    forall j | 0 <= j < |left| ensures !OccursAt(text, separator, j) {
      if j + 2 <= |left| {
        assert text[j..j + 2] == left[j..j + 2];
        assert !OccursAt(left, separator, j);
      } else {
        assert text[j..j + 2][0] == text[j] == left[|left| - 1];
      }
    }
    FindIs(text, separator, |left|);
  }

  predicate EndsWith(text: string, marker: string) {
    |marker| <= |text| && text[|text| - |marker|..] == marker
  }

  predicate IsMarker(marker: string) {
    marker == " (*)" || marker == " (c)" || marker == " (n)"
  }

  /** Nothing at the end that would be taken for a status marker. */
  predicate Unmarked(text: string) {
    !EndsWith(text, " (*)") && !EndsWith(text, " (c)") && !EndsWith(text, " (n)")
  }

  /** One status marker is dropped, and so is none. */
  lemma MarkersAreDropped(text: string, marker: string)
    requires text != "" && Trimmed(text) && Unmarked(text) && (marker == "" || IsMarker(marker))
    ensures Trim(text + marker) == text + marker && StripMarkers(text + marker) == text
  {
    var line := text + marker;
    assert Trimmed(line) by {
      assert line[0] == text[0];
      assert marker != "" ==> line[|line| - 1] == marker[3] == ')';
    }
    TrimFixpoint(line);
    if marker == "" {
      assert line == text;
    } else {
      assert line[|line| - 4..] == marker && line[..|line| - 4] == text;
      TrimFixpoint(text);
      TrimEndOfTrimmed(text);
      OtherMarkersStay(line, marker);
    }
  }

  lemma TrimEndOfTrimmed(text: string)
    requires text != "" && Trimmed(text)
    ensures TrimEnd(text) == text
  {
  }

  lemma OtherMarkersStay(line: string, marker: string)
    requires EndsWith(line, marker) && IsMarker(marker)
    ensures forall other :: IsMarker(other) && other != marker ==> !EndsWith(line, other)
  {
  }

  /** A constraint line may leave out the version. */
  function GradleParts(group: string, artifact: string, version: Option<string>): seq<string> {
    [group, artifact] + if version.Some? then [version.value] else []
  }

  /** A printed coordinate reads back, with or without a version or a status marker. */
  lemma GradleCoordinateReadsBack(group: string, artifact: string, version: Option<string>, marker: string)
    requires PlainParts(GradleParts(group, artifact, version)) && (marker == "" || IsMarker(marker))
    requires var coordinate := Join(GradleParts(group, artifact, version), ":");
      Trimmed(coordinate) && !Contains(coordinate, ARROW) && Unmarked(coordinate)
    ensures ParseGradleCoordinate(Join(GradleParts(group, artifact, version), ":") + marker)
         == Some(Dependency(group, artifact, if version.Some? then version.value else "", "", None))
  {
    hide StripMarkers, Contains, Unmarked;
    var parts := GradleParts(group, artifact, version);
    var coordinate := Join(parts, ":");
    SplitOfJoin(parts, ':');
    JoinIsNotEmpty(parts);
    TrimFixpoint(coordinate);
    MarkersAreDropped(coordinate, marker);
    NoSplitWithout(coordinate);
  }

  lemma NoSplitWithout(text: string)
    requires !Contains(text, ARROW)
    ensures SplitOnce(text, ARROW) == None
  {
  }

  /**
   * An arbitrated version is the one to the right of the arrow, whether or not one was requested; the
   * line without its marker is kept as the conflict.
   */
  lemma GradleArbitrationReadsBack(group: string, artifact: string, requested: Option<string>, resolved: string,
                                   marker: string)
    requires PlainParts(GradleParts(group, artifact, requested)) && (marker == "" || IsMarker(marker))
    requires var coordinate := Join(GradleParts(group, artifact, requested), ":");
      Trimmed(coordinate) && !Contains(coordinate + " ", ARROW)
    requires resolved != "" && Trimmed(resolved)
    requires Unmarked(Join(GradleParts(group, artifact, requested), ":") + ARROW + resolved)
    ensures var line := Join(GradleParts(group, artifact, requested), ":") + ARROW + resolved;
      ParseGradleCoordinate(line + marker) == Some(Dependency(group, artifact, resolved, "", Some(line)))
  {
    hide StripMarkers, Contains, Unmarked, Find;
    var parts := GradleParts(group, artifact, requested);
    var coordinate := Join(parts, ":");
    var line := coordinate + ARROW + resolved;
    SplitOfJoin(parts, ':');
    JoinIsNotEmpty(parts);
    assert Trimmed(line) by {
      assert line[0] == coordinate[0] && line[|line| - 1] == resolved[|resolved| - 1];
    }
    TrimFixpoint(coordinate);
    TrimFixpoint(resolved);
    MarkersAreDropped(line, marker);
    FirstArrow(coordinate, resolved);
    assert line[..|coordinate|] == coordinate && line[|coordinate| + 4..] == resolved;
  }
}
