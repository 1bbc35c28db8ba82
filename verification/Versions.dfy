/** Ordering of dotted versions and the choice of the newest bundle. */
module Versions {
  import opened Wrappers
  import opened Text

  const U64: nat := 0x1_0000_0000_0000_0000

  datatype Ordering = Less | Equal | Greater

  predicate IsSeparator(c: char) {
    c == '.' || c == '-' || c == '_'
  }

  function SplitParts(raw: string): (parts: seq<string>)
    ensures |parts| >= 1
  {
    if raw == "" then [""]
    else
      var rest := SplitParts(raw[1..]);
      if IsSeparator(raw[0]) then [""] + rest else [[raw[0]] + rest[0]] + rest[1..]
  }

  function LeadingDigits(part: string): string {
    if part != "" && '0' <= part[0] <= '9' then [part[0]] + LeadingDigits(part[1..]) else ""
  }

  /** A component without leading digits, or one that does not fit 64 bits, counts as zero. */
  function Component(part: string): nat {
    var value := DigitsValue(LeadingDigits(part));
    if value < U64 then value else 0
  }

  function Components(parts: seq<string>): seq<nat> {
    if parts == [] then [] else [Component(parts[0])] + Components(parts[1..])
  }

  function NumericVersion(raw: string): seq<nat> {
    Components(SplitParts(raw))
  }

  // ---------------------------------------------------------------------
  // Spelled out, a version reads back as its numbers.

  /** A number, and what follows its digits within the component: no digit first, and no separator. */
  type Spelling = (nat, string)

  predicate Trails(suffix: string) {
    && (suffix != "" ==> !('0' <= suffix[0] <= '9'))
    && forall c :: c in suffix ==> c != '.' && c != '-' && c != '_'
  }

  /** The components in decimal, each with its trailing text, joined by the given separators. */
  function Spell(parts: seq<Spelling>, separators: string): string
    requires |parts| == |separators| + 1
  {
    Decimal(parts[0].0) + parts[0].1
    + if |parts| == 1 then "" else [separators[0]] + Spell(parts[1..], separators[1..])
  }

  lemma {:induction false} SplitAtFirst(part: string, separator: char, rest: string)
    requires forall c :: c in part ==> c != '.' && c != '-' && c != '_'
    ensures SplitParts(part) == [part]
    ensures separator in {'.', '-', '_'} ==> SplitParts(part + [separator] + rest) == [part] + SplitParts(rest)
  {
    if part == "" {
      assert part + [separator] + rest == [separator] + rest;
      assert ([separator] + rest)[1..] == rest;
    } else {
      assert part[0] in part && part == [part[0]] + part[1..];
      SuffixMembers(part, 1);
      SplitAtFirst(part[1..], separator, rest);
      assert (part + [separator] + rest)[1..] == part[1..] + [separator] + rest;
    }
  }

  lemma {:induction false} DigitsEnd(digits: string, suffix: string)
    requires AllDigits(digits) && (suffix != "" ==> !('0' <= suffix[0] <= '9'))
    ensures LeadingDigits(digits + suffix) == digits
  {
    if digits == "" {
      assert digits + suffix == suffix;
    } else {
      SuffixMembers(digits, 1);
      assert digits[0] in digits && digits == [digits[0]] + digits[1..];
      DigitsEnd(digits[1..], suffix);
      assert (digits + suffix)[1..] == digits[1..] + suffix;
    }
  }

  /** Decimal components joined by any of the separators read back as the numbers, whatever trails them. */
  lemma {:induction false} SpelledReadsBack(parts: seq<Spelling>, separators: string)
    requires |parts| == |separators| + 1
    requires forall p :: p in parts ==> p.0 < 0x1_0000_0000_0000_0000 && Trails(p.1)
    requires forall c :: c in separators ==> c in {'.', '-', '_'}
    ensures |NumericVersion(Spell(parts, separators))| == |parts|
    ensures forall i :: 0 <= i < |parts| ==> NumericVersion(Spell(parts, separators))[i] == parts[i].0
    decreases |parts|
  {
    hide Decimal, LeadingDigits, DigitsValue, SplitParts;
    var part := Decimal(parts[0].0) + parts[0].1;
    assert parts[0] in parts;
    DecimalValue(parts[0].0);
    DigitsEnd(Decimal(parts[0].0), parts[0].1);
    if |parts| == 1 {
      SplitAtFirst(part, '.', "");
      assert Spell(parts, separators) == part;
      assert [part][1..] == [] && Components([part]) == [Component(part)];
    } else {
      var rest := Spell(parts[1..], separators[1..]);
      SuffixMembers(parts, 1);
      SuffixMembers(separators, 1);
      assert separators[0] in separators;
      SpelledReadsBack(parts[1..], separators[1..]);
      SplitAtFirst(part, separators[0], rest);
      assert Spell(parts, separators) == part + [separators[0]] + rest;
      assert ([part] + SplitParts(rest))[1..] == SplitParts(rest);
    }
  }

  /** A component that does not begin with a digit counts as zero, and so does one beyond 64 bits. */
  lemma OtherComponentsAreZero(part: string)
    requires part == "" || !('0' <= part[0] <= '9') || (AllDigits(part) && DigitsValue(part) >= 0x1_0000_0000_0000_0000)
    ensures Component(part) == 0
  {
    if part != "" && '0' <= part[0] <= '9' {
      DigitsEnd(part, "");
      assert part + "" == part;
    }
  }

  /** A missing component counts as zero. */
  function At(v: seq<nat>, i: nat): nat {
    if i < |v| then v[i] else 0
  }

  function CompareFrom(l: seq<nat>, r: seq<nat>, i: nat): Ordering
    decreases |l| + |r| - i
  {
    if i >= |l| && i >= |r| then Equal
    else if At(l, i) < At(r, i) then Less
    else if At(l, i) > At(r, i) then Greater
    else CompareFrom(l, r, i + 1)
  }

  function Compare(left: string, right: string): Ordering {
    CompareFrom(NumericVersion(left), NumericVersion(right), 0)
  }

  /** `l` and `r` agree before `i`, and `l` is smaller there. */
  ghost predicate LessAt(l: seq<nat>, r: seq<nat>, i: nat) {
    At(l, i) < At(r, i) && forall j: nat :: j < i ==> At(l, j) == At(r, j)
  }

  ghost predicate SameVersion(l: seq<nat>, r: seq<nat>) {
    forall j: nat :: At(l, j) == At(r, j)
  }

  ghost predicate SomewhereLess(l: seq<nat>, r: seq<nat>) {
    exists k: nat :: LessAt(l, r, k)
  }

  /** The comparison is the lexicographic order of the versions padded with zeros without end. */
  lemma {:induction false} CompareFromMeaning(l: seq<nat>, r: seq<nat>, i: nat)
    requires forall j: nat :: j < i ==> At(l, j) == At(r, j)
    ensures CompareFrom(l, r, i) == Less <==> SomewhereLess(l, r)
    ensures CompareFrom(l, r, i) == Greater <==> SomewhereLess(r, l)
    ensures CompareFrom(l, r, i) == Equal <==> SameVersion(l, r)
    decreases |l| + |r| - i
  {
    if i >= |l| && i >= |r| {
      assert SameVersion(l, r);
    } else if At(l, i) < At(r, i) {
      assert LessAt(l, r, i);
      LessOneWay(l, r, i);
    } else if At(l, i) > At(r, i) {
      assert LessAt(r, l, i);
      LessOneWay(r, l, i);
    } else {
      CompareFromMeaning(l, r, i + 1);
    }
  }

  lemma LessOneWay(l: seq<nat>, r: seq<nat>, i: nat)
    requires LessAt(l, r, i)
    ensures !SomewhereLess(r, l) && !SameVersion(l, r)
  {
    forall k: nat
      ensures !LessAt(r, l, k)
    {
      assert k < i ==> At(l, k) == At(r, k);
      assert i < k ==> At(l, i) != At(r, i);
    }
    assert At(l, i) != At(r, i);
  }

  predicate NotNewer(a: string, b: string) {
    Compare(a, b) != Greater
  }

  /** Swapping two versions swaps the answer. */
  lemma CompareSwaps(a: string, b: string)
    ensures Compare(a, a) == Equal
    ensures Compare(a, b) == Less <==> Compare(b, a) == Greater
    ensures NotNewer(a, b) || NotNewer(b, a)
  {
    var x, y := NumericVersion(a), NumericVersion(b);
    CompareFromMeaning(x, x, 0);
    CompareFromMeaning(x, y, 0);
    CompareFromMeaning(y, x, 0);
  }

  lemma LessTrans(a: seq<nat>, b: seq<nat>, c: seq<nat>)
    requires SomewhereLess(a, b) || SameVersion(a, b)
    requires SomewhereLess(b, c) || SameVersion(b, c)
    ensures if SameVersion(a, b) && SameVersion(b, c) then SameVersion(a, c) else SomewhereLess(a, c)
  {
    if SameVersion(a, b) {
      if SomewhereLess(b, c) {
        var j: nat :| LessAt(b, c, j);
        assert LessAt(a, c, j);
      }
    } else {
      var i: nat :| LessAt(a, b, i);
      if SameVersion(b, c) {
        assert LessAt(a, c, i);
      } else {
        var j: nat :| LessAt(b, c, j);
        assert LessAt(a, c, if i < j then i else j);
      }
    }
  }

  /** The order is transitive, also across versions of different lengths. */
  lemma NotNewerTrans(a: string, b: string, c: string)
    requires NotNewer(a, b) && NotNewer(b, c)
    ensures NotNewer(a, c)
    ensures Compare(a, b) == Less || Compare(b, c) == Less ==> Compare(a, c) == Less
  {
    var x, y, z := NumericVersion(a), NumericVersion(b), NumericVersion(c);
    CompareFromMeaning(x, y, 0);
    CompareFromMeaning(y, z, 0);
    CompareFromMeaning(x, z, 0);
    LessTrans(x, y, z);
  }

  // ---------------------------------------------------------------------
  // The newest of a list of offers: a version, and what it comes with.

  type Offer = (string, string)

  /** A later offer wins only if it is strictly newer. */
  function Better(best: Option<Offer>, offer: Offer): Option<Offer> {
    match best
    case None => Some(offer)
    case Some(kept) => if Compare(offer.0, kept.0) == Greater then Some(offer) else best
  }

  function Newest(offers: seq<Offer>): Option<Offer> {
    if offers == [] then None
    else Better(Newest(offers[..|offers| - 1]), offers[|offers| - 1])
  }

  /** The offer at `i` is maximal, and every offer before it is older. */
  ghost predicate FirstMaximum(offers: seq<Offer>, i: nat)
    requires i < |offers|
  {
    && (forall o :: o in offers ==> NotNewer(o.0, offers[i].0))
    && (forall o :: o in offers[..i] ==> Compare(o.0, offers[i].0) == Less)
  }

  /** What is kept is the first of the maximal offers. */
  lemma {:induction false} NewestIsFirstMaximum(offers: seq<Offer>) returns (i: nat)
    requires offers != []
    ensures i < |offers| && Newest(offers) == Some(offers[i]) && FirstMaximum(offers, i)
  {
    var n := |offers| - 1;
    var before, last := offers[..n], offers[n];
    CompareSwaps(last.0, last.0);
    if n == 0 {
      i := 0;
    } else {
      i := NewestIsFirstMaximum(before);
      CompareSwaps(before[i].0, last.0);
      if Compare(last.0, before[i].0) == Greater {
        forall o | o in before
          ensures Compare(o.0, last.0) == Less
        {
          NotNewerTrans(o.0, before[i].0, last.0);
        }
        i := n;
        LastIsMaximum(offers);
      } else {
        assert before[..i] == offers[..i];
        assert forall o :: o in offers ==> o in before || o == last;
      }
    }
  }

  lemma LastIsMaximum(offers: seq<Offer>)
    requires offers != []
    requires forall o :: o in offers[..|offers| - 1] ==> Compare(o.0, offers[|offers| - 1].0) == Less
    ensures FirstMaximum(offers, |offers| - 1)
  {
    var last := offers[|offers| - 1];
    CompareSwaps(last.0, last.0);
    assert forall o :: o in offers ==> o in offers[..|offers| - 1] || o == last;
  }

  /** The version found does not depend on the order in which the offers come. */
  lemma NewestIgnoresOrder(a: seq<Offer>, b: seq<Offer>)
    requires multiset(a) == multiset(b)
    ensures Newest(a).None? <==> Newest(b).None?
    ensures Newest(a).Some? && Newest(b).Some? ==> Compare(Newest(a).value.0, Newest(b).value.0) == Equal
  {
    assert |a| == |multiset(a)| == |multiset(b)| == |b|;
    if a != [] {
      var i := NewestIsFirstMaximum(a);
      var j := NewestIsFirstMaximum(b);
      assert a[i] in multiset(a) && b[j] in multiset(b);
      assert a[i] in b && b[j] in a;
      CompareSwaps(a[i].0, b[j].0);
    }
  }

  // ---------------------------------------------------------------------
  // The newest jar of a directory.

  function JarVersion(name: string, prefix: string): Option<string> {
    match StripPrefix(name, prefix)
    case None => None
    case Some(rest) =>
      if |rest| >= 4 && rest[|rest| - 4..] == ".jar" then Some(rest[..|rest| - 4]) else None
  }

  /** The names of the form prefix, version, `.jar`, each with its version. */
  function Matching(names: seq<string>, prefix: string): seq<Offer> {
    if names == [] then []
    else
      var before := Matching(names[..|names| - 1], prefix);
      var name := names[|names| - 1];
      match JarVersion(name, prefix)
      case None => before
      case Some(version) => before + [(version, name)]
  }

  predicate IsJar(names: seq<string>, prefix: string, jar: Offer) {
    jar.1 in names && jar.1 == prefix + jar.0 + ".jar"
  }

  lemma {:induction false} MatchingMembers(names: seq<string>, prefix: string, jar: Offer)
    ensures jar in Matching(names, prefix) <==> IsJar(names, prefix, jar)
  {
    if names != [] {
      var n := |names| - 1;
      MatchingMembers(names[..n], prefix, jar);
      assert names == names[..n] + [names[n]];
      JarVersionIs(names[n], prefix, jar.0);
    }
  }

  lemma JarVersionIs(name: string, prefix: string, version: string)
    ensures JarVersion(name, prefix) == Some(version) <==> name == prefix + version + ".jar"
  {
    StripPrefixOfConcat(prefix, version + ".jar");
    assert prefix + version + ".jar" == prefix + (version + ".jar");
    if JarVersion(name, prefix) == Some(version) {
      var rest := StripPrefix(name, prefix).value;
      assert rest == version + ".jar";
      assert name == prefix + rest;
    }
  }

  method NewestJar(names: seq<string>, prefix: string) returns (best: Option<Offer>)
    ensures best == Newest(Matching(names, prefix))
  {
    best := None;
    for i := 0 to |names|
      invariant best == Newest(Matching(names[..i], prefix))
    {
      ghost var before := Matching(names[..i], prefix);
      assert names[..i + 1][..i] == names[..i];
      var version := JarVersion(names[i], prefix);
      if version.Some? {
        assert (before + [(version.value, names[i])])[..|before|] == before;
        if best.None? || Compare(version.value, best.value.0) == Greater {
          best := Some((version.value, names[i]));
        }
      }
    }
    assert names[..|names|] == names;
  }

  /** A jar is found whenever the directory has one, and none of its jars is newer, whatever their order. */
  lemma NewestJarIsMaximal(names: seq<string>, prefix: string, best: Option<Offer>)
    requires best == Newest(Matching(names, prefix))
    ensures best.None? ==> forall jar :: !IsJar(names, prefix, jar)
    ensures best.Some? ==> IsJar(names, prefix, best.value)
    ensures best.Some? ==> forall jar :: IsJar(names, prefix, jar) ==> NotNewer(jar.0, best.value.0)
  {
    var offers := Matching(names, prefix);
    forall jar
      ensures IsJar(names, prefix, jar) <==> jar in offers
    {
      MatchingMembers(names, prefix, jar);
    }
    if offers != [] {
      var i := NewestIsFirstMaximum(offers);
      assert best == Some(offers[i]) && offers[i] in offers;
    }
  }

  // ---------------------------------------------------------------------
  // One discovery per id and source.

  datatype Bundle = Bundle(id: string, path: string, version: string, source: string)

  predicate HasKey(b: Bundle, id: string, source: string) {
    b.id == id && b.source == source
  }

  /** The entries after an offer: a newer version replaces its key's entry, an unknown key is added. */
  function Keep(entries: seq<Bundle>, b: Bundle): seq<Bundle> {
    if entries == [] then [b]
    else if HasKey(entries[0], b.id, b.source) then
      [if Compare(b.version, entries[0].version) == Greater then b else entries[0]] + entries[1..]
    else [entries[0]] + Keep(entries[1..], b)
  }

  function KeepAll(offered: seq<Bundle>): seq<Bundle> {
    if offered == [] then [] else Keep(KeepAll(offered[..|offered| - 1]), offered[|offered| - 1])
  }

  /** Every entry of one key, as an offer. */
  function EntriesOf(entries: seq<Bundle>, id: string, source: string): seq<Offer> {
    if entries == [] then []
    else
      var n := |entries| - 1;
      EntriesOf(entries[..n], id, source)
      + if HasKey(entries[n], id, source) then [(entries[n].version, entries[n].path)] else []
  }

  lemma {:induction false} EntriesOfConcat(a: seq<Bundle>, b: seq<Bundle>, id: string, source: string)
    ensures EntriesOf(a + b, id, source) == EntriesOf(a, id, source) + EntriesOf(b, id, source)
    decreases |b|
  {
    if b == [] {
      assert a + b == a;
    } else {
      EntriesOfConcat(a, b[..|b| - 1], id, source);
      assert (a + b)[..|a + b| - 1] == a + b[..|b| - 1];
    }
  }

  function AsList(best: Option<Offer>): seq<Offer> {
    match best
    case None => []
    case Some(offer) => [offer]
  }

  /** One offer improves the only entry of its own key and leaves every other key alone. */
  lemma {:induction false} KeepOnKey(entries: seq<Bundle>, b: Bundle, id: string, source: string, best: Option<Offer>)
    requires EntriesOf(entries, id, source) == AsList(best)
    ensures EntriesOf(Keep(entries, b), id, source)
         == AsList(if HasKey(b, id, source) then Better(best, (b.version, b.path)) else best)
  {
    if entries == [] {
      assert [b][..0] == [];
    } else {
      var first, rest := entries[0], entries[1..];
      assert entries == [first] + rest;
      EntriesOfConcat([first], rest, id, source);
      assert [first][..0] == [];
      if HasKey(first, b.id, b.source) {
        var now := if Compare(b.version, first.version) == Greater then b else first;
        EntriesOfConcat([now], rest, id, source);
        assert [now][..0] == [];
        if HasKey(b, id, source) {
          assert EntriesOf([first], id, source) == [(first.version, first.path)];
          assert EntriesOf(entries, id, source)[0] == (first.version, first.path);
          assert EntriesOf(rest, id, source) == [];
        }
      } else {
        EntriesOfConcat([first], Keep(rest, b), id, source);
        if HasKey(first, id, source) {
          assert EntriesOf(entries, id, source)[0] == (first.version, first.path);
          assert EntriesOf(rest, id, source) == AsList(None);
          KeepOnKey(rest, b, id, source, None);
        } else {
          KeepOnKey(rest, b, id, source, best);
        }
      }
    }
  }

  lemma NewestOfOneMore(offers: seq<Offer>, offer: Offer)
    ensures Newest(offers + [offer]) == Better(Newest(offers), offer)
  {
    assert (offers + [offer])[..|offers|] == offers;
  }

  /** After any run of offers, each key has one entry if it was offered at all: its newest offer. */
  lemma {:induction false} OneNewestPerKey(offered: seq<Bundle>, id: string, source: string)
    ensures EntriesOf(KeepAll(offered), id, source) == AsList(Newest(EntriesOf(offered, id, source)))
  {
    if offered != [] {
      var n := |offered| - 1;
      var before, b := offered[..n], offered[n];
      OneNewestPerKey(before, id, source);
      var best := Newest(EntriesOf(before, id, source));
      KeepOnKey(KeepAll(before), b, id, source, best);
      NewestOfOneMore(EntriesOf(before, id, source), (b.version, b.path));
      assert !HasKey(b, id, source) ==> EntriesOf(offered, id, source) == EntriesOf(before, id, source);
    }
  }

  lemma {:induction false} KeepAt(entries: seq<Bundle>, b: Bundle, i: nat)
    requires i <= |entries|
    requires forall j :: 0 <= j < i ==> !HasKey(entries[j], b.id, b.source)
    ensures i == |entries| ==> Keep(entries, b) == entries + [b]
    ensures i < |entries| && HasKey(entries[i], b.id, b.source) ==>
            Keep(entries, b) == if Compare(b.version, entries[i].version) == Greater then entries[i := b] else entries
  {
    if i > 0 {
      assert entries == [entries[0]] + entries[1..];
      KeepAt(entries[1..], b, i - 1);
    }
  }

  class Discoveries {
    var out: seq<Bundle>

    constructor ()
      ensures out == KeepAll([])
    {
      out := [];
    }

    method Push(b: Bundle)
      modifies this
      ensures out == Keep(old(out), b)
    {
      var i := 0;
      while i < |out| && !HasKey(out[i], b.id, b.source)
        invariant 0 <= i <= |out|
        invariant forall j :: 0 <= j < i ==> !HasKey(out[j], b.id, b.source)
      {
        i := i + 1;
      }
      KeepAt(out, b, i);
      if i < |out| {
        if Compare(b.version, out[i].version) == Greater {
          out := out[i := out[i].(version := b.version, path := b.path)];
        }
      } else {
        out := out + [b];
      }
    }
  }
}
