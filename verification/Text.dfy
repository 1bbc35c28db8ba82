/** The string operations of the Rust standard library that the modelled code relies on. */
module Text {
  import opened Wrappers

  type byte = n: int | 0 <= n < 256

  /** The Unicode `White_Space` property, which is what `str::trim` removes. */
  predicate IsSpace(c: char) {
    var n := c as int;
    || 0x09 <= n <= 0x0D || n == 0x20 || n == 0x85 || n == 0xA0 || n == 0x1680
    || 0x2000 <= n <= 0x200A || n == 0x2028 || n == 0x2029 || n == 0x202F
    || n == 0x205F || n == 0x3000
  }

  function TrimStart(s: string): string {
    if s != [] && IsSpace(s[0]) then TrimStart(s[1..]) else s
  }

  function TrimEnd(s: string): string {
    if s != [] && IsSpace(s[|s| - 1]) then TrimEnd(s[..|s| - 1]) else s
  }

  function Trim(s: string): string {
    TrimEnd(TrimStart(s))
  }

  /** No white space at either end: such a string is its own trimmed form. */
  predicate Trimmed(s: string) {
    s != [] ==> !IsSpace(s[0]) && !IsSpace(s[|s| - 1])
  }

  lemma TrimStartIsSuffix(s: string)
    ensures |TrimStart(s)| <= |s| && TrimStart(s) == s[|s| - |TrimStart(s)|..]
    ensures TrimStart(s) != [] ==> !IsSpace(TrimStart(s)[0])
  {
    if s != [] && IsSpace(s[0]) {
      TrimStartIsSuffix(s[1..]);
    }
  }

  lemma TrimEndIsPrefix(s: string)
    ensures |TrimEnd(s)| <= |s| && TrimEnd(s) == s[..|TrimEnd(s)|]
    ensures TrimEnd(s) != [] ==> !IsSpace(TrimEnd(s)[|TrimEnd(s)| - 1])
  {
    if s != [] && IsSpace(s[|s| - 1]) {
      TrimEndIsPrefix(s[..|s| - 1]);
    }
  }

  /** Trimming leaves no white space at either end. */
  lemma TrimIsTrimmed(s: string)
    ensures Trimmed(Trim(s))
  {
    TrimStartIsSuffix(s);
    TrimEndIsPrefix(TrimStart(s));
  }

  /** Trimming is the identity exactly on strings without outer white space. */
  lemma TrimFixpoint(s: string)
    ensures Trim(s) == s <==> Trimmed(s)
  {
    TrimStartIsSuffix(s);
    TrimEndIsPrefix(TrimStart(s));
    if s != [] && IsSpace(s[0]) {
      TrimStartIsSuffix(s[1..]);
    }
  }

  predicate StartsWith<T(==)>(s: seq<T>, prefix: seq<T>) {
    |prefix| <= |s| && s[..|prefix|] == prefix
  }

  function StripPrefix<T(==)>(s: seq<T>, prefix: seq<T>): (r: Option<seq<T>>)
    ensures r.Some? ==> s == prefix + r.value
    ensures r.None? ==> !StartsWith(s, prefix)
  {
    if StartsWith(s, prefix) then Some(s[|prefix|..]) else None
  }

  lemma StripPrefixOfConcat<T>(prefix: seq<T>, rest: seq<T>)
    ensures StripPrefix(prefix + rest, prefix) == Some(rest)
  {
    assert (prefix + rest)[..|prefix|] == prefix;
  }

  function LowerChar(c: char): (r: char)
    ensures !('A' <= r <= 'Z')
    ensures r == c || r as int - c as int == 'a' as int - 'A' as int
  {
    if 'A' <= c <= 'Z' then (c as int + 32) as char else c
  }

  predicate EqualIgnoringCase(a: string, b: string) {
    |a| == |b| && forall i :: 0 <= i < |a| ==> LowerChar(a[i]) == LowerChar(b[i])
  }

  lemma SuffixMembers<T>(s: seq<T>, k: nat)
    requires k <= |s|
    ensures forall x :: x in s[k..] ==> x in s
  {
    forall x | x in s[k..] ensures x in s {
      var i :| 0 <= i < |s[k..]| && s[k..][i] == x;
      assert s[k + i] == x;
    }
  }

  predicate OccursAt<T(==)>(hay: seq<T>, needle: seq<T>, at: int) {
    0 <= at && at + |needle| <= |hay| && hay[at..at + |needle|] == needle
  }

  /** The leftmost occurrence of `needle` at or after `from`. */
  function FindFrom<T(==)>(hay: seq<T>, needle: seq<T>, from: nat): (r: Option<nat>)
    decreases |hay| - from
    ensures r.Some? ==> from <= r.value && OccursAt(hay, needle, r.value)
    ensures r.Some? ==> forall j :: from <= j < r.value ==> !OccursAt(hay, needle, j)
    ensures r.None? ==> forall j :: from <= j ==> !OccursAt(hay, needle, j)
  {
    if from + |needle| > |hay| then None
    else if OccursAt(hay, needle, from) then Some(from)
    else FindFrom(hay, needle, from + 1)
  }

  function Find<T(==)>(hay: seq<T>, needle: seq<T>): (r: Option<nat>)
    ensures r.Some? ==> OccursAt(hay, needle, r.value)
    ensures r.Some? ==> forall j :: 0 <= j < r.value ==> !OccursAt(hay, needle, j)
    ensures r.None? ==> forall j :: !OccursAt(hay, needle, j)
  {
    FindFrom(hay, needle, 0)
  }

  predicate Contains<T(==)>(hay: seq<T>, needle: seq<T>) {
    Find(hay, needle).Some?
  }

  lemma ContainsOccurrence<T>(hay: seq<T>, needle: seq<T>)
    ensures Contains(hay, needle) <==> exists j :: OccursAt(hay, needle, j)
  {
  }

  /** An occurrence next to a separator that the needle does not hold lies wholly on one side. */
  lemma OccurrenceSides<T>(a: seq<T>, separator: T, b: seq<T>, needle: seq<T>, j: nat)
    requires needle != [] && separator !in needle
    ensures OccursAt(a + [separator] + b, needle, j) <==>
            OccursAt(a, needle, j) || OccursAt(b, needle, j - |a| - 1)
  {
    var hay, n := a + [separator] + b, |needle|;
    if j + n <= |a| {
      assert hay[j..j + n] == a[j..j + n];
    } else if j + n <= |hay| {
      if |a| < j {
        assert hay[j..j + n] == b[j - |a| - 1..j - |a| - 1 + n];
      } else {
        assert hay[j..j + n][|a| - j] == separator;
      }
    }
  }

  /** A needle without the separator lies on one side of it. */
  lemma SeparatorSplits<T>(a: seq<T>, separator: T, b: seq<T>, needle: seq<T>)
    requires needle != [] && separator !in needle
    ensures Contains(a + [separator] + b, needle) <==> Contains(a, needle) || Contains(b, needle)
  {
    hide Find;
    var hay := a + [separator] + b;
    ContainsOccurrence(hay, needle);
    ContainsOccurrence(a, needle);
    ContainsOccurrence(b, needle);
    forall j: nat
      ensures OccursAt(hay, needle, j) <==> OccursAt(a, needle, j) || OccursAt(b, needle, j - |a| - 1)
    {
      OccurrenceSides(a, separator, b, needle, j);
    }
    if j :| OccursAt(b, needle, j) {
      var k: nat := j + |a| + 1;
      assert OccursAt(b, needle, k - |a| - 1);
      assert OccursAt(hay, needle, k);
    }
  }

  /** A character that the needle does not start with makes no difference in front. */
  lemma FrontIsIgnored<T>(c: T, s: seq<T>, needle: seq<T>)
    requires needle != [] && needle[0] != c
    ensures Contains([c] + s, needle) <==> Contains(s, needle)
  {
    ContainsOccurrence([c] + s, needle);
    ContainsOccurrence(s, needle);
    if j :| OccursAt([c] + s, needle, j) {
      assert ([c] + s)[j..j + |needle|][0] == needle[0];
      assert j > 0;
      assert ([c] + s)[j..j + |needle|] == s[j - 1..j - 1 + |needle|];
      assert OccursAt(s, needle, j - 1);
    }
    if j :| OccursAt(s, needle, j) {
      assert ([c] + s)[j + 1..j + 1 + |needle|] == s[j..j + |needle|];
      assert OccursAt([c] + s, needle, j + 1);
    }
  }

  lemma SliceOfSlice<T>(s: seq<T>, from: nat, to: nat, a: nat, b: nat)
    requires from <= to <= |s| && a <= b <= to - from
    ensures s[from..to][a..b] == s[from + a..from + b]
  {
    var left, right := s[from..to][a..b], s[from + a..from + b];
    assert |left| == |right|;
    forall i | 0 <= i < |left|
      ensures left[i] == right[i]
    {
      assert left[i] == s[from..to][a + i] == s[from + a + i];
    }
  }

  /** What a part of a text contains, the text contains. */
  lemma PartContains<T>(s: seq<T>, from: nat, to: nat, needle: seq<T>)
    requires from <= to <= |s|
    ensures Contains(s[from..to], needle) ==> Contains(s, needle)
  {
    hide Find;
    ContainsOccurrence(s, needle);
    ContainsOccurrence(s[from..to], needle);
    if j: nat :| OccursAt(s[from..to], needle, j) {
      SliceOfSlice(s, from, to, j, j + |needle|);
      assert OccursAt(s, needle, from + j);
    }
  }

  lemma ShortTextContainsNothing<T>(s: seq<T>, needle: seq<T>)
    requires |s| < |needle|
    ensures !Contains(s, needle)
  {
    ContainsOccurrence(s, needle);
  }

  /** An occurrence that nothing precedes is the one `Find` reports. */
  lemma FindIs<T>(hay: seq<T>, needle: seq<T>, at: nat)
    requires OccursAt(hay, needle, at)
    requires forall j :: 0 <= j < at ==> !OccursAt(hay, needle, j)
    ensures Find(hay, needle) == Some(at)
  {
    var r := Find(hay, needle);
    if r.Some? && r.value < at { assert false; }
  }

  /** What stands between two versions, or between two paths. */
  const ARROW: string := " -> "

  /** The arrow first occurs right after a trimmed text that, followed by a blank, is free of it. */
  lemma FirstArrow(left: string, right: string)
    requires left != "" && Trimmed(left) && !Contains(left + " ", ARROW)
    ensures Find(left + ARROW + right, ARROW) == Some(|left|)
  {
    var text, front := left + ARROW + right, left + " ";
    assert text[|left|..|left| + 4] == ARROW;
    assert text[..|front|] == front;
    forall j | 0 <= j < |left|
      ensures !OccursAt(text, ARROW, j)
    {
      if j + 4 <= |front| {
        assert !OccursAt(front, ARROW, j);
        assert text[j..j + 4] == front[j..j + 4];
      } else {
        // The arrow's blanks would meet the last character of `left` or the arrow's own dash.
        var at := if j == |left| - 2 then 2 else 0;
        assert text[j + at] == if at == 2 then ' ' else left[|left| - 1];
        assert text[j..j + 4][at] == text[j + at];
      }
    }
    FindIs(text, ARROW, |left|);
  }

  /** The pieces of `s` between occurrences of the separator; always at least one. */
  function Split(s: string, separator: char): (pieces: seq<string>)
    ensures |pieces| >= 1
  {
    if s == [] then [""]
    else
      var rest := Split(s[1..], separator);
      if s[0] == separator then [""] + rest
      else [[s[0]] + rest[0]] + rest[1..]
  }

  function Join(pieces: seq<string>, separator: string): string {
    if pieces == [] then ""
    else if |pieces| == 1 then pieces[0]
    else pieces[0] + separator + Join(pieces[1..], separator)
  }

  /** Splitting undoes joining when no piece contains the separator. */
  lemma {:induction false} SplitOfJoin(pieces: seq<string>, separator: char)
    requires pieces != []
    requires forall p :: p in pieces ==> separator !in p
    ensures Split(Join(pieces, [separator]), separator) == pieces
    decreases |pieces|, |pieces[0]|
  {
    var first := pieces[0];
    var joined := Join(pieces, [separator]);
    if first == [] {
      if |pieces| > 1 {
        assert joined == [separator] + Join(pieces[1..], [separator]);
        assert joined[1..] == Join(pieces[1..], [separator]);
        SplitOfJoin(pieces[1..], separator);
      }
    } else {
      var shorter := [first[1..]] + pieces[1..];
      forall p | p in shorter ensures separator !in p {
        if p == first[1..] { assert first in pieces; }
      }
      SplitOfJoin(shorter, separator);
      assert shorter[1..] == pieces[1..];
      assert joined == [first[0]] + Join(shorter, [separator]) by {
        assert first == [first[0]] + first[1..];
      }
      assert joined[1..] == Join(shorter, [separator]);
      assert first in pieces && joined[0] == first[0];
      assert Split(joined, separator) == [[first[0]] + shorter[0]] + shorter[1..];
      assert [first[0]] + shorter[0] == first;
      assert pieces == [first] + pieces[1..];
    }
  }

  /** The decimal numeral of a number, without leading zeros. */
  function Decimal(n: nat): (digits: string)
    ensures digits != [] && forall c :: c in digits ==> '0' <= c <= '9'
  {
    var last := [('0' as int + n % 10) as char];
    if n < 10 then last else Decimal(n / 10) + last
  }

  predicate AllDigits(s: string) {
    forall c :: c in s ==> '0' <= c <= '9'
  }

  function DigitsValue(s: string): nat {
    if s == "" then 0
    else
      var last := s[|s| - 1];
      DigitsValue(s[..|s| - 1]) * 10 + if '0' <= last <= '9' then last as int - '0' as int else 0
  }

  lemma {:induction false} DecimalValue(n: nat)
    ensures AllDigits(Decimal(n)) && DigitsValue(Decimal(n)) == n
  {
    var last := [('0' as int + n % 10) as char];
    if n < 10 {
      assert Decimal(n) == last && last[..0] == "";
    } else {
      DecimalValue(n / 10);
      assert Decimal(n)[..|Decimal(n)| - 1] == Decimal(n / 10);
    }
  }
}
