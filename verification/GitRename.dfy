/** The two paths of a rename in git's status. */
module GitRename {
  import opened Wrappers
  import opened Text
  import opened Unicode
  import opened GitPath

  /** A path as the short status or the other listings print it. */
  function Printed(path: string, quotePath: bool, short: bool): string {
    if short then ShortQuote(path, quotePath) else GitQuote(path, quotePath)
  }

  /** The path needs no escape but those for quotes and backslashes, and no outer white space is bare. */
  predicate Readable(path: string, quotePath: bool, short: bool) {
    && OnlyQuotesAndBackslashes(path, quotePath)
    && (Trimmed(path) || if short then Quoted(path, quotePath) else NeedsQuotes(path, quotePath))
  }

  lemma ReadableExactly(path: string, quotePath: bool, short: bool)
    ensures Unquote(Printed(path, quotePath, short)) == path <==> Readable(path, quotePath, short)
    ensures Readable(path, quotePath, short) ==> Trimmed(Printed(path, quotePath, short))
  {
    hide Unquote, Trim, GitQuote, ShortQuote;
    QuoteThenUnquote(path, quotePath);
    ShortQuoteThenUnquote(path, quotePath);
    TrimOfPrinted(path, quotePath, Printed(path, quotePath, short));
    TrimFixpoint(Printed(path, quotePath, short));
  }

  // ---------------------------------------------------------------------
  // Quoting neither makes nor breaks an arrow.

  lemma ContainsStep(s: string, needle: string)
    requires s != ""
    ensures Contains(s, needle) <==> StartsWith(s, needle) || Contains(s[1..], needle)
  {
    hide Find;
    ContainsOccurrence(s, needle);
    ContainsOccurrence(s[1..], needle);
    if j :| OccursAt(s, needle, j) {
      assert j > 0 ==> OccursAt(s[1..], needle, j - 1);
      assert j == 0 ==> StartsWith(s, needle);
    }
    if j :| OccursAt(s[1..], needle, j) {
      assert OccursAt(s, needle, j + 1);
    }
    assert StartsWith(s, needle) ==> OccursAt(s, needle, 0);
  }

  lemma {:induction false} FrontPartIsIgnored(front: string, s: string, needle: string)
    requires needle != "" && needle[0] !in front
    ensures Contains(front + s, needle) <==> Contains(s, needle)
  {
    hide Find;
    if front == "" {
      assert front + s == s;
    } else {
      FrontPartIsIgnored(front[1..], s, needle);
      FrontIsIgnored(front[0], front[1..] + s, needle);
      assert front + s == [front[0]] + (front[1..] + s);
    }
  }

  predicate Plain(c: char, quotePath: bool) {
    c != QUOTE && c != BACKSLASH && !OtherEscape(c, quotePath)
  }

  lemma StartsWithStep(c: char, rest: string, word: string)
    requires word != ""
    ensures StartsWith([c] + rest, word) <==> c == word[0] && StartsWith(rest, word[1..])
  {
    assert word == [word[0]] + word[1..];
    if c == word[0] && StartsWith(rest, word[1..]) {
      assert ([c] + rest)[..|word|] == [c] + rest[..|word| - 1];
    }
    if StartsWith([c] + rest, word) {
      assert ([c] + rest)[..|word|][1..] == rest[..|word| - 1];
    }
  }

  lemma {:induction false} EscapeStart(path: string, word: string, quotePath: bool)
    requires BACKSLASH !in word && forall c :: c in word ==> Plain(c, quotePath)
    ensures StartsWith(EscapeAll(path, quotePath), word) <==> StartsWith(path, word)
    decreases word
  {
    if word != "" && path != "" {
      hide EscapeAll, StartsWith, Escape, Plain;
      assert word[0] in word;
      EscapeShape(path[0], quotePath);
      var escaped, more := Escape(path[0], quotePath), EscapeAll(path[1..], quotePath);
      EscapeUnfolds(path, quotePath);
      assert path == [path[0]] + path[1..] && escaped + more == [escaped[0]] + (escaped[1..] + more);
      StartsWithStep(path[0], path[1..], word);
      StartsWithStep(escaped[0], escaped[1..] + more, word);
      if Plain(path[0], quotePath) {
        assert escaped[1..] + more == more;
        EscapeStart(path[1..], word[1..], quotePath);
      }
    }
  }

  lemma EscapeUnfolds(path: string, quotePath: bool)
    requires path != ""
    ensures EscapeAll(path, quotePath) == Escape(path[0], quotePath) + EscapeAll(path[1..], quotePath)
  {
  }

  lemma {:induction false} OctalHasNoBlank(bytes: seq<byte>)
    ensures ' ' !in OctalAll(bytes)
    ensures bytes != [] ==> OctalAll(bytes) != "" && OctalAll(bytes)[0] == BACKSLASH
  {
    if bytes != [] { OctalHasNoBlank(bytes[1..]); }
  }

  /** A plain character stands for itself; every escape starts with a backslash and holds no blank. */
  lemma EscapeShape(c: char, quotePath: bool)
    ensures var escaped := Escape(c, quotePath);
      && escaped != ""
      && if Plain(c, quotePath) then escaped == [c] else escaped[0] == BACKSLASH && ' ' !in escaped
  {
    OctalHasNoBlank(EncodeChar8(c));
  }

  lemma ArrowIsPlain(quotePath: bool)
    ensures BACKSLASH !in ARROW && forall c :: c in ARROW ==> Plain(c, quotePath)
  {
  }

  lemma {:induction false} EscapeKeepsArrow(path: string, quotePath: bool)
    ensures Contains(EscapeAll(path, quotePath), ARROW) <==> Contains(path, ARROW)
  {
    if path != "" {
      hide Find, Contains, StartsWith, Escape, EscapeAll;
      var escaped, more := Escape(path[0], quotePath), EscapeAll(path[1..], quotePath);
      EscapeKeepsArrow(path[1..], quotePath);
      EscapeUnfolds(path, quotePath);
      EscapeShape(path[0], quotePath);
      ArrowIsPlain(quotePath);
      EscapeStart(path, ARROW, quotePath);
      assert path == [path[0]] + path[1..];
      if Plain(path[0], quotePath) {
        ContainsStep(path, ARROW);
        ContainsStep(escaped + more, ARROW);
        assert (escaped + more)[1..] == more;
      } else {
        assert ARROW[0] in ARROW;
        FrontIsIgnored(path[0], path[1..], ARROW);
        FrontPartIsIgnored(escaped, more, ARROW);
      }
    }
  }

  /** What is printed holds an arrow exactly if the path does. */
  lemma PrintedKeepsArrow(path: string, quotePath: bool, short: bool)
    ensures Contains(Printed(path, quotePath, short), ARROW) <==> Contains(path, ARROW)
  {
    hide Find, Contains, EscapeAll;
    EscapeKeepsArrow(path, quotePath);
    QuotesAddNoArrow(EscapeAll(path, quotePath));
    QuotesAddNoArrow(path);
  }

  lemma QuotesAddNoArrow(s: string)
    ensures Contains([QUOTE] + s + [QUOTE], ARROW) <==> Contains(s, ARROW)
  {
    hide Find, Contains;
    FrontIsIgnored(QUOTE, s, ARROW);
    SeparatorSplits([QUOTE] + s, QUOTE, "", ARROW);
    ShortTextContainsNothing("", ARROW);
    assert [QUOTE] + s + [QUOTE] + "" == [QUOTE] + s + [QUOTE];
  }

  lemma {:induction false} UnescapeStart(s: string, word: string)
    requires QUOTE !in word && BACKSLASH !in word
    ensures StartsWith(Unescape(s), word) <==> StartsWith(s, word)
    ensures |Unescape(s)| <= |s|
    decreases |s|
  {
    if s != "" {
      UnescapeStart(s[1..], "");
      if |s| >= 2 { UnescapeStart(s[2..], ""); }
      if word != "" {
        assert s == [s[0]] + s[1..] && word[0] in word;
        UnescapeStart(s[1..], word[1..]);
        StartsWithStep(s[0], s[1..], word);
        StartsWithStep(Unescape(s)[0], Unescape(s)[1..], word);
        assert Unescape(s) == [Unescape(s)[0]] + Unescape(s)[1..];
      }
    }
  }

  lemma {:induction false} UnescapeKeepsArrow(s: string)
    ensures Contains(Unescape(s), ARROW) <==> Contains(s, ARROW)
    decreases |s|
  {
    if s != "" {
      hide Find, Contains, StartsWith;
      assert s == [s[0]] + s[1..];
      if |s| >= 2 && s[0] == BACKSLASH && (s[1] == QUOTE || s[1] == BACKSLASH) {
        UnescapeKeepsArrow(s[2..]);
        FrontIsIgnored(s[0], s[1..], ARROW);
        FrontIsIgnored(s[1], s[2..], ARROW);
        FrontIsIgnored(s[1], Unescape(s[2..]), ARROW);
        assert s[1..] == [s[1]] + s[2..];
      } else {
        UnescapeKeepsArrow(s[1..]);
        UnescapeStart(s, ARROW);
        ContainsStep(s, ARROW);
        ContainsStep(Unescape(s), ARROW);
        assert Unescape(s)[1..] == Unescape(s[1..]);
      }
    }
  }

  /** Unquoting makes no arrow and nothing longer. */
  lemma UnquoteShrinks(value: string)
    ensures Contains(Unquote(value), ARROW) ==> Contains(value, ARROW)
    ensures |Unquote(value)| <= |value|
  {
    hide Find, Contains, TwoPasses, Unescape;
    var trimmed := Trim(value);
    TrimIsPart(value);
    if |trimmed| >= 2 && trimmed[0] == QUOTE && trimmed[|trimmed| - 1] == QUOTE {
      var inner := trimmed[1..|trimmed| - 1];
      TwoPassesAreOne(inner);
      UnescapeKeepsArrow(inner);
      UnescapeStart(inner, "");
      PartContains(trimmed, 1, |trimmed| - 1, ARROW);
    }
  }

  lemma TrimIsPart(s: string)
    ensures |Trim(s)| <= |s| && (Contains(Trim(s), ARROW) ==> Contains(s, ARROW))
  {
    hide Find, Contains;
    var left := TrimStart(s);
    TrimStartIsSuffix(s);
    TrimEndIsPrefix(left);
    PartContains(s, |s| - |left|, |s|, ARROW);
    PartContains(left, 0, |Trim(s)|, ARROW);
    assert s[|s| - |left|..|s|] == left;
  }

  // ---------------------------------------------------------------------
  // Trimming the line.

  lemma {:induction false} TrimStartAppend(x: string, y: string)
    ensures TrimStart(x + y) == if TrimStart(x) == "" then TrimStart(y) else TrimStart(x) + y
    ensures TrimStart(x) == "" <==> forall c :: c in x ==> IsSpace(c)
  {
    if x == "" {
      assert x + y == y;
    } else {
      TrimStartAppend(x[1..], y);
      assert (x + y)[1..] == x[1..] + y && x == [x[0]] + x[1..];
    }
  }

  lemma {:induction false} TrimEndAppend(x: string, y: string)
    ensures TrimEnd(x + y) == if TrimEnd(y) == "" then TrimEnd(x) else x + TrimEnd(y)
    ensures TrimEnd(y) == "" <==> forall c :: c in y ==> IsSpace(c)
    decreases |y|
  {
    if y == "" {
      assert x + y == x;
    } else {
      var front := y[..|y| - 1];
      TrimEndAppend(x, front);
      assert (x + y)[..|x + y| - 1] == x + front && y == front + [y[|y| - 1]];
    }
  }

  lemma TrimOfHalfTrimmed(s: string)
    ensures Trim(TrimStart(s)) == Trim(s) && Trim(TrimEnd(s)) == Trim(s)
    ensures TrimStart(s) == "" <==> TrimEnd(s) == ""
    ensures TrimEnd(s) == "" ==> Trim(s) == ""
  {
    hide TrimStart, TrimEnd, Trim, IsSpace;
    var left, right := TrimStart(s), TrimEnd(s);
    TrimEndIsPrefix(s);
    TrimStartAppend(s, "");
    TrimEndAppend("", s);
    assert s + "" == s && "" + s == s;
    TrimStartTwice(s);
    var blanks := s[|right|..];
    assert s == right + blanks;
    TrimOfTrimEnd(right, blanks);
    TrimOfNothing(s);
  }

  lemma TrimOfNothing(s: string)
    ensures TrimStart(s) == "" ==> Trim(s) == ""
  {
  }

  lemma TrimStartTwice(s: string)
    ensures Trim(TrimStart(s)) == Trim(s)
  {
    TrimStartIsSuffix(s);
    assert TrimStart(TrimStart(s)) == TrimStart(s);
  }

  /** `Unquote` trims first, so white space at one end makes no difference. */
  lemma UnquoteOfHalfTrimmed(s: string)
    ensures Unquote(TrimStart(s)) == Unquote(s) && Unquote(TrimEnd(s)) == Unquote(s)
  {
    hide Trim, TrimStart, TrimEnd, TwoPasses;
    TrimOfHalfTrimmed(s);
  }

  lemma TrimOfTrimEnd(right: string, blanks: string)
    requires TrimEnd(right + blanks) == right
    ensures Trim(right + blanks) == Trim(right)
  {
    TrimEndIsPrefix(right + blanks);
    TrimStartAppend(right, blanks);
    TrimEndAppend(right, blanks);
    TrimEndAppend(TrimStart(right), blanks);
    TrimStartAppend(blanks, "");
    assert blanks + "" == blanks;
  }

  lemma ArrowIsTrimmed(b: string)
    ensures TrimStart(ARROW + b) == "-> " + b
    ensures TrimEnd(ARROW) == " ->" && TrimEnd("-> ") == "->"
  {
    assert (ARROW + b)[1..] == "-> " + b;
    assert ARROW[..3] == " ->" && "-> "[..2] == "->";
  }

  /** What is left of a rename line once it is trimmed. */
  lemma TrimOfLine(a: string, b: string)
    ensures var left, right := TrimStart(a), TrimEnd(b);
      Trim(a + ARROW + b) ==
        if left == "" then (if right == "" then "->" else "-> " + right)
        else if right == "" then left + " ->"
        else left + ARROW + right
  {
    hide TrimStart, TrimEnd;
    var left, right := TrimStart(a), TrimEnd(b);
    assert a + ARROW + b == a + (ARROW + b);
    TrimStartAppend(a, ARROW + b);
    ArrowIsTrimmed(b);
    if left == "" {
      TrimEndAppend("-> ", b);
    } else {
      assert left + (ARROW + b) == left + ARROW + b;
      TrimEndAppend(left + ARROW, b);
      TrimEndAppend(left, ARROW);
    }
  }

  // ---------------------------------------------------------------------
  // Where a rename line is split.

  ghost predicate FirstOccurrence(hay: string, needle: string, at: nat) {
    OccursAt(hay, needle, at) && forall j :: 0 <= j < at ==> !OccursAt(hay, needle, j)
  }

  /** Split within its old path, a line gives another old path. */
  lemma EarlyArrow(path: string, quotePath: bool, short: bool, left: string, i: nat)
    requires left == TrimStart(Printed(path, quotePath, short)) && i < |left|
    requires FirstOccurrence(left + " ->", ARROW, i)
    ensures Unquote(left[..i]) != path
  {
    hide Unquote, Find, Contains, GitQuote, ShortQuote;
    var a := Printed(path, quotePath, short);
    TrimStartIsSuffix(a);
    UnquoteShrinks(left[..i]);
    if i + 4 <= |left| {
      assert (left + " ->")[i..i + 4] == left[i..i + 4];
      assert OccursAt(left, ARROW, i);
      ContainsOccurrence(left, ARROW);
      assert a[|a| - |left|..|a|] == left;
      PartContains(a, |a| - |left|, |a|, ARROW);
      PrintedKeepsArrow(path, quotePath, short);
      NothingBefore(left, " ->", i);
    } else {
      assert (left + " ->")[i..i + 4][|left| - 1 - i] == left[|left| - 1] != QUOTE;
      BareIsPath(path, quotePath, short);
    }
  }

  lemma NothingBefore(left: string, more: string, i: nat)
    requires i <= |left| && forall j :: 0 <= j < i ==> !OccursAt(left + more, ARROW, j)
    ensures !Contains(left[..i], ARROW)
  {
    hide Find;
    ContainsOccurrence(left[..i], ARROW);
    forall j: nat
      ensures !OccursAt(left[..i], ARROW, j)
    {
      if j + 4 <= i {
        SliceOfSlice(left, 0, i, j, j + 4);
        assert left[j..j + 4] == (left + more)[j..j + 4] && !OccursAt(left + more, ARROW, j);
      }
    }
  }

  lemma BareIsPath(path: string, quotePath: bool, short: bool)
    ensures var a := Printed(path, quotePath, short);
      a == path || (|a| >= 2 && a[0] == a[|a| - 1] == QUOTE && TrimStart(a) == a)
  {
    hide NeedsQuotes;
  }

  /** A line is split at the end of the old path, unless an arrow starts in it. */
  lemma SplitOfLine(a: string, b: string)
    requires TrimStart(a) != "" && TrimEnd(b) != ""
    ensures var left, right := TrimStart(a), TrimEnd(b);
      var rest := left + ARROW + right;
      && Trim(a + ARROW + b) == rest
      && exists i: nat :: i <= |left| && FirstOccurrence(rest, ARROW, i) && Find(rest, ARROW) == Some(i)
  {
    var left, right := TrimStart(a), TrimEnd(b);
    var rest := left + ARROW + right;
    TrimOfLine(a, b);
    assert rest[|left|..|left| + 4] == ARROW;
    assert OccursAt(rest, ARROW, |left|);
    var i: nat := Find(rest, ARROW).value;
    assert FirstOccurrence(rest, ARROW, i);
  }

  lemma WithinFront(left: string, right: string, i: nat)
    requires i < |left| && FirstOccurrence(left + ARROW + right, ARROW, i)
    ensures FirstOccurrence(left + " ->", ARROW, i)
    ensures Trimmed(left) ==> Contains(left + " ", ARROW)
  {
    var rest, front := left + ARROW + right, left + " ->";
    assert rest[..|front|] == front;
    forall j | 0 <= j <= i
      ensures OccursAt(rest, ARROW, j) <==> OccursAt(front, ARROW, j)
    {
      assert rest[j..j + 4] == front[j..j + 4];
    }
    assert front[i] == front[i..i + 4][0] == ' ' && front[i + 2] == front[i..i + 4][2] == '>';
    if Trimmed(left) {
      assert i + 4 <= |left| + 1;
      assert (left + " ")[i..i + 4] == front[i..i + 4];
      assert OccursAt(left + " ", ARROW, i);
    }
  }

  lemma NoArrowInFront(left: string, right: string)
    requires FirstOccurrence(left + ARROW + right, ARROW, |left|)
    ensures !Contains(left + " ", ARROW)
  {
    hide Find;
    var rest, front := left + ARROW + right, left + " ";
    assert rest[..|front|] == front;
    ContainsOccurrence(front, ARROW);
    forall j: nat
      ensures !OccursAt(front, ARROW, j)
    {
      if j + 4 <= |front| {
        SliceOfSlice(rest, 0, |front|, j, j + 4);
        assert !OccursAt(rest, ARROW, j);
      }
    }
  }

  lemma UnquoteKeepsDash(value: string)
    requires value != "" && value[0] == '-'
    ensures Unquote(value) != "" && Unquote(value)[0] == '-'
  {
    assert TrimStart(value) == value;
    TrimEndIsPrefix(value);
    TrimEndAppend("", value);
    assert "" + value == value && value[0] in value;
  }

  lemma BlankIsNotReadable(path: string, quotePath: bool, short: bool)
    requires path != "" && Trim(Printed(path, quotePath, short)) == ""
    ensures !Readable(path, quotePath, short)
  {
    hide Trim, GitQuote, ShortQuote;
    ReadableExactly(path, quotePath, short);
  }

  /** A path that is all white space and bare is lost, and so is the line. */
  lemma BlankSide(from: string, to: string, quotePath: bool, short: bool)
    requires from != "" && to != ""
    requires TrimStart(Printed(from, quotePath, short)) == "" || TrimEnd(Printed(to, quotePath, short)) == ""
    ensures StatusPaths(Printed(from, quotePath, short) + ARROW + Printed(to, quotePath, short)) != (Some(from), to)
    ensures !(Readable(from, quotePath, short) && Readable(to, quotePath, short))
  {
    hide Unquote, Find, Contains, GitQuote, ShortQuote, Readable, Trim;
    var a, b := Printed(from, quotePath, short), Printed(to, quotePath, short);
    var left := TrimStart(a);
    TrimOfHalfTrimmed(a);
    TrimOfHalfTrimmed(b);
    TrimOfLine(a, b);
    var rest := Trim(a + ARROW + b);
    var split := Find(rest, ARROW);
    if split.Some? {
      var i: nat := split.value;
      assert OccursAt(rest, ARROW, i) && rest[i..i + 4][0] == rest[i];
    }
    if left == "" {
      BlankIsNotReadable(from, quotePath, short);
      TrimStartAppend(a, "");
      assert a + "" == a;
      BareIsPath(from, quotePath, short);
      assert from[0] in from && rest[0] == '-';
      if split.Some? { UnquoteKeepsDash(rest[..split.value]); }
    } else {
      BlankIsNotReadable(to, quotePath, short);
      if split.Some? {
        assert rest[..split.value] == left[..split.value];
        EarlyArrow(from, quotePath, short, left, split.value);
      }
    }
  }

  /**
   * Printed as a rename, two paths are read back exactly if each is read back alone and no arrow starts
   * in what was printed of the old one.
   */
  lemma RenameReadsBack(from: string, to: string, quotePath: bool, short: bool)
    requires from != "" && to != ""
    ensures var a, b := Printed(from, quotePath, short), Printed(to, quotePath, short);
      StatusPaths(a + ARROW + b) == (Some(from), to) <==>
        Readable(from, quotePath, short) && Readable(to, quotePath, short) && !Contains(a + " ", ARROW)
  {
    hide Unquote, Find, Contains, GitQuote, ShortQuote, Readable, Trim, FirstOccurrence;
    var a, b := Printed(from, quotePath, short), Printed(to, quotePath, short);
    var left, right := TrimStart(a), TrimEnd(b);
    ReadableExactly(from, quotePath, short);
    ReadableExactly(to, quotePath, short);
    UnquoteOfHalfTrimmed(a);
    UnquoteOfHalfTrimmed(b);
    if left == "" || right == "" {
      BlankSide(from, to, quotePath, short);
    } else {
      SplitOfLine(a, b);
      var rest := left + ARROW + right;
      var i: nat :| i <= |left| && FirstOccurrence(rest, ARROW, i) && Find(rest, ARROW) == Some(i);
      if i < |left| {
        WithinFront(left, right, i);
        EarlyArrow(from, quotePath, short, left, i);
        assert rest[..i] == left[..i];
        assert Trimmed(a) ==> left == a;
      } else {
        assert rest[..i] == left && rest[i + 4..] == right;
        NoArrowInFront(left, right);
      }
    }
  }
}
