/** Undoing git's quoting of paths. */
module GitPath {
  import opened Wrappers
  import opened Text
  import opened Unicode

  const BACKSLASH: char := '\\'
  const QUOTE: char := '"'

  /** Every occurrence of the pair `a b`, from left to right without overlap, becomes `c`. */
  function ReplacePair(s: string, a: char, b: char, c: char): string {
    if s == "" then ""
    else if |s| >= 2 && s[0] == a && s[1] == b then [c] + ReplacePair(s[2..], a, b, c)
    else [s[0]] + ReplacePair(s[1..], a, b, c)
  }

  /** The two passes of the code: escaped quotes first, escaped backslashes second. */
  function TwoPasses(s: string): string {
    ReplacePair(ReplacePair(s, BACKSLASH, QUOTE, QUOTE), BACKSLASH, BACKSLASH, BACKSLASH)
  }

  function Unquote(value: string): string {
    var trimmed := Trim(value);
    if |trimmed| >= 2 && trimmed[0] == QUOTE && trimmed[|trimmed| - 1] == QUOTE
    then TwoPasses(trimmed[1..|trimmed| - 1])
    else trimmed
  }

  /** A single pass: a backslash before a quote or a backslash is dropped. */
  function Unescape(s: string): string {
    if s == "" then ""
    else if |s| >= 2 && s[0] == BACKSLASH && (s[1] == QUOTE || s[1] == BACKSLASH)
    then [s[1]] + Unescape(s[2..])
    else [s[0]] + Unescape(s[1..])
  }

  /** On every string, the two passes do what the single pass does. */
  lemma {:induction false} TwoPassesAreOne(s: string)
    ensures TwoPasses(s) == Unescape(s)
    decreases |s|
  {
    if |s| >= 2 && s[0] == BACKSLASH {
      if s[1] == BACKSLASH && |s| >= 3 && s[2] == QUOTE {
        TwoPassesAreOne(s[3..]);
        assert s[1..][2..] == s[3..] && s[2..][1..] == s[3..];
        assert ReplacePair(s, BACKSLASH, QUOTE, QUOTE)
            == [BACKSLASH, QUOTE] + ReplacePair(s[3..], BACKSLASH, QUOTE, QUOTE);
        CopyOne(BACKSLASH, [QUOTE] + ReplacePair(s[3..], BACKSLASH, QUOTE, QUOTE));
        CopyOne(QUOTE, ReplacePair(s[3..], BACKSLASH, QUOTE, QUOTE));
      } else {
        TwoPassesAreOne(s[2..]);
        assert s[1..][1..] == s[2..];
        var rest := ReplacePair(s[2..], BACKSLASH, QUOTE, QUOTE);
        if s[1] == BACKSLASH {
          assert ReplacePair(s, BACKSLASH, QUOTE, QUOTE) == [BACKSLASH, BACKSLASH] + rest;
          assert ([BACKSLASH, BACKSLASH] + rest)[2..] == rest;
        } else if s[1] == QUOTE {
          CopyOne(QUOTE, rest);
        } else {
          assert ReplacePair(s, BACKSLASH, QUOTE, QUOTE) == [BACKSLASH, s[1]] + rest;
          CopyOne(BACKSLASH, [s[1]] + rest);
          CopyOne(s[1], rest);
        }
      }
    } else if s != "" {
      TwoPassesAreOne(s[1..]);
      CopyOne(s[0], ReplacePair(s[1..], BACKSLASH, QUOTE, QUOTE));
    }
  }

  /** A character that does not start a backslash pair is copied by the second pass. */
  lemma CopyOne(c: char, rest: string)
    requires c != BACKSLASH || rest == "" || rest[0] != BACKSLASH
    ensures ReplacePair([c] + rest, BACKSLASH, BACKSLASH, BACKSLASH)
         == [c] + ReplacePair(rest, BACKSLASH, BACKSLASH, BACKSLASH)
  {
    assert ([c] + rest)[1..] == rest;
  }

  // ---------------------------------------------------------------------
  // Git's quoting.

  function OctalDigit(n: nat): (digit: char)
    requires n < 8
    ensures '0' <= digit <= '7'
  {
    ('0' as int + n) as char
  }

  function Octal(b: byte): string {
    [BACKSLASH, OctalDigit(b / 64), OctalDigit((b / 8) % 8), OctalDigit(b % 8)]
  }

  function OctalAll(bytes: seq<byte>): string {
    if bytes == [] then "" else Octal(bytes[0]) + OctalAll(bytes[1..])
  }

  /** Characters, other than quotes and backslashes, that git escapes; the last kind is configurable. */
  predicate OtherEscape(c: char, quotePath: bool) {
    c as int < 0x20 || c as int == 0x7F || (quotePath && c as int >= 0x80)
  }

  function Escape(c: char, quotePath: bool): string {
    if c == QUOTE || c == BACKSLASH then [BACKSLASH, c]
    else if !OtherEscape(c, quotePath) then [c]
    else
      var n := c as int;
      if 7 <= n <= 13 then [BACKSLASH, "abtnvfr"[n - 7]]
      else OctalAll(EncodeChar8(c))
  }

  function EscapeAll(path: string, quotePath: bool): string {
    if path == "" then "" else Escape(path[0], quotePath) + EscapeAll(path[1..], quotePath)
  }

  predicate NeedsQuotes(path: string, quotePath: bool) {
    exists c :: c in path && (c == QUOTE || c == BACKSLASH || OtherEscape(c, quotePath))
  }

  function GitQuote(path: string, quotePath: bool): string {
    if NeedsQuotes(path, quotePath) then [QUOTE] + EscapeAll(path, quotePath) + [QUOTE] else path
  }

  /** Text in which the single pass finds nothing to drop, whatever follows it. */
  predicate Inert(s: string) {
    s == "" || (Inert(s[1..]) && (s[0] == BACKSLASH ==> |s| >= 2 && s[1] != QUOTE && s[1] != BACKSLASH))
  }

  lemma CopyFirst(c: char, more: string)
    requires c == BACKSLASH ==> more != "" && more[0] != QUOTE && more[0] != BACKSLASH
    ensures Unescape([c] + more) == [c] + Unescape(more)
  {
    assert ([c] + more)[1..] == more;
  }

  lemma {:induction false} InertIsCopied(s: string, rest: string)
    requires Inert(s)
    ensures Unescape(s + rest) == s + Unescape(rest)
    decreases |s|
  {
    if s == "" {
      assert s + rest == rest;
    } else {
      var more := s[1..];
      InertIsCopied(more, rest);
      CopyFirst(s[0], more + rest);
      calc {
        Unescape(s + rest);
        { assert s + rest == [s[0]] + (more + rest); }
        [s[0]] + (more + Unescape(rest));
        { assert s == [s[0]] + more; }
        s + Unescape(rest);
      }
    }
  }

  lemma OctalIsInert(b: byte, rest: string)
    requires Inert(rest)
    ensures Inert(Octal(b) + rest)
  {
    var s := Octal(b) + rest;
    InertStep(s[3], rest);
    InertStep(s[2], [s[3]] + rest);
    InertStep(s[1], [s[2]] + ([s[3]] + rest));
    assert s[1..] == [s[1]] + ([s[2]] + ([s[3]] + rest));
  }

  lemma InertStep(c: char, rest: string)
    requires Inert(rest) && c != BACKSLASH
    ensures Inert([c] + rest)
  {
    assert ([c] + rest)[1..] == rest;
  }

  lemma {:induction false} OctalAllIsInert(bytes: seq<byte>)
    ensures Inert(OctalAll(bytes)) && |OctalAll(bytes)| == 4 * |bytes|
  {
    if bytes != [] {
      OctalAllIsInert(bytes[1..]);
      OctalIsInert(bytes[0], OctalAll(bytes[1..]));
    }
  }

  /** What the single pass makes of one escaped character: the character, or the escape left as it is. */
  function ReadBack(c: char, quotePath: bool): string {
    if OtherEscape(c, quotePath) then Escape(c, quotePath) else [c]
  }

  function ReadBackAll(path: string, quotePath: bool): string {
    if path == "" then "" else ReadBack(path[0], quotePath) + ReadBackAll(path[1..], quotePath)
  }

  lemma UnescapeOne(c: char, quotePath: bool, rest: string)
    ensures Unescape(Escape(c, quotePath) + rest) == ReadBack(c, quotePath) + Unescape(rest)
    ensures OtherEscape(c, quotePath) ==> |ReadBack(c, quotePath)| >= 2
  {
    var s := Escape(c, quotePath);
    if c == QUOTE || c == BACKSLASH {
      assert (s + rest)[2..] == rest;
    } else {
      if OtherEscape(c, quotePath) {
        OctalAllIsInert(EncodeChar8(c));
        if 7 <= c as int <= 13 {
          assert s[1..] == [s[1]] && s[1..][1..] == "";
        }
      } else {
        assert s[1..] == "";
      }
      InertIsCopied(s, rest);
    }
  }

  lemma {:induction false} UnescapeAll(path: string, quotePath: bool)
    ensures Unescape(EscapeAll(path, quotePath)) == ReadBackAll(path, quotePath)
  {
    if path != "" {
      UnescapeAll(path[1..], quotePath);
      UnescapeOne(path[0], quotePath, EscapeAll(path[1..], quotePath));
    }
  }

  predicate OnlyQuotesAndBackslashes(path: string, quotePath: bool) {
    forall c :: c in path ==> !OtherEscape(c, quotePath)
  }

  lemma {:induction false} ReadBackIsPath(path: string, quotePath: bool)
    ensures |ReadBackAll(path, quotePath)| >= |path|
    ensures |ReadBackAll(path, quotePath)| == |path| <==> OnlyQuotesAndBackslashes(path, quotePath)
    ensures OnlyQuotesAndBackslashes(path, quotePath) ==> ReadBackAll(path, quotePath) == path
  {
    if path != "" {
      ReadBackIsPath(path[1..], quotePath);
      UnescapeOne(path[0], quotePath, "");
      assert path == [path[0]] + path[1..];
      SuffixMembers(path, 1);
      assert path[0] in path;
      assert OnlyQuotesAndBackslashes(path, quotePath) <==>
             !OtherEscape(path[0], quotePath) && OnlyQuotesAndBackslashes(path[1..], quotePath);
    }
  }

  /**
   * A quoted path is read back exactly when it holds nothing that git escapes in another way; a path
   * that needs no quotes, exactly when it has no outer white space.
   */
  lemma QuoteThenUnquote(path: string, quotePath: bool)
    ensures Unquote(GitQuote(path, quotePath)) == path <==>
            OnlyQuotesAndBackslashes(path, quotePath) && (NeedsQuotes(path, quotePath) || Trimmed(path))
  {
    var quoted := GitQuote(path, quotePath);
    TrimFixpoint(quoted);
    if NeedsQuotes(path, quotePath) {
      assert quoted[1..|quoted| - 1] == EscapeAll(path, quotePath);
      TwoPassesAreOne(EscapeAll(path, quotePath));
      UnescapeAll(path, quotePath);
      ReadBackIsPath(path, quotePath);
    } else {
      TrimStartIsSuffix(path);
      TrimEndIsPrefix(TrimStart(path));
      assert Trim(path) != "" ==> Trim(path)[0] == TrimStart(path)[0] && TrimStart(path)[0] in path;
    }
  }

  // ---------------------------------------------------------------------
  // The path fields of a status line.

  /** The old path, for a rename, and the path. */
  function StatusPaths(field: string): (Option<string>, string) {
    var rest := Trim(field);
    match Find(rest, ARROW)
    case Some(i) => (Some(Unquote(rest[..i])), Unquote(rest[i + |ARROW|..]))
    case None => (None, Unquote(rest))
  }

  /** The short status also quotes a path that needs no escape but contains a blank. */
  function ShortQuote(path: string, quotePath: bool): string {
    if !NeedsQuotes(path, quotePath) && ' ' in path then [QUOTE] + path + [QUOTE] else GitQuote(path, quotePath)
  }

  predicate Quoted(path: string, quotePath: bool) {
    NeedsQuotes(path, quotePath) || ' ' in path
  }

  lemma PlainEscape(path: string, quotePath: bool)
    requires !NeedsQuotes(path, quotePath)
    ensures EscapeAll(path, quotePath) == path && OnlyQuotesAndBackslashes(path, quotePath)
  {
    if path != "" {
      SuffixMembers(path, 1);
      assert path[0] in path && path == [path[0]] + path[1..];
      PlainEscape(path[1..], quotePath);
    }
  }

  /** Printed by the short status, a path is read back exactly if it needs no other escape and no outer white space is bare. */
  lemma ShortQuoteThenUnquote(path: string, quotePath: bool)
    ensures Unquote(ShortQuote(path, quotePath)) == path <==>
            OnlyQuotesAndBackslashes(path, quotePath) && (Quoted(path, quotePath) || Trimmed(path))
  {
    hide TwoPasses, Unquote, NeedsQuotes;
    QuoteThenUnquote(path, quotePath);
    if !NeedsQuotes(path, quotePath) && ' ' in path {
      PlainInQuotes(path, quotePath);
      PlainEscape(path, quotePath);
    }
  }

  lemma PlainInQuotes(path: string, quotePath: bool)
    requires !NeedsQuotes(path, quotePath)
    ensures Unquote([QUOTE] + path + [QUOTE]) == path
  {
    hide TwoPasses, NeedsQuotes, EscapeAll, ReadBackAll, Unescape, Trim;
    var quoted := [QUOTE] + path + [QUOTE];
    TrimFixpoint(quoted);
    assert quoted[1..|quoted| - 1] == path;
    PlainEscape(path, quotePath);
    TwoPassesAreOne(path);
    UnescapeAll(path, quotePath);
    ReadBackIsPath(path, quotePath);
  }

  /**
   * A path, printed in either way, survives a status line exactly if it is read back and what was
   * printed holds no arrow.
   */
  lemma StatusPathReadsBack(path: string, quotePath: bool, printed: string)
    requires printed == GitQuote(path, quotePath) || printed == ShortQuote(path, quotePath)
    ensures printed == GitQuote(path, quotePath) ==>
      (StatusPaths(printed) == (None, path) <==>
        && OnlyQuotesAndBackslashes(path, quotePath) && (NeedsQuotes(path, quotePath) || Trimmed(path))
        && !Contains(printed, ARROW))
    ensures printed == ShortQuote(path, quotePath) ==>
      (StatusPaths(printed) == (None, path) <==>
        && OnlyQuotesAndBackslashes(path, quotePath) && (Quoted(path, quotePath) || Trimmed(path))
        && !Contains(printed, ARROW))
  {
    hide TwoPasses, NeedsQuotes, EscapeAll;
    UnquoteTrims(printed);
    QuoteThenUnquote(path, quotePath);
    ShortQuoteThenUnquote(path, quotePath);
    TrimOfPrinted(path, quotePath, printed);
  }

  lemma UnquoteTrims(value: string)
    ensures Unquote(Trim(value)) == Unquote(value)
  {
    TrimIsTrimmed(value);
    TrimFixpoint(Trim(value));
  }

  /** Whenever the path is read back, there is nothing to trim from what was printed. */
  lemma TrimOfPrinted(path: string, quotePath: bool, printed: string)
    requires printed == GitQuote(path, quotePath) || printed == ShortQuote(path, quotePath)
    ensures Unquote(printed) == path ==> Trim(printed) == printed
  {
    TrimFixpoint(printed);
    QuoteThenUnquote(path, quotePath);
  }

  /** An arrow within a plain path makes the parser see a rename, in quotes or without. */
  lemma ArrowIsTakenForRename(path: string, quotePath: bool)
    requires !NeedsQuotes(path, quotePath) && Trimmed(path) && Contains(path, ARROW)
    ensures StatusPaths(GitQuote(path, quotePath)).0.Some?
    ensures StatusPaths(ShortQuote(path, quotePath)).0.Some?
  {
    hide TwoPasses, EscapeAll, Unquote;
    var at := Find(path, ARROW).value;
    var quoted := [QUOTE] + path + [QUOTE];
    TrimFixpoint(path);
    TrimFixpoint(quoted);
    assert path[at..at + |ARROW|][0] == path[at] == ' ';
    assert quoted[at + 1..at + 1 + |ARROW|] == path[at..at + |ARROW|];
    assert OccursAt(quoted, ARROW, at + 1);
  }

  /** Such a path exists. */
  lemma PlainPathWithArrow()
    ensures !NeedsQuotes("a -> b", false) && Trimmed("a -> b") && Contains("a -> b", ARROW)
  {
    assert "a -> b"[1..5] == ARROW;
    assert OccursAt("a -> b", ARROW, 1);
  }

  /** A tab needs another escape than the two, and a bare no-break space is trimmed away. */
  lemma SomePathsAreNotReadBack()
    ensures Unquote(GitQuote("\t", false)) != "\t"
    ensures Unquote(GitQuote("\U{A0}", false)) != "\U{A0}"
  {
    hide Unquote, GitQuote;
    var tab, space := "\t", "\U{A0}";
    assert tab[0] in tab && !OnlyQuotesAndBackslashes(tab, false);
    assert !NeedsQuotes(space, false) && !Trimmed(space);
    QuoteThenUnquote(tab, false);
    QuoteThenUnquote(space, false);
  }
}
