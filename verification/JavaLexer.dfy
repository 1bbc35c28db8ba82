/** Blanking out comments and literals of Java source before looking for declarations in it. */
module JavaLexer {
  import opened Wrappers
  import opened Text
  import opened Unicode

  datatype State = Code | LineComment | BlockComment | StringLiteral | Character | TextBlock

  predicate At(bytes: seq<byte>, k: int, c: char) {
    0 <= k < |bytes| && bytes[k] == c as int
  }

  predicate TripleQuote(bytes: seq<byte>, k: int) {
    At(bytes, k, '"') && At(bytes, k + 1, '"') && At(bytes, k + 2, '"')
  }

  /** A token: its length, the state after it, and whether it is a byte of code. */
  datatype Token = Token(length: nat, next: State, code: bool)

  function Lex(bytes: seq<byte>, k: nat, state: State): (t: Token)
    requires k < |bytes|
    ensures 1 <= t.length <= 3 && k + t.length <= |bytes|
  {
    match state
    case Code =>
      if At(bytes, k, '/') && At(bytes, k + 1, '/') then Token(2, LineComment, false)
      else if At(bytes, k, '/') && At(bytes, k + 1, '*') then Token(2, BlockComment, false)
      else if TripleQuote(bytes, k) then Token(3, TextBlock, false)
      else if At(bytes, k, '"') then Token(1, StringLiteral, false)
      else if At(bytes, k, '\'') then Token(1, Character, false)
      else Token(1, Code, true)
    case LineComment =>
      Token(1, if At(bytes, k, '\n') then Code else LineComment, false)
    case BlockComment =>
      if At(bytes, k, '*') && At(bytes, k + 1, '/') then Token(2, Code, false)
      else Token(1, BlockComment, false)
    case TextBlock =>
      if TripleQuote(bytes, k) then Token(3, Code, false) else Token(1, TextBlock, false)
    case StringLiteral =>
      if At(bytes, k, '\\') && k + 1 < |bytes| then Token(2, StringLiteral, false)
      else Token(1, if At(bytes, k, '"') then Code else StringLiteral, false)
    case Character =>
      if At(bytes, k, '\\') && k + 1 < |bytes| then Token(2, Character, false)
      else Token(1, if At(bytes, k, '\'') then Code else Character, false)
  }

  // ---------------------------------------------------------------------
  // The specification, one position at a time.

  /** The lexical state at a position, and how many bytes of a token that began earlier remain. */
  datatype Mode = Mode(state: State, rest: nat)

  function ModeAt(bytes: seq<byte>, k: nat): Mode
    requires k <= |bytes|
  {
    if k == 0 then Mode(Code, 0)
    else
      var before := ModeAt(bytes, k - 1);
      if before.rest > 0 then Mode(before.state, before.rest - 1)
      else
        var t := Lex(bytes, k - 1, before.state);
        Mode(t.next, t.length - 1)
  }

  /** The position holds a byte of code: not part of a comment, a literal, or one of their delimiters. */
  predicate IsCode(bytes: seq<byte>, k: nat)
    requires k < |bytes|
  {
    var m := ModeAt(bytes, k);
    m.rest == 0 && Lex(bytes, k, m.state).code
  }

  /** Code stays; elsewhere a line break that is a token of its own stays, and all else becomes a blank. */
  function MaskAt(bytes: seq<byte>, k: nat): char
    requires k < |bytes|
  {
    var m := ModeAt(bytes, k);
    if IsCode(bytes, k) then bytes[k] as char
    else if m.rest == 0 && Lex(bytes, k, m.state).length == 1 && At(bytes, k, '\n') then '\n'
    else ' '
  }

  function Mask(bytes: seq<byte>): (out: string)
    ensures |out| == |bytes|
    ensures forall k :: 0 <= k < |bytes| ==> out[k] == MaskAt(bytes, k)
  {
    seq(|bytes|, k requires 0 <= k < |bytes| => MaskAt(bytes, k))
  }

  // ---------------------------------------------------------------------
  // The scanner, several bytes at a time.

  function Blanks(n: nat): string
    requires n <= 3
  {
    "   "[..n]
  }

  /** A token's positions are masked by its blanks, and the next token starts in its next state. */
  lemma TokenMask(bytes: seq<byte>, i: nat, state: State)
    requires i < |bytes| && ModeAt(bytes, i) == Mode(state, 0)
    ensures var t := Lex(bytes, i, state);
      && ModeAt(bytes, i + t.length) == Mode(t.next, 0)
      && (t.length > 1 ==> forall k :: i <= k < i + t.length ==> MaskAt(bytes, k) == ' ')
  {
    var t := Lex(bytes, i, state);
    assert ModeAt(bytes, i + 1) == Mode(t.next, t.length - 1);
    if t.length >= 2 { assert ModeAt(bytes, i + 2) == Mode(t.next, t.length - 2); }
    if t.length >= 3 { assert ModeAt(bytes, i + 3) == Mode(t.next, t.length - 3); }
  }

  /** The text that stands for a token. */
  function TokenText(bytes: seq<byte>, i: nat, t: Token): string
    requires i < |bytes| && t.length <= 3
  {
    if t.code then [bytes[i] as char]
    else if t.length == 1 && bytes[i] == '\n' as int then "\n"
    else Blanks(t.length)
  }

  /** One turn of the scanner: what it writes, the state it goes to, how far it moves. */
  method Scan(bytes: seq<byte>, i: nat, state: State) returns (text: string, next: State, length: nat)
    requires i < |bytes|
    ensures var t := Lex(bytes, i, state);
      text == TokenText(bytes, i, t) && next == t.next && length == t.length
  {
    var current := bytes[i] as char;
    var second := if i + 1 < |bytes| then Some(bytes[i + 1] as char) else None;
    var third := if i + 2 < |bytes| then Some(bytes[i + 2] as char) else None;
    text, next, length := " ", state, 1;
    if state.Code? && current == '/' && second == Some('/') {
      text, next, length := "  ", LineComment, 2;
    } else if state.Code? && current == '/' && second == Some('*') {
      text, next, length := "  ", BlockComment, 2;
    } else if state.Code? && current == '"' && second == Some('"') && third == Some('"') {
      text, next, length := "   ", TextBlock, 3;
    } else if state.Code? && current == '"' {
      next := StringLiteral;
    } else if state.Code? && current == '\'' {
      next := Character;
    } else if state.LineComment? && current == '\n' {
      text, next := "\n", Code;
    } else if state.BlockComment? && current == '*' && second == Some('/') {
      text, next, length := "  ", Code, 2;
    } else if state.TextBlock? && current == '"' && second == Some('"') && third == Some('"') {
      text, next, length := "   ", Code, 3;
    } else if (state.StringLiteral? || state.Character?) && current == '\\' && second.Some? {
      text, length := "  ", 2;
    } else if state.StringLiteral? && current == '"' {
      next := Code;
    } else if state.Character? && current == '\'' {
      next := Code;
    } else if state.Code? {
      text := [current];
    } else if current == '\n' {
      text := "\n";
    }
  }

  /** The scanner agrees with the position-by-position specification. */
  method JavaCodeOnly(bytes: seq<byte>) returns (out: string)
    ensures out == Mask(bytes)
  {
    out := "";
    var state := Code;
    var i := 0;
    while i < |bytes|
      invariant 0 <= i <= |bytes| && |out| == i
      invariant ModeAt(bytes, i) == Mode(state, 0)
      invariant forall k :: 0 <= k < i ==> out[k] == MaskAt(bytes, k)
      decreases |bytes| - i
    {
      TokenMask(bytes, i, state);
      var text, next, length := Scan(bytes, i, state);
      out := out + text;
      state := next;
      i := i + length;
    }
  }

  // ---------------------------------------------------------------------
  // What the masked text is good for.

  /** One character per byte, and code bytes are kept exactly where they are. */
  lemma CodeStaysInPlace(bytes: seq<byte>, k: nat)
    requires k < |bytes|
    ensures |Mask(bytes)| == |bytes|
    ensures IsCode(bytes, k) ==> Mask(bytes)[k] as int == bytes[k]
    ensures !IsCode(bytes, k) ==> Mask(bytes)[k] == ' ' || (Mask(bytes)[k] == '\n' && At(bytes, k, '\n'))
  {
  }

  /** The scanner stands between two tokens, in the given state. */
  predicate Inside(bytes: seq<byte>, k: nat, state: State)
    requires k <= |bytes|
  {
    ModeAt(bytes, k) == Mode(state, 0)
  }

  /** A line comment blanks everything up to the line break, which stays, and code resumes after it. */
  lemma {:induction false} LineCommentEndsAtLineBreak(bytes: seq<byte>, k: nat, end: nat)
    requires k + 2 <= end <= |bytes| && Inside(bytes, k, Code) && At(bytes, k, '/') && At(bytes, k + 1, '/')
    requires forall j :: k + 2 <= j < end ==> !At(bytes, j, '\n')
    ensures Inside(bytes, end, LineComment)
    ensures forall j :: k <= j < end ==> MaskAt(bytes, j) == ' '
    ensures At(bytes, end, '\n') ==> MaskAt(bytes, end) == '\n' && Inside(bytes, end + 1, Code)
    decreases end
  {
    if end == k + 2 {
      TokenMask(bytes, k, Code);
    } else {
      LineCommentEndsAtLineBreak(bytes, k, end - 1);
    }
  }

  /** A block comment blanks everything up to and including the first closer, and code resumes after it. */
  lemma {:induction false} BlockCommentEndsAtCloser(bytes: seq<byte>, k: nat, end: nat)
    requires k + 2 <= end <= |bytes| && Inside(bytes, k, Code) && At(bytes, k, '/') && At(bytes, k + 1, '*')
    requires forall j :: k + 2 <= j < end ==> !(At(bytes, j, '*') && At(bytes, j + 1, '/'))
    ensures Inside(bytes, end, BlockComment)
    ensures forall j :: k <= j < end ==> !IsCode(bytes, j)
    ensures At(bytes, end, '*') && At(bytes, end + 1, '/') ==> Inside(bytes, end + 2, Code)
    decreases end
  {
    if end == k + 2 {
      TokenMask(bytes, k, Code);
    } else {
      BlockCommentEndsAtCloser(bytes, k, end - 1);
    }
    if end < |bytes| { TokenMask(bytes, end, BlockComment); }
  }

  /** From `i` to `end` the text of a literal, in which a backslash takes the next byte with it. */
  predicate LiteralText(bytes: seq<byte>, i: nat, end: nat, quote: char)
    requires i <= end <= |bytes|
    decreases end - i
  {
    if i == end then true
    else if At(bytes, i, '\\') then i + 2 <= end && LiteralText(bytes, i + 2, end, quote)
    else !At(bytes, i, quote) && LiteralText(bytes, i + 1, end, quote)
  }

  function LiteralState(quote: char): State {
    if quote == '"' then StringLiteral else Character
  }

  lemma {:induction false} LiteralTextIsBlank(bytes: seq<byte>, i: nat, end: nat, quote: char)
    requires i <= end <= |bytes| && (quote == '"' || quote == '\'') && LiteralText(bytes, i, end, quote)
    requires Inside(bytes, i, LiteralState(quote))
    ensures Inside(bytes, end, LiteralState(quote))
    ensures forall j :: i <= j < end ==> !IsCode(bytes, j)
    decreases end - i
  {
    if i < end {
      var state := LiteralState(quote);
      TokenMask(bytes, i, state);
      LiteralTextIsBlank(bytes, i + Lex(bytes, i, state).length, end, quote);
    }
  }

  /** A string or character literal ends at its first unescaped quote: nothing before is code, and code resumes. */
  lemma LiteralEndsAtUnescapedQuote(bytes: seq<byte>, k: nat, end: nat, quote: char)
    requires k + 1 <= end <= |bytes| && Inside(bytes, k, Code) && At(bytes, k, quote)
    requires quote == '\'' || (quote == '"' && !TripleQuote(bytes, k))
    requires LiteralText(bytes, k + 1, end, quote)
    ensures forall j :: k <= j < end ==> !IsCode(bytes, j)
    ensures At(bytes, end, quote) ==> !IsCode(bytes, end) && Inside(bytes, end + 1, Code)
  {
    TokenMask(bytes, k, Code);
    LiteralTextIsBlank(bytes, k + 1, end, quote);
    if end < |bytes| { TokenMask(bytes, end, LiteralState(quote)); }
  }

  /** A text block ends at the first three quotes after its opener. */
  lemma {:induction false} TextBlockEndsAtTripleQuote(bytes: seq<byte>, k: nat, end: nat)
    requires k + 3 <= end <= |bytes| && Inside(bytes, k, Code) && TripleQuote(bytes, k)
    requires forall j :: k + 3 <= j < end ==> !TripleQuote(bytes, j)
    ensures Inside(bytes, end, TextBlock)
    ensures forall j :: k <= j < end ==> !IsCode(bytes, j)
    ensures TripleQuote(bytes, end) ==> Inside(bytes, end + 3, Code)
    decreases end
  {
    if end == k + 3 {
      TokenMask(bytes, k, Code);
    } else {
      TextBlockEndsAtTripleQuote(bytes, k, end - 1);
    }
    if end < |bytes| { TokenMask(bytes, end, TextBlock); }
  }

  // ---------------------------------------------------------------------
  // Line breaks.

  /** The byte follows the backslash of an escape inside a string or character literal. */
  predicate Escaped(bytes: seq<byte>, k: nat)
    requires k < |bytes|
  {
    && k > 0 && At(bytes, k - 1, '\\')
    && (ModeAt(bytes, k - 1) == Mode(StringLiteral, 0) || ModeAt(bytes, k - 1) == Mode(Character, 0))
  }

  lemma {:induction false} RestIsShort(bytes: seq<byte>, k: nat)
    requires k <= |bytes|
    ensures ModeAt(bytes, k).rest <= 2
    decreases k
  {
    hide Lex;
    if k > 0 { RestIsShort(bytes, k - 1); }
  }

  /** What a token of several bytes looks like after its first byte. */
  lemma TokenTail(bytes: seq<byte>, k: nat, state: State)
    requires k < |bytes|
    ensures var t := Lex(bytes, k, state);
      && (t.length == 3 ==> At(bytes, k + 1, '"') && At(bytes, k + 2, '"'))
      && (t.length == 2 ==>
            || (At(bytes, k, '\\') && (state.StringLiteral? || state.Character?))
            || At(bytes, k + 1, '/') || At(bytes, k + 1, '*'))
  {
  }

  lemma ModeStep(bytes: seq<byte>, k: nat)
    requires 0 < k <= |bytes|
    ensures var before := ModeAt(bytes, k - 1);
      ModeAt(bytes, k) == if before.rest > 0 then Mode(before.state, before.rest - 1)
                          else Mode(Lex(bytes, k - 1, before.state).next, Lex(bytes, k - 1, before.state).length - 1)
  {
  }

  /** Inside a token of several bytes the byte is escaped, or belongs to a delimiter. */
  lemma RestIsEscapedOrDelimiter(bytes: seq<byte>, k: nat)
    requires k < |bytes| && ModeAt(bytes, k).rest > 0
    ensures Escaped(bytes, k) || At(bytes, k, '/') || At(bytes, k, '*') || At(bytes, k, '"')
  {
    if k > 0 {
      hide ModeAt, Lex;
      RestIsShort(bytes, k - 1);
      ModeStep(bytes, k);
      var before := ModeAt(bytes, k - 1);
      if before.rest == 0 {
        TokenTail(bytes, k - 1, before.state);
      } else {
        SecondOfThree(bytes, k);
      }
    }
  }

  lemma SecondOfThree(bytes: seq<byte>, k: nat)
    requires 0 < k < |bytes| && ModeAt(bytes, k).rest > 0 && ModeAt(bytes, k - 1).rest > 0
    ensures At(bytes, k, '"')
  {
    if k > 1 {
      hide ModeAt, Lex;
      ModeStep(bytes, k);
      ModeStep(bytes, k - 1);
      RestIsShort(bytes, k - 2);
      TokenTail(bytes, k - 2, ModeAt(bytes, k - 2).state);
    }
  }

  /** A line break of the source stays, unless it is the second byte of an escape: then it becomes a blank. */
  lemma LineBreakStaysUnlessEscaped(bytes: seq<byte>, k: nat)
    requires k < |bytes| && At(bytes, k, '\n')
    ensures Mask(bytes)[k] == '\n' <==> !Escaped(bytes, k)
    ensures Mask(bytes)[k] == ' ' <==> Escaped(bytes, k)
  {
    if ModeAt(bytes, k).rest > 0 {
      RestIsEscapedOrDelimiter(bytes, k);
    }
  }

  /** An opening quote, a backslash and a line break lose the line break. */
  lemma EscapedLineBreakIsLost()
    ensures var bytes := ['"' as int, '\\' as int, '\n' as int];
      At(bytes, 2, '\n') && Mask(bytes)[2] == ' '
  {
    var bytes: seq<byte> := ['"' as int, '\\' as int, '\n' as int];
    assert ModeAt(bytes, 0) == Mode(Code, 0);
    assert ModeAt(bytes, 1) == Mode(StringLiteral, 0);
    LineBreakStaysUnlessEscaped(bytes, 2);
  }

  /** A comment opener: two slashes, or a slash and a star. */
  predicate OpensComment(s: string, k: int) {
    0 <= k && k + 1 < |s| && s[k] == '/' && (s[k + 1] == '/' || s[k + 1] == '*')
  }

  ghost predicate Clean(s: string) {
    && (forall k :: 0 <= k < |s| ==> s[k] != '"' && s[k] != '\'')
    && (forall k :: !OpensComment(s, k))
  }

  /** A code byte is never a quote, and a code slash never opens a comment. */
  lemma CodeByte(bytes: seq<byte>, k: nat)
    requires k < |bytes| && IsCode(bytes, k)
    ensures !At(bytes, k, '"') && !At(bytes, k, '\'')
    ensures At(bytes, k, '/') ==> !At(bytes, k + 1, '/') && !At(bytes, k + 1, '*')
  {
  }

  /** The output contains no quote and no comment opener. */
  lemma MaskIsClean(bytes: seq<byte>)
    ensures Clean(Mask(bytes))
  {
    var out := Mask(bytes);
    forall k | 0 <= k < |out| ensures out[k] != '"' && out[k] != '\'' {
      CodeStaysInPlace(bytes, k);
      if IsCode(bytes, k) { CodeByte(bytes, k); }
    }
    forall k ensures !OpensComment(out, k) {
      if 0 <= k && k + 1 < |out| {
        CodeStaysInPlace(bytes, k);
        CodeStaysInPlace(bytes, k + 1);
        if IsCode(bytes, k) { CodeByte(bytes, k); }
      }
    }
  }

  predicate Ascii(s: string) {
    forall k :: 0 <= k < |s| ==> s[k] as int < 0x80
  }

  lemma AsciiTail(s: string)
    requires s != ""
    ensures Ascii(s) <==> s[0] as int < 0x80 && Ascii(s[1..])
  {
    if Ascii(s) {
      forall k | 0 <= k < |s[1..]| ensures s[1..][k] as int < 0x80 {
        assert s[k + 1] as int < 0x80;
      }
    }
    if s[0] as int < 0x80 && Ascii(s[1..]) {
      forall k | 0 <= k < |s| ensures s[k] as int < 0x80 {
        if k > 0 { assert s[1..][k - 1] == s[k]; }
      }
    }
  }

  lemma {:induction false} Utf8Length(s: string)
    ensures |Encode8(s)| >= |s|
    ensures |Encode8(s)| == |s| <==> Ascii(s)
    ensures Ascii(s) ==> forall k :: 0 <= k < |s| ==> Encode8(s)[k] == s[k] as int
  {
    if s != "" {
      Utf8Length(s[1..]);
      AsciiTail(s);
      assert |EncodeChar8(s[0])| == 1 <==> s[0] as int < 0x80;
      if Ascii(s) {
        assert EncodeChar8(s[0]) == [s[0] as int];
        forall k | 0 <= k < |s| ensures Encode8(s)[k] == s[k] as int {
          if k > 0 { assert Encode8(s)[k] == Encode8(s[1..])[k - 1]; }
        }
      }
    }
  }

  /** A clean text is code throughout, so it masks to itself. */
  lemma {:induction false} CleanIsCode(bytes: seq<byte>, s: string, k: nat)
    requires Clean(s) && |bytes| == |s| && forall i :: 0 <= i < |s| ==> bytes[i] == s[i] as int
    requires k <= |bytes|
    ensures ModeAt(bytes, k) == Mode(Code, 0)
    ensures k < |bytes| ==> IsCode(bytes, k)
    decreases k
  {
    if k > 0 { CleanIsCode(bytes, s, k - 1); }
    assert !OpensComment(s, k);
  }

  /** The masked text is ASCII exactly if all code of the source is. */
  lemma MaskIsAsciiWhenCodeIs(bytes: seq<byte>)
    ensures Ascii(Mask(bytes)) <==> forall k :: 0 <= k < |bytes| && IsCode(bytes, k) ==> bytes[k] < 0x80
  {
    forall k | 0 <= k < |bytes|
      ensures Mask(bytes)[k] as int < 0x80 <==> (IsCode(bytes, k) ==> bytes[k] < 0x80)
    {
      CodeStaysInPlace(bytes, k);
    }
  }

  /**
   * Masking twice is masking once exactly when the source's code is ASCII: each code byte becomes one
   * character, and a character beyond ASCII takes two bytes when the result is read again.
   */
  lemma MaskIsIdempotent(bytes: seq<byte>)
    ensures Mask(Encode8(Mask(bytes))) == Mask(bytes) <==>
            forall k :: 0 <= k < |bytes| && IsCode(bytes, k) ==> bytes[k] < 0x80
  {
    MaskIsAsciiWhenCodeIs(bytes);
    var once := Mask(bytes);
    var again := Encode8(once);
    Utf8Length(once);
    if Ascii(once) {
      MaskIsClean(bytes);
      forall k | 0 <= k < |again| ensures Mask(again)[k] == once[k] {
        CleanIsCode(again, once, k);
      }
    }
  }

  /** In particular, on ASCII source. */
  lemma AsciiSourceIsIdempotent(bytes: seq<byte>)
    requires forall k :: 0 <= k < |bytes| ==> bytes[k] < 0x80
    ensures Mask(Encode8(Mask(bytes))) == Mask(bytes)
  {
    MaskIsIdempotent(bytes);
  }

  /** One character of code beyond ASCII is enough to lose it. */
  lemma NonAsciiCodeIsNotIdempotent()
    ensures var bytes := Encode8("\U{E9}"); Mask(Encode8(Mask(bytes))) != Mask(bytes)
  {
    var bytes := Encode8("\U{E9}");
    assert bytes == EncodeChar8('\U{E9}') == [0xC3, 0xA9];
    assert ModeAt(bytes, 0) == Mode(Code, 0) && IsCode(bytes, 0);
    MaskIsIdempotent(bytes);
  }
}
