/** The Debug Adapter Protocol's base protocol: framing and the incremental decoder. */
module DapDecoder {
  import opened Wrappers
  import opened Text
  import opened Unicode

  /** A JSON reader: the value of a body, or nothing if the body is not valid JSON. */
  type Parser<!V> = seq<byte> -> Option<V>

  const CRLF: string := "\r\n"
  const SEPARATOR: seq<byte> := [13, 10, 13, 10]
  const USIZE: nat := 0x1_0000_0000_0000_0000

  // ---------------------------------------------------------------------
  // Headers.

  function SplitLines(text: string): seq<string>
    decreases |text|
  {
    match Find(text, CRLF)
    case None => [text]
    case Some(i) => [text[..i]] + SplitLines(text[i + 2..])
  }

  /** Digits after an optional plus sign, if the value fits the machine word. */
  function ParseUsize(s: string): Option<nat> {
    var digits := if s != "" && s[0] == '+' then s[1..] else s;
    if digits == "" || !AllDigits(digits) || DigitsValue(digits) >= USIZE then None
    else Some(DigitsValue(digits))
  }

  /** The first line with the key decides, even if its value is not a number. */
  function LengthInLines(lines: seq<string>): Option<nat> {
    if lines == [] then None
    else
      match Find(lines[0], ":")
      case Some(colon) =>
        if EqualIgnoringCase(Trim(lines[0][..colon]), "Content-Length")
        then ParseUsize(Trim(lines[0][colon + 1..]))
        else LengthInLines(lines[1..])
      case None => LengthInLines(lines[1..])
  }

  function ParseContentLength(header: seq<byte>): Option<nat> {
    match Decode8(header)
    case None => None
    case Some(text) => LengthInLines(SplitLines(text))
  }

  // ---------------------------------------------------------------------
  // One step of the decoder, and all of them.

  /** `Overflow`: the end of the announced body is not a machine word, which stops the program. */
  datatype Step<V> = NeedMore | Skip(length: nat) | Message(value: V, length: nat) | Overflow

  function BodyStep<V>(parse: Parser<V>, buffer: seq<byte>, bodyStart: nat, length: nat): (s: Step<V>)
    requires 4 <= bodyStart <= |buffer|
    ensures s.Skip? || s.Message? ==> 4 <= s.length <= |buffer|
  {
    if bodyStart + length >= USIZE then Overflow
    else if |buffer| < bodyStart + length then NeedMore
    else
      match parse(buffer[bodyStart..bodyStart + length])
      case Some(value) => Message(value, bodyStart + length)
      case None => Skip(bodyStart + length)
  }

  function DecodeStep<V>(parse: Parser<V>, buffer: seq<byte>): (s: Step<V>)
    ensures s.Skip? || s.Message? ==> 4 <= s.length <= |buffer|
  {
    match Find(buffer, SEPARATOR)
    case None => NeedMore
    case Some(headerEnd) =>
      match ParseContentLength(buffer[..headerEnd])
      case None => Skip(headerEnd + 4)
      case Some(length) => BodyStep(parse, buffer, headerEnd + 4, length)
  }

  /** A decision once made does not change when more bytes arrive. */
  lemma StepIsStable<V>(parse: Parser<V>, a: seq<byte>, b: seq<byte>)
    requires !DecodeStep(parse, a).NeedMore?
    ensures DecodeStep(parse, a + b) == DecodeStep(parse, a)
  {
    var headerEnd := Find(a, SEPARATOR).value;
    SeparatorIsStable(a, b);
    assert (a + b)[..headerEnd] == a[..headerEnd];
    var length := ParseContentLength(a[..headerEnd]);
    if length.Some? {
      BodyStepIsStable(parse, a, b, headerEnd + 4, length.value);
    }
  }

  lemma SeparatorIsStable(a: seq<byte>, b: seq<byte>)
    requires Find(a, SEPARATOR).Some?
    ensures Find(a + b, SEPARATOR) == Find(a, SEPARATOR)
  {
    var headerEnd := Find(a, SEPARATOR).value;
    forall j | 0 <= j <= headerEnd ensures OccursAt(a + b, SEPARATOR, j) <==> OccursAt(a, SEPARATOR, j) {
      assert (a + b)[j..j + 4] == a[j..j + 4];
    }
    FindIs(a + b, SEPARATOR, headerEnd);
  }

  lemma BodyStepIsStable<V>(parse: Parser<V>, a: seq<byte>, b: seq<byte>, bodyStart: nat, length: nat)
    requires 4 <= bodyStart <= |a| && !BodyStep(parse, a, bodyStart, length).NeedMore?
    ensures BodyStep(parse, a + b, bodyStart, length) == BodyStep(parse, a, bodyStart, length)
  {
    if bodyStart + length < USIZE {
      assert (a + b)[bodyStart..bodyStart + length] == a[bodyStart..bodyStart + length];
    }
  }

  // ---------------------------------------------------------------------
  // Draining, for any stepping function with the two properties just proved.

  type Stepper<!V> = seq<byte> -> Step<V>

  ghost predicate Progresses<V>(step: Stepper<V>) {
    forall b :: step(b).Skip? || step(b).Message? ==> 1 <= step(b).length <= |b|
  }

  ghost predicate Stable<V>(step: Stepper<V>) {
    forall a, b :: !step(a).NeedMore? ==> step(a + b) == step(a)
  }

  function DecodeStepper<V>(parse: Parser<V>): Stepper<V> {
    buffer => DecodeStep(parse, buffer)
  }

  lemma DecoderSteps<V>(parse: Parser<V>)
    ensures Progresses(DecodeStepper(parse)) && Stable(DecodeStepper(parse))
  {
    var step := DecodeStepper(parse);
    forall a, b | !step(a).NeedMore? ensures step(a + b) == step(a) {
      StepIsStable(parse, a, b);
    }
  }

  datatype Drained<V> = Drained(messages: seq<V>, leftover: seq<byte>, crashed: bool)

  /** Everything that repeated steps take from a buffer. */
  ghost function Drain<V>(step: Stepper<V>, buffer: seq<byte>): Drained<V>
    requires Progresses(step)
    decreases |buffer|
  {
    match step(buffer)
    case NeedMore => Drained([], buffer, false)
    case Overflow => Drained([], buffer, true)
    case Skip(n) => Drain(step, buffer[n..])
    case Message(value, n) => After([value], Drain(step, buffer[n..]))
  }

  /** What was drained before, put in front of what is drained now. */
  function After<V>(messages: seq<V>, d: Drained<V>): Drained<V> {
    Drained(messages + d.messages, d.leftover, d.crashed)
  }

  lemma AfterAfter<V>(first: seq<V>, second: seq<V>, d: Drained<V>)
    ensures After(first, After(second, d)) == After(first + second, d)
    ensures After([], d) == d
  {
    assert first + (second + d.messages) == first + second + d.messages;
  }

  /** Draining, pushing more and draining again is draining everything at once. */
  lemma {:induction false} DrainInTwoParts<V>(step: Stepper<V>, a: seq<byte>, b: seq<byte>)
    requires Progresses(step) && Stable(step)
    ensures Drain(step, a + b) == After(Drain(step, a).messages, Drain(step, Drain(step, a).leftover + b))
    decreases |a|
  {
    var now := step(a);
    if now.NeedMore? {
      AfterAfter([], [], Drain(step, a + b));
    } else {
      assert step(a + b) == now;
      if now.Overflow? {
        AfterAfter([], [], Drain(step, a + b));
      } else {
        var rest := a[now.length..];
        DrainInTwoParts(step, rest, b);
        assert (a + b)[now.length..] == rest + b;
        if now.Message? {
          AfterAfter([now.value], Drain(step, rest).messages, Drain(step, Drain(step, rest).leftover + b));
        }
      }
    }
  }

  /** Pushes each chunk in turn and drains after each. */
  ghost function DrainChunks<V>(step: Stepper<V>, buffer: seq<byte>, chunks: seq<seq<byte>>): Drained<V>
    requires Progresses(step)
    decreases |chunks|
  {
    if chunks == [] then Drain(step, buffer)
    else
      var now := Drain(step, buffer + chunks[0]);
      After(now.messages, DrainChunks(step, now.leftover, chunks[1..]))
  }

  function Concat(chunks: seq<seq<byte>>): seq<byte> {
    if chunks == [] then [] else chunks[0] + Concat(chunks[1..])
  }

  lemma OneChunkMore<V>(step: Stepper<V>, buffer: seq<byte>, chunks: seq<seq<byte>>, now: Drained<V>, later: Drained<V>)
    requires Progresses(step) && chunks != []
    requires now == Drain(step, buffer + chunks[0])
    requires later == DrainChunks(step, now.leftover, chunks[1..])
    ensures DrainChunks(step, buffer, chunks) == After(now.messages, later)
  {
  }

  lemma ConcatStep(buffer: seq<byte>, chunks: seq<seq<byte>>)
    requires chunks != []
    ensures buffer + Concat(chunks) == buffer + chunks[0] + Concat(chunks[1..])
  {
  }

  /** Chunking does not matter: any split of a stream gives the messages and leftover of one push. */
  lemma {:induction false} ChunkingDoesNotMatter<V>(step: Stepper<V>, buffer: seq<byte>, chunks: seq<seq<byte>>)
    requires Progresses(step) && Stable(step)
    ensures DrainChunks(step, buffer, chunks) == Drain(step, buffer + Concat(chunks))
    decreases |chunks|
  {
    if chunks == [] {
      assert buffer + [] == buffer;
    } else {
      var now := Drain(step, buffer + chunks[0]);
      ChunkingDoesNotMatter(step, now.leftover, chunks[1..]);
      DrainInTwoParts(step, buffer + chunks[0], Concat(chunks[1..]));
      OneChunkMore(step, buffer, chunks, now, DrainChunks(step, now.leftover, chunks[1..]));
      ConcatStep(buffer, chunks);
    }
  }

  // ---------------------------------------------------------------------
  // The decoder object.

  class Decoder<V(!new)> {
    var buffer: seq<byte>
    /** The arithmetic on the announced length overflowed: the program has stopped. */
    var crashed: bool
    const parse: Parser<V>
    ghost var pushed: seq<byte>
    ghost var yielded: seq<V>

    /** What was yielded, then what the buffer still holds, is what one push of everything gives. */
    ghost predicate Valid()
      reads this
    {
      var step := DecodeStepper(parse);
      && Progresses(step) && Stable(step)
      && Drain(step, pushed) == After(yielded, Drain(step, buffer))
      && (crashed ==> step(buffer).Overflow?)
    }

    constructor (parse: Parser<V>)
      ensures Valid() && pushed == [] && yielded == [] && !crashed
    {
      this.parse := parse;
      buffer, crashed, pushed, yielded := [], false, [], [];
      DecoderSteps(parse);
      AfterAfter([], [], Drain(DecodeStepper(parse), []));
    }

    method Push(chunk: seq<byte>)
      requires Valid() && !crashed
      modifies this
      ensures Valid() && !crashed
      ensures pushed == old(pushed) + chunk && yielded == old(yielded)
    {
      PushKeeps(DecodeStepper(parse), pushed, yielded, buffer, chunk);
      buffer := buffer + chunk;
      pushed := pushed + chunk;
    }

    /**
     * The next message, if one has arrived in full. Once there is none, everything that the bytes
     * pushed so far contain has been yielded, however they were split.
     */
    method NextMessage() returns (message: Option<V>)
      requires Valid() && !crashed
      modifies this
      ensures Valid() && pushed == old(pushed)
      ensures message.Some? ==> !crashed && yielded == old(yielded) + [message.value]
      ensures message.None? ==> yielded == old(yielded)
      ensures message.None? ==> Drain(DecodeStepper(parse), pushed) == Drained(yielded, buffer, crashed)
    {
      hide DecodeStep, Stable;
      while true
        invariant Valid() && !crashed && pushed == old(pushed) && yielded == old(yielded)
        decreases |buffer|
      {
        var step := DecodeOnce(buffer);
        match step {
          case NeedMore =>
            return None;
          case Overflow =>
            crashed := true;
            return None;
          case Skip(n) =>
            buffer := buffer[n..];
          case Message(value, n) =>
            AfterAfter(yielded, [value], Drain(DecodeStepper(parse), buffer[n..]));
            buffer := buffer[n..];
            yielded := yielded + [value];
            return Some(value);
        }
      }
    }

    /** One pass of the decoding loop, without its effect on the buffer. */
    method DecodeOnce(bytes: seq<byte>) returns (step: Step<V>)
      ensures step == DecodeStepper(parse)(bytes)
      ensures step.Skip? || step.Message? ==> 4 <= step.length <= |bytes|
    {
      var headerEnd := Find(bytes, SEPARATOR);
      if headerEnd.None? { return NeedMore; }
      var bodyStart := headerEnd.value + 4;
      var contentLength := ParseContentLength(bytes[..headerEnd.value]);
      if contentLength.None? { return Skip(bodyStart); }
      if bodyStart + contentLength.value >= USIZE { return Overflow; }
      if |bytes| < bodyStart + contentLength.value { return NeedMore; }
      var end := bodyStart + contentLength.value;
      var value := parse(bytes[bodyStart..end]);
      step := if value.Some? then Message(value.value, end) else Skip(end);
    }
  }

  lemma PushKeeps<V>(step: Stepper<V>, pushed: seq<byte>, yielded: seq<V>, buffer: seq<byte>, chunk: seq<byte>)
    requires Progresses(step) && Stable(step)
    requires Drain(step, pushed) == After(yielded, Drain(step, buffer))
    ensures Drain(step, pushed + chunk) == After(yielded, Drain(step, buffer + chunk))
  {
    DrainInTwoParts(step, pushed, chunk);
    DrainInTwoParts(step, buffer, chunk);
    var d := Drain(step, buffer);
    AfterAfter(yielded, d.messages, Drain(step, d.leftover + chunk));
  }

  // ---------------------------------------------------------------------
  // Encoding, and decoding what was encoded.

  function Header(length: nat): string {
    "Content-Length: " + Decimal(length)
  }

  function Frame(body: seq<byte>): seq<byte> {
    Encode8(Header(|body|)) + SEPARATOR + body
  }

  function FrameAll(bodies: seq<seq<byte>>): seq<byte> {
    if bodies == [] then [] else Frame(bodies[0]) + FrameAll(bodies[1..])
  }

  /** The values of the bodies that are valid JSON, in order. */
  function ValidValues<V>(parse: Parser<V>, bodies: seq<seq<byte>>): seq<V> {
    if bodies == [] then []
    else
      (match parse(bodies[0]) case Some(value) => [value] case None => [])
      + ValidValues(parse, bodies[1..])
  }

  /** The program can hold the frame in memory. */
  predicate Fits(body: seq<byte>) {
    |Frame(body)| < USIZE
  }

  lemma TrimHeaderValue(n: nat)
    ensures Trim(" " + Decimal(n)) == Decimal(n)
  {
    var s := " " + Decimal(n);
    var digits := Decimal(n);
    assert s[1..] == digits;
    assert digits[0] in digits && digits[|digits| - 1] in digits;
    assert TrimStart(s) == TrimStart(digits) == digits;
    assert TrimEnd(digits) == digits;
  }

  lemma HeaderHasNoCr(n: nat)
    ensures forall c :: c in Header(n) ==> c != '\r' && c as int < 0x80
  {
  }

  lemma HeaderLines(n: nat)
    ensures SplitLines(Header(n)) == [Header(n)]
  {
    var text := Header(n);
    HeaderHasNoCr(n);
    forall j ensures !OccursAt(text, CRLF, j) {
      if 0 <= j && j + 2 <= |text| {
        assert text[j] in text && text[j..j + 2][0] == text[j];
      }
    }
  }

  lemma HeaderKey(n: nat)
    ensures Find(Header(n), ":") == Some(14)
    ensures Header(n)[..14] == "Content-Length" && Header(n)[15..] == " " + Decimal(n)
  {
    var text := Header(n);
    var key := "Content-Length";
    assert text == key + ": " + Decimal(n);
    assert text[14..15] == ":";
    forall j | 0 <= j < 14 ensures !OccursAt(text, ":", j) {
      assert text[j..j + 1][0] == key[j];
    }
    FindIs(text, ":", 14);
  }

  lemma DecimalParses(n: nat)
    requires n < USIZE
    ensures ParseUsize(Decimal(n)) == Some(n)
  {
    DecimalValue(n);
    assert Decimal(n)[0] in Decimal(n);
  }

  lemma HeaderLength(n: nat)
    requires n < USIZE
    ensures ParseContentLength(Encode8(Header(n))) == Some(n)
  {
    hide Decode8, Encode8, Decimal, ParseUsize, Find, Header, SplitLines;
    DecodeOfEncode8(Header(n));
    HeaderLines(n);
    HeaderKey(n);
    TrimFixpoint("Content-Length");
    TrimHeaderValue(n);
    DecimalParses(n);
    assert LengthInLines([Header(n)]) == Some(n);
  }

  lemma {:induction false} AsciiBytes(s: string)
    requires forall c :: c in s ==> c != '\r' && c as int < 0x80
    ensures forall b :: b in Encode8(s) ==> b != 13
  {
    if s != "" {
      SuffixMembers(s, 1);
      assert s[0] in s;
      AsciiBytes(s[1..]);
    }
  }

  /** The decoder's step on a frame takes exactly that frame, whatever its body contains. */
  lemma StepOnFrame<V>(parse: Parser<V>, body: seq<byte>, rest: seq<byte>)
    requires Fits(body)
    ensures DecodeStep(parse, Frame(body) + rest) ==
            (match parse(body) case Some(value) => Message(value, |Frame(body)|) case None => Skip(|Frame(body)|))
  {
    var header := Encode8(Header(|body|));
    var buffer := Frame(body) + rest;
    FrameSeparator(body, rest);
    assert buffer[..|header|] == header;
    HeaderLength(|body|);
    assert buffer[|header| + 4..|header| + 4 + |body|] == body;
  }

  lemma FrameSeparator(body: seq<byte>, rest: seq<byte>)
    ensures Find(Frame(body) + rest, SEPARATOR) == Some(|Encode8(Header(|body|))|)
  {
    hide Find, FindFrom;
    HeaderSeparator(|body|, body + rest);
    assert Frame(body) + rest == Encode8(Header(|body|)) + SEPARATOR + (body + rest);
  }

  lemma HeaderSeparator(n: nat, rest: seq<byte>)
    ensures Find(Encode8(Header(n)) + SEPARATOR + rest, SEPARATOR) == Some(|Encode8(Header(n))|)
  {
    var header := Encode8(Header(n));
    var buffer := header + SEPARATOR + rest;
    HeaderHasNoCr(n);
    AsciiBytes(Header(n));
    forall j | 0 <= j < |header| ensures !OccursAt(buffer, SEPARATOR, j) {
      assert buffer[j] == header[j] && header[j] in header;
      if j + 4 <= |buffer| { assert buffer[j..j + 4][0] == buffer[j]; }
    }
    assert buffer[|header|..|header| + 4] == SEPARATOR;
    FindIs(buffer, SEPARATOR, |header|);
  }

  /**
   * Concatenated frames decode to exactly their valid messages, even when bodies contain the
   * separator; a frame whose body is not JSON is passed over without disturbing the others.
   */
  lemma {:induction false} FramesDecode<V>(parse: Parser<V>, bodies: seq<seq<byte>>, rest: seq<byte>)
    requires forall body :: body in bodies ==> Fits(body)
    requires Progresses(DecodeStepper(parse))
    ensures Drain(DecodeStepper(parse), FrameAll(bodies) + rest)
         == After(ValidValues(parse, bodies), Drain(DecodeStepper(parse), rest))
  {
    var step := DecodeStepper(parse);
    if bodies == [] {
      assert FrameAll(bodies) + rest == rest;
      AfterAfter([], [], Drain(step, rest));
    } else {
      assert bodies[0] in bodies;
      SuffixMembers(bodies, 1);
      var tail := FrameAll(bodies[1..]) + rest;
      FramesDecode(parse, bodies[1..], rest);
      FirstFrame(parse, bodies[0], tail);
      OneMoreFrame(bodies, rest);
      OneMoreValue(parse, bodies, Drain(step, rest));
    }
  }

  lemma OneMoreFrame(bodies: seq<seq<byte>>, rest: seq<byte>)
    requires bodies != []
    ensures FrameAll(bodies) + rest == Frame(bodies[0]) + (FrameAll(bodies[1..]) + rest)
  {
    hide Frame;
  }

  lemma OneMoreValue<V>(parse: Parser<V>, bodies: seq<seq<byte>>, last: Drained<V>)
    requires bodies != []
    ensures After(ValidValues(parse, bodies), last) ==
            match parse(bodies[0])
            case Some(value) => After([value], After(ValidValues(parse, bodies[1..]), last))
            case None => After(ValidValues(parse, bodies[1..]), last)
  {
    var more := ValidValues(parse, bodies[1..]);
    if parse(bodies[0]).Some? {
      AfterAfter([parse(bodies[0]).value], more, last);
    } else {
      assert [] + more == more;
    }
  }

  lemma FirstFrame<V>(parse: Parser<V>, body: seq<byte>, tail: seq<byte>)
    requires Fits(body) && Progresses(DecodeStepper(parse))
    ensures Drain(DecodeStepper(parse), Frame(body) + tail) ==
            (match parse(body)
             case Some(value) => After([value], Drain(DecodeStepper(parse), tail))
             case None => Drain(DecodeStepper(parse), tail))
  {
    var step := DecodeStepper(parse);
    StepOnFrame(parse, body, tail);
    assert (Frame(body) + tail)[|Frame(body)|..] == tail;
    assert step(Frame(body) + tail) == DecodeStep(parse, Frame(body) + tail);
  }

  // ---------------------------------------------------------------------
  // Any other headers, and any spelling of the key.

  /** A header line: not empty, and without a carriage return. */
  predicate IsLine(line: string) {
    line != "" && '\r' !in line
  }

  /** The line has another key, or none. */
  ghost predicate OtherKey(line: string) {
    ':' !in line ||
    exists key: string, value: string ::
      line == key + [':'] + value && ':' !in key && !EqualIgnoringCase(Trim(key), "Content-Length")
  }

  lemma FirstColon(key: string, value: string)
    requires ':' !in key
    ensures Find(key + [':'] + value, ":") == Some(|key|)
  {
    var line := key + [':'] + value;
    assert line[|key|..|key| + 1] == ":";
    forall j | 0 <= j < |key|
      ensures !OccursAt(line, ":", j)
    {
      assert line[j..j + 1][0] == key[j] && key[j] in key;
    }
    FindIs(line, ":", |key|);
  }

  lemma NoColon(line: string)
    requires ':' !in line
    ensures Find(line, ":") == None
  {
    forall j: nat
      ensures !OccursAt(line, ":", j)
    {
      if j < |line| { assert line[j..j + 1][0] == line[j] && line[j] in line; }
    }
  }

  lemma OtherKeyIsSkipped(line: string, lines: seq<string>)
    requires OtherKey(line)
    ensures LengthInLines([line] + lines) == LengthInLines(lines)
  {
    hide Find, Trim, ParseUsize, EqualIgnoringCase;
    assert ([line] + lines)[1..] == lines;
    if ':' !in line {
      NoColon(line);
    } else {
      var key: string, value: string :|
        line == key + [':'] + value && ':' !in key && !EqualIgnoringCase(Trim(key), "Content-Length");
      FirstColon(key, value);
      assert line[..|key|] == key;
    }
  }

  lemma {:induction false} KeyIsFound(before: seq<string>, key: string, value: string, after: seq<string>)
    requires forall line :: line in before ==> OtherKey(line)
    requires ':' !in key && EqualIgnoringCase(Trim(key), "Content-Length")
    ensures LengthInLines(before + [key + [':'] + value] + after) == ParseUsize(Trim(value))
    decreases |before|
  {
    hide Find, Trim, ParseUsize, EqualIgnoringCase, OtherKey;
    var line := key + [':'] + value;
    if before == [] {
      FirstColon(key, value);
      assert line[..|key|] == key && line[|key| + 1..] == value;
      assert [] + [line] + after == [line] + after;
    } else {
      SuffixMembers(before, 1);
      assert before[0] in before;
      KeyIsFound(before[1..], key, value, after);
      OtherKeyIsSkipped(before[0], before[1..] + [line] + after);
      assert before + [line] + after == [before[0]] + (before[1..] + [line] + after);
    }
  }

  lemma NoBreakInside(line: string, rest: string)
    requires IsLine(line)
    ensures Find(line, CRLF) == None
    ensures Find(line + CRLF + rest, CRLF) == Some(|line|)
  {
    var text := line + CRLF + rest;
    assert text[|line|..|line| + 2] == CRLF;
    forall j | 0 <= j < |line|
      ensures !OccursAt(text, CRLF, j) && !OccursAt(line, CRLF, j)
    {
      assert line[j] in line && text[j] == line[j];
      assert j + 2 <= |text| ==> text[j..j + 2][0] == text[j];
      assert j + 2 <= |line| ==> line[j..j + 2][0] == line[j];
    }
    FindIs(text, CRLF, |line|);
  }

  lemma {:induction false} LinesOfHeader(lines: seq<string>)
    requires lines != [] && forall line :: line in lines ==> IsLine(line)
    ensures SplitLines(Join(lines, CRLF)) == lines
    decreases |lines|
  {
    hide Find, IsLine;
    assert lines[0] in lines;
    if |lines| == 1 {
      NoBreakInside(lines[0], "");
      assert Join(lines, CRLF) == lines[0];
    } else {
      var rest := Join(lines[1..], CRLF);
      SuffixMembers(lines, 1);
      LinesOfHeader(lines[1..]);
      NoBreakInside(lines[0], rest);
      var text := lines[0] + CRLF + rest;
      assert Join(lines, CRLF) == text;
      assert text[..|lines[0]|] == lines[0] && text[|lines[0]| + 2..] == rest;
      assert lines == [lines[0]] + lines[1..];
    }
  }

  /** The announced length is found in any letter case after any number of other header lines. */
  lemma LengthIsFound(before: seq<string>, key: string, value: string, after: seq<string>)
    requires forall line :: line in before + [key + [':'] + value] + after ==> IsLine(line)
    requires forall line :: line in before ==> OtherKey(line)
    requires ':' !in key && EqualIgnoringCase(Trim(key), "Content-Length")
    ensures ParseContentLength(Encode8(Join(before + [key + [':'] + value] + after, CRLF))) == ParseUsize(Trim(value))
  {
    hide Find, Trim, ParseUsize, IsLine, OtherKey, EqualIgnoringCase, SplitLines, LengthInLines, Decode8, Encode8;
    var lines := before + [key + [':'] + value] + after;
    DecodeOfEncode8(Join(lines, CRLF));
    LinesOfHeader(lines);
    KeyIsFound(before, key, value, after);
  }

  lemma EncodeOfFirst(c: char, rest: string)
    ensures Encode8([c] + rest) == EncodeChar8(c) + Encode8(rest)
  {
    assert ([c] + rest)[1..] == rest;
  }

  lemma EncodeOfConcatStep(c: char, a: string, b: string)
    requires Encode8(a + b) == Encode8(a) + Encode8(b)
    ensures Encode8([c] + a + b) == Encode8([c] + a) + Encode8(b)
  {
    hide *;
    EncodeOfFirst(c, a);
    EncodeOfFirst(c, a + b);
    assert [c] + a + b == [c] + (a + b);
  }

  lemma {:induction false} EncodeOfConcat(a: string, b: string)
    ensures Encode8(a + b) == Encode8(a) + Encode8(b)
  {
    if a == "" {
      assert a + b == b;
    } else {
      hide *;
      EncodeOfConcat(a[1..], b);
      EncodeOfConcatStep(a[0], a[1..], b);
      assert a == [a[0]] + a[1..];
    }
  }

  lemma {:induction false} LineBytes(s: string)
    requires '\r' !in s
    ensures 13 !in Encode8(s) && (s != "" ==> Encode8(s) != [])
  {
    if s != "" {
      SuffixMembers(s, 1);
      assert s[0] in s && s[0] != '\r';
      LineBytes(s[1..]);
      assert 13 !in EncodeChar8(s[0]);
    }
  }

  lemma BreakBytes()
    ensures Encode8(CRLF) == [13, 10]
  {
    assert CRLF[1..] == "\n" && "\n"[1..] == "";
    assert Encode8("\n") == [10];
  }

  /** The blank line after the header is the first one. */
  lemma {:induction false} FirstBlankLine(lines: seq<string>, rest: seq<byte>)
    requires lines != [] && forall line :: line in lines ==> IsLine(line)
    ensures var header := Encode8(Join(lines, CRLF));
      && header != [] && header[0] != 13
      && forall j :: 0 <= j < |header| ==> !OccursAt(header + SEPARATOR + rest, SEPARATOR, j)
    decreases |lines|
  {
    hide Encode8;
    assert lines[0] in lines;
    var first := Encode8(lines[0]);
    LineBytes(lines[0]);
    assert first[0] in first;
    if |lines| == 1 {
      assert Join(lines, CRLF) == lines[0];
      NotInLine(first, [], rest);
    } else {
      SuffixMembers(lines, 1);
      FirstBlankLine(lines[1..], rest);
      var more := Encode8(Join(lines[1..], CRLF));
      EncodeOfConcat(lines[0] + CRLF, Join(lines[1..], CRLF));
      EncodeOfConcat(lines[0], CRLF);
      BreakBytes();
      assert Encode8(Join(lines, CRLF)) == first + [13, 10] + more;
      NotInLine(first, more, rest);
    }
  }

  /** No blank line starts in a line, nor in the break after it if another line follows. */
  lemma NotInLine(first: seq<byte>, more: seq<byte>, rest: seq<byte>)
    requires 13 !in first && (more != [] ==> more[0] != 13)
    requires forall j :: 0 <= j < |more| ==> !OccursAt(more + SEPARATOR + rest, SEPARATOR, j)
    ensures more == [] ==> forall j :: 0 <= j < |first| ==> !OccursAt(first + SEPARATOR + rest, SEPARATOR, j)
    ensures more != [] ==>
      forall j :: 0 <= j < |first| + 2 + |more| ==> !OccursAt(first + [13, 10] + more + SEPARATOR + rest, SEPARATOR, j)
  {
    if more == [] {
      var bytes := first + SEPARATOR + rest;
      forall j | 0 <= j < |first|
        ensures !OccursAt(bytes, SEPARATOR, j)
      {
        assert first[j] in first && bytes[j] == first[j];
        assert j + 4 <= |bytes| ==> bytes[j..j + 4][0] == bytes[j];
      }
    } else {
      var bytes := first + [13, 10] + more + SEPARATOR + rest;
      forall j | 0 <= j < |first| + 2 + |more|
        ensures !OccursAt(bytes, SEPARATOR, j)
      {
        NotAt(first, more, rest, j);
      }
    }
  }

  lemma NotAt(first: seq<byte>, more: seq<byte>, rest: seq<byte>, j: nat)
    requires 13 !in first && more != [] && more[0] != 13 && j < |first| + 2 + |more|
    requires forall j :: 0 <= j < |more| ==> !OccursAt(more + SEPARATOR + rest, SEPARATOR, j)
    ensures !OccursAt(first + [13, 10] + more + SEPARATOR + rest, SEPARATOR, j)
  {
    var bytes := first + [13, 10] + more + SEPARATOR + rest;
    var tail := more + SEPARATOR + rest;
    if j + 4 <= |bytes| {
      assert bytes[j..j + 4][0] == bytes[j] && bytes[j..j + 4][2] == bytes[j + 2];
      if j < |first| {
        assert first[j] in first && bytes[j] == first[j];
      } else if j >= |first| + 2 {
        assert bytes == (first + [13, 10]) + tail;
        assert bytes[j..j + 4] == tail[j - |first| - 2..j - |first| - 2 + 4];
        assert !OccursAt(tail, SEPARATOR, j - |first| - 2);
      }
    }
  }

  /** So a message is read behind any headers that announce its length. */
  lemma StepOnHeaders<V>(parse: Parser<V>, before: seq<string>, key: string, value: string, after: seq<string>,
                         body: seq<byte>, rest: seq<byte>)
    requires forall line :: line in before + [key + [':'] + value] + after ==> IsLine(line)
    requires forall line :: line in before ==> OtherKey(line)
    requires ':' !in key && EqualIgnoringCase(Trim(key), "Content-Length") && Trim(value) == Decimal(|body|)
    requires |Encode8(Join(before + [key + [':'] + value] + after, CRLF))| + 4 + |body| < USIZE
    ensures var n := |Encode8(Join(before + [key + [':'] + value] + after, CRLF))| + 4 + |body|;
      DecodeStep(parse, Encode8(Join(before + [key + [':'] + value] + after, CRLF)) + SEPARATOR + body + rest) ==
      (match parse(body) case Some(v) => Message(v, n) case None => Skip(n))
  {
    hide Find, ParseContentLength, Encode8, IsLine, OtherKey, Trim, EqualIgnoringCase, Decimal;
    var lines := before + [key + [':'] + value] + after;
    var header := Encode8(Join(lines, CRLF));
    var buffer := header + SEPARATOR + body + rest;
    assert lines[|before|] in lines;
    FirstBlankLine(lines, body + rest);
    assert buffer == header + SEPARATOR + (body + rest);
    assert buffer[|header|..|header| + 4] == SEPARATOR;
    FindIs(buffer, SEPARATOR, |header|);
    LengthIsFound(before, key, value, after);
    DecimalParses(|body|);
    assert buffer[..|header|] == header && buffer[|header| + 4..|header| + 4 + |body|] == body;
  }

  // ---------------------------------------------------------------------
  // When the program stops.

  /** Steps from the start of the stream consume exactly its first `k` bytes. */
  ghost predicate Boundary<V>(step: Stepper<V>, stream: seq<byte>, k: nat)
    requires Progresses(step)
    decreases |stream|
  {
    k == 0
    || ((step(stream).Skip? || step(stream).Message?) && step(stream).length <= k
        && Boundary(step, stream[step(stream).length..], k - step(stream).length))
  }

  /** The stream opens with a header block whose announced end is not a machine word. */
  predicate AnnouncesTooMuch(stream: seq<byte>) {
    var headerEnd := Find(stream, SEPARATOR);
    && headerEnd.Some?
    && ParseContentLength(stream[..headerEnd.value]).Some?
    && headerEnd.value + 4 + ParseContentLength(stream[..headerEnd.value]).value >= USIZE
  }

  ghost predicate StopsAt<V>(step: Stepper<V>, stream: seq<byte>, k: nat)
    requires Progresses(step)
  {
    k <= |stream| && Boundary(step, stream, k) && step(stream[k..]).Overflow?
  }

  lemma {:induction false} StopsAtBoundary<V>(step: Stepper<V>, stream: seq<byte>)
    requires Progresses(step)
    ensures Drain(step, stream).crashed <==> exists k: nat :: StopsAt(step, stream, k)
    decreases |stream|
  {
    var now := step(stream);
    assert stream[0..] == stream;
    if now.Skip? || now.Message? {
      var rest := stream[now.length..];
      StopsAtBoundary(step, rest);
      assert Drain(step, stream).crashed <==> Drain(step, rest).crashed;
      forall k: nat
        ensures StopsAt(step, stream, k) <==> k >= now.length && StopsAt(step, rest, k - now.length)
      {
        if now.length <= k <= |stream| { assert stream[k..] == rest[k - now.length..]; }
      }
      if k: nat :| StopsAt(step, rest, k) {
        assert StopsAt(step, stream, k + now.length);
      }
    } else if now.Overflow? {
      assert StopsAt(step, stream, 0);
    } else {
      forall k: nat
        ensures !StopsAt(step, stream, k)
      {
      }
    }
  }

  /** At a frame boundary the rest of the stream announces too much. */
  ghost predicate TooMuchAt<V>(step: Stepper<V>, stream: seq<byte>, k: nat)
    requires Progresses(step)
  {
    k <= |stream| && Boundary(step, stream, k) && AnnouncesTooMuch(stream[k..])
  }

  lemma StopsWhereTooMuch<V>(step: Stepper<V>, stream: seq<byte>)
    requires Progresses(step) && forall s :: step(s).Overflow? <==> AnnouncesTooMuch(s)
    ensures Drain(step, stream).crashed <==> exists k: nat :: TooMuchAt(step, stream, k)
  {
    hide Drain, AnnouncesTooMuch, Boundary;
    StopsAtBoundary(step, stream);
    forall k: nat
      ensures StopsAt(step, stream, k) <==> TooMuchAt(step, stream, k)
    {
    }
  }

  /** The program stops exactly if, at some frame boundary, header and announced length together overflow the word. */
  lemma CrashesExactly<V>(parse: Parser<V>, stream: seq<byte>)
    requires Progresses(DecodeStepper(parse))
    ensures Drain(DecodeStepper(parse), stream).crashed <==>
            exists k: nat :: TooMuchAt(DecodeStepper(parse), stream, k)
  {
    hide Drain, AnnouncesTooMuch, Boundary;
    forall s
      ensures DecodeStepper(parse)(s).Overflow? <==> AnnouncesTooMuch(s)
    {
      OverflowIsAnnounced(parse, s);
    }
    StopsWhereTooMuch(DecodeStepper(parse), stream);
  }

  lemma OverflowIsAnnounced<V>(parse: Parser<V>, stream: seq<byte>)
    ensures DecodeStepper(parse)(stream).Overflow? <==> AnnouncesTooMuch(stream)
  {
  }

  /** No header block within the stream announces a length that is within the stream's length of the word's end. */
  ghost predicate ModestLengths(stream: seq<byte>) {
    forall i, j :: 0 <= i <= j && OccursAt(stream, SEPARATOR, j) && ParseContentLength(stream[i..j]).Some? ==>
      ParseContentLength(stream[i..j]).value + |stream| < USIZE
  }

  /** A stream without outsized lengths never stops the program. */
  lemma ModestLengthsAreSafe<V>(parse: Parser<V>, stream: seq<byte>)
    requires Progresses(DecodeStepper(parse)) && ModestLengths(stream)
    ensures !Drain(DecodeStepper(parse), stream).crashed
  {
    hide Drain, AnnouncesTooMuch, Boundary, ModestLengths;
    CrashesExactly(parse, stream);
    forall k: nat | k <= |stream|
      ensures !AnnouncesTooMuch(stream[k..])
    {
      ModestTail(stream, k);
    }
  }

  lemma ModestTail(stream: seq<byte>, k: nat)
    requires ModestLengths(stream) && k <= |stream|
    ensures !AnnouncesTooMuch(stream[k..])
  {
    hide ParseContentLength;
    var tail := stream[k..];
    if Find(tail, SEPARATOR).Some? {
      var h := Find(tail, SEPARATOR).value;
      assert tail[h..h + 4] == stream[k + h..k + h + 4];
      assert OccursAt(stream, SEPARATOR, k + h) && tail[..h] == stream[k..k + h];
    }
  }

  /** A first header that announces too large a length stops the program, whatever follows. */
  lemma LargeLengthCrashes<V>(parse: Parser<V>, n: nat, rest: seq<byte>)
    requires Progresses(DecodeStepper(parse))
    requires n < USIZE <= |Encode8(Header(n))| + 4 + n
    ensures Drain(DecodeStepper(parse), Encode8(Header(n)) + SEPARATOR + rest).crashed
  {
    hide Encode8, Find, ParseContentLength, Header, DecodeStep;
    var stream := Encode8(Header(n)) + SEPARATOR + rest;
    HeaderSeparator(n, rest);
    HeaderLength(n);
    assert stream[..|Encode8(Header(n))|] == Encode8(Header(n));
    OverflowIsAnnounced(parse, stream);
  }

  /** The largest machine word is such a length. */
  lemma LargestLengthCrashes<V>(parse: Parser<V>)
    ensures Progresses(DecodeStepper(parse))
    ensures Drain(DecodeStepper(parse), Encode8(Header(USIZE - 1)) + SEPARATOR).crashed
  {
    DecoderSteps(parse);
    var stream := Encode8(Header(USIZE - 1)) + SEPARATOR;
    assert stream + [] == stream;
    LargeLengthCrashes(parse, USIZE - 1, []);
  }

  function Bodies<V>(write: V -> seq<byte>, messages: seq<V>): seq<seq<byte>> {
    if messages == [] then [] else [write(messages[0])] + Bodies(write, messages[1..])
  }

  /** Encoded messages come back, all of them, in order, from any split of their bytes. */
  lemma EncodedMessagesComeBack<V(!new)>(
      parse: Parser<V>, write: V -> seq<byte>, messages: seq<V>, chunks: seq<seq<byte>>)
    requires forall m :: m in messages ==> parse(write(m)) == Some(m) && Fits(write(m))
    requires Concat(chunks) == FrameAll(Bodies(write, messages))
    ensures Progresses(DecodeStepper(parse))
    ensures DrainChunks(DecodeStepper(parse), [], chunks) == Drained(messages, [], false)
  {
    var step := DecodeStepper(parse);
    var bodies := Bodies(write, messages);
    DecoderSteps(parse);
    ChunkingDoesNotMatter(step, [], chunks);
    assert [] + Concat(chunks) == FrameAll(bodies) + [];
    WrittenBodies(parse, write, messages);
    FramesDecode(parse, bodies, []);
    NothingInNothing(parse);
    assert messages + [] == messages;
  }

  lemma NothingInNothing<V>(parse: Parser<V>)
    requires Progresses(DecodeStepper(parse))
    ensures Drain(DecodeStepper(parse), []) == Drained([], [], false)
  {
    assert DecodeStepper(parse)([]) == DecodeStep(parse, []) == NeedMore;
  }

  lemma {:induction false} WrittenBodies<V(!new)>(parse: Parser<V>, write: V -> seq<byte>, messages: seq<V>)
    requires forall m :: m in messages ==> parse(write(m)) == Some(m) && Fits(write(m))
    ensures forall body :: body in Bodies(write, messages) ==> Fits(body)
    ensures ValidValues(parse, Bodies(write, messages)) == messages
  {
    if messages != [] {
      SuffixMembers(messages, 1);
      assert messages[0] in messages;
      WrittenBodies(parse, write, messages[1..]);
      assert Bodies(write, messages)[1..] == Bodies(write, messages[1..]);
    }
  }
}
