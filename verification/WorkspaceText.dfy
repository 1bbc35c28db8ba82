/** Reading and saving workspace text: byte order marks, detection and the two round trips. */
module WorkspaceText {
  import opened Wrappers
  import opened Text
  import opened Unicode

  datatype Encoding = Utf8 | Utf16Le | Utf16Be

  datatype Decoded = Decoded(text: string, encoding: Encoding, bom: bool)

  /** `LegacyGuess` stands for the detector of legacy encodings, whose answer is not modelled. */
  datatype DecodeError = DataLoss(encoding: Encoding) | Binary | LegacyGuess

  const BOM: char := '\U{FEFF}'

  function Mark(e: Encoding): seq<byte> {
    match e
    case Utf8 => [0xEF, 0xBB, 0xBF]
    case Utf16Le => [0xFF, 0xFE]
    case Utf16Be => [0xFE, 0xFF]
  }

  function EncodePayload(text: string, e: Encoding): seq<byte> {
    match e
    case Utf8 => Encode8(text)
    case Utf16Le => UnitsToBytes(Encode16(text), false)
    case Utf16Be => UnitsToBytes(Encode16(text), true)
  }

  function DecodePayload(payload: seq<byte>, e: Encoding): Option<string> {
    match e
    case Utf8 => Decode8(payload)
    case _ =>
      match BytesToUnits(payload, e.Utf16Be?)
      case None => None
      case Some(units) => Decode16(units)
  }

  function Encode(text: string, e: Encoding, bom: bool): seq<byte> {
    (if bom then Mark(e) else []) + EncodePayload(text, e)
  }

  /** The code units of `text`, appended one by one as bytes; UTF-8 is encoded as a whole. */
  method EncodeText(text: string, e: Encoding, bom: bool) returns (bytes: seq<byte>)
    ensures bytes == Encode(text, e, bom)
  {
    if e.Utf8? {
      bytes := Encode8(text);
    } else {
      var units := Encode16(text);
      bytes := [];
      for i := 0 to |units|
        invariant bytes == UnitsToBytes(units[..i], e.Utf16Be?)
      {
        UnitsToBytesAppend(units[..i], units[i], e.Utf16Be?);
        assert units[..i + 1] == units[..i] + [units[i]];
        bytes := bytes + UnitBytes(units[i], e.Utf16Be?);
      }
      assert units[..|units|] == units;
    }
    if bom {
      bytes := Mark(e) + bytes;
    }
  }

  // ---------------------------------------------------------------------
  // Detection.

  /** How many pairs of `bytes` hold a zero at the given place. */
  function ZeroPairs(bytes: seq<byte>, second: bool): (n: nat)
    ensures 2 * n <= |bytes|
  {
    if |bytes| < 2 then 0
    else (if bytes[if second then 1 else 0] == 0 then 1 else 0) + ZeroPairs(bytes[2..], second)
  }

  lemma ZeroPairsAppend(bytes: seq<byte>, a: byte, b: byte, second: bool)
    requires |bytes| % 2 == 0
    ensures ZeroPairs(bytes + [a, b], second) ==
            ZeroPairs(bytes, second) + if (if second then b else a) == 0 then 1 else 0
  {
    if bytes == [] {
      assert bytes + [a, b] == [a, b];
    } else {
      ZeroPairsAppend(bytes[2..], a, b, second);
      assert (bytes + [a, b])[2..] == bytes[2..] + [a, b];
    }
  }

  /** Two thirds of the pairs having a zero in the same place suggest UTF-16. */
  function Detect(bytes: seq<byte>): Option<Encoding> {
    if |bytes| < 2 || |bytes| % 2 != 0 then None
    else
      var total := |bytes| / 2;
      if ZeroPairs(bytes, true) * 3 >= total * 2 then Some(Utf16Le)
      else if ZeroPairs(bytes, false) * 3 >= total * 2 then Some(Utf16Be)
      else None
  }

  method DetectUtf16WithoutBom(bytes: seq<byte>) returns (r: Option<Encoding>)
    ensures r == Detect(bytes)
  {
    if |bytes| < 2 || |bytes| % 2 != 0 { return None; }
    var evenZeroes, oddZeroes := 0, 0;
    for i := 0 to |bytes| / 2
      invariant evenZeroes == ZeroPairs(bytes[..2 * i], false)
      invariant oddZeroes == ZeroPairs(bytes[..2 * i], true)
    {
      ZeroPairsAppend(bytes[..2 * i], bytes[2 * i], bytes[2 * i + 1], false);
      ZeroPairsAppend(bytes[..2 * i], bytes[2 * i], bytes[2 * i + 1], true);
      assert bytes[..2 * (i + 1)] == bytes[..2 * i] + [bytes[2 * i], bytes[2 * i + 1]];
      if bytes[2 * i] == 0 { evenZeroes := evenZeroes + 1; }
      if bytes[2 * i + 1] == 0 { oddZeroes := oddZeroes + 1; }
    }
    assert bytes[..2 * (|bytes| / 2)] == bytes;
    var total := |bytes| / 2;
    if oddZeroes * 3 >= total * 2 { return Some(Utf16Le); }
    if evenZeroes * 3 >= total * 2 { return Some(Utf16Be); }
    return None;
  }

  predicate IsControlByte(b: byte) {
    b < 0x09 || (b > 0x0D && b < 0x20)
  }

  function Controls(bytes: seq<byte>): nat {
    if bytes == [] then 0 else (if IsControlByte(bytes[0]) then 1 else 0) + Controls(bytes[1..])
  }

  /** More than two percent of control bytes. */
  predicate LooksBinary(bytes: seq<byte>) {
    bytes != [] && Controls(bytes) * 100 > |bytes| * 2
  }

  /** How many of the bytes are control characters other than white space. */
  ghost function ControlPlaces(bytes: seq<byte>): set<nat> {
    set i: nat | i < |bytes| && (bytes[i] < 9 || 13 < bytes[i] < 32)
  }

  /** Where a pair of bytes has a zero at the given place. */
  ghost function ZeroPlaces(bytes: seq<byte>, second: bool): set<nat> {
    set i: nat | i < |bytes| / 2 && bytes[if second then 2 * i + 1 else 2 * i] == 0
  }

  lemma ControlsAppend(bytes: seq<byte>, b: byte)
    ensures Controls(bytes + [b]) == Controls(bytes) + if IsControlByte(b) then 1 else 0
  {
    if bytes == [] {
      assert bytes + [b] == [b];
    } else {
      ControlsAppend(bytes[1..], b);
      assert (bytes + [b])[1..] == bytes[1..] + [b];
    }
  }

  lemma {:induction false} ControlsAreCounted(bytes: seq<byte>)
    ensures |ControlPlaces(bytes)| == Controls(bytes)
    decreases |bytes|
  {
    hide Controls;
    if bytes == [] {
      assert ControlPlaces(bytes) == {};
      NoControls();
    } else {
      var n := |bytes| - 1;
      var front := bytes[..n];
      ControlsAreCounted(front);
      ControlsAppend(front, bytes[n]);
      assert bytes == front + [bytes[n]];
      assert ControlPlaces(bytes) == ControlPlaces(front) + if IsControlByte(bytes[n]) then {n} else {};
    }
  }

  lemma NoControls()
    ensures Controls([]) == 0
  {
  }

  lemma OnePairMore(front: seq<byte>, a: byte, b: byte, second: bool)
    requires |front| % 2 == 0
    ensures ZeroPlaces(front + [a, b], second) ==
      ZeroPlaces(front, second) + if (if second then b else a) == 0 then {|front| / 2} else {}
    ensures |front| / 2 !in ZeroPlaces(front, second)
  {
    var bytes, n := front + [a, b], |front| / 2;
    forall i: nat | i < n
      ensures bytes[2 * i] == front[2 * i] && bytes[2 * i + 1] == front[2 * i + 1]
    {
    }
    assert bytes[2 * n] == a && bytes[2 * n + 1] == b;
  }

  lemma {:induction false} ZerosAreCounted(bytes: seq<byte>, second: bool)
    requires |bytes| % 2 == 0
    ensures |ZeroPlaces(bytes, second)| == ZeroPairs(bytes, second)
    decreases |bytes|
  {
    if bytes == [] {
      assert ZeroPlaces(bytes, second) == {};
    } else {
      hide ZeroPairs, ZeroPlaces;
      var n := |bytes| - 2;
      ZerosAreCounted(bytes[..n], second);
      ZeroPairsAppend(bytes[..n], bytes[n], bytes[n + 1], second);
      OnePairMore(bytes[..n], bytes[n], bytes[n + 1], second);
      assert bytes == bytes[..n] + [bytes[n], bytes[n + 1]];
    }
  }

  /** Bytes look binary exactly if more than two percent of them are control characters. */
  lemma BinaryExactly(bytes: seq<byte>)
    ensures LooksBinary(bytes) <==> 100 * |ControlPlaces(bytes)| > 2 * |bytes|
  {
    ControlsAreCounted(bytes);
  }

  /** UTF-16 is suspected exactly if two thirds of the pairs have a zero in the same place; little endian comes first. */
  lemma DetectsExactly(bytes: seq<byte>)
    ensures Detect(bytes) == Some(Utf16Le) <==>
      |bytes| >= 2 && |bytes| % 2 == 0 && 3 * |ZeroPlaces(bytes, true)| >= 2 * (|bytes| / 2)
    ensures Detect(bytes) == Some(Utf16Be) <==>
      && |bytes| >= 2 && |bytes| % 2 == 0
      && 3 * |ZeroPlaces(bytes, true)| < 2 * (|bytes| / 2) <= 3 * |ZeroPlaces(bytes, false)|
    ensures Detect(bytes) != Some(Utf8)
  {
    if |bytes| % 2 == 0 {
      ZerosAreCounted(bytes, true);
      ZerosAreCounted(bytes, false);
    }
  }

  // ---------------------------------------------------------------------
  // Reading.

  /** The encoding and the mark that the bytes are read with, if no legacy guess is needed. */
  function Select(bytes: seq<byte>, requested: Option<Encoding>): Option<(Encoding, bool)> {
    if requested.Some? then Some((requested.value, StartsWith(bytes, Mark(requested.value))))
    else if StartsWith(bytes, Mark(Utf8)) then Some((Utf8, true))
    else if StartsWith(bytes, Mark(Utf16Le)) then Some((Utf16Le, true))
    else if StartsWith(bytes, Mark(Utf16Be)) then Some((Utf16Be, true))
    else if Detect(bytes).Some? then Some((Detect(bytes).value, false))
    else if Decode8(bytes).Some? then Some((Utf8, false))
    else None
  }

  function Decode(bytes: seq<byte>, requested: Option<Encoding>): Result<Decoded, DecodeError> {
    match Select(bytes, requested)
    case None => Err(LegacyGuess)
    case Some((e, bom)) =>
      var payload := if bom && |Mark(e)| <= |bytes| then bytes[|Mark(e)|..] else bytes;
      match DecodePayload(payload, e)
      case None => Err(DataLoss(e))
      case Some(text) =>
        if e.Utf8? && LooksBinary(bytes) then Err(Binary) else Ok(Decoded(text, e, bom))
  }

  lemma PayloadRoundTrip(text: string, e: Encoding)
    ensures DecodePayload(EncodePayload(text, e), e) == Some(text)
  {
    if e.Utf8? {
      DecodeOfEncode8(text);
    } else {
      DecodeOfEncode16(text);
      UnitsOfBytes(Encode16(text), e.Utf16Be?);
    }
  }

  lemma PayloadUnchanged(payload: seq<byte>, e: Encoding)
    requires DecodePayload(payload, e).Some?
    ensures EncodePayload(DecodePayload(payload, e).value, e) == payload
  {
    if e.Utf8? {
      EncodeOfDecode8(payload);
    } else {
      BytesOfUnits(payload, e.Utf16Be?);
      EncodeOfDecode16(BytesToUnits(payload, e.Utf16Be?).value);
    }
  }

  /** Reading a file and saving it unchanged writes back the same bytes, mark included. */
  lemma ReadThenSave(bytes: seq<byte>, requested: Option<Encoding>)
    requires Decode(bytes, requested).Ok?
    ensures var d := Decode(bytes, requested).value; Encode(d.text, d.encoding, d.bom) == bytes
  {
    var (e, bom) := Select(bytes, requested).value;
    var payload := if bom && |Mark(e)| <= |bytes| then bytes[|Mark(e)|..] else bytes;
    PayloadUnchanged(payload, e);
    assert bom ==> bytes == Mark(e) + payload;
  }

  // ---------------------------------------------------------------------
  // Saving, then reading.

  predicate StartsWithBom(text: string) {
    text != "" && text[0] == BOM
  }

  /** An encoded text begins with its encoding's mark only if it begins with U+FEFF. */
  lemma MarkIsEncodedBom(text: string, e: Encoding)
    ensures StartsWith(EncodePayload(text, e), Mark(e)) <==> StartsWithBom(text)
  {
    if text != "" {
      var bytes := EncodePayload(text, e);
      if e.Utf8? {
        var c := text[0];
        DecodeEncodedChar8(c, Encode8(text[1..]));
        assert EncodeChar8(BOM) == Mark(Utf8);
        if StartsWith(bytes, Mark(e)) {
          assert bytes == Mark(e) + bytes[3..];
          DecodeEncodedChar8(BOM, bytes[3..]);
        }
        if StartsWithBom(text) {
          assert bytes[..3] == Mark(e);
        }
      } else {
        var units := Encode16(text);
        assert units[0] == EncodeChar16(text[0])[0];
        assert bytes[0] == UnitBytes(units[0], e.Utf16Be?)[0] && bytes[1] == UnitBytes(units[0], e.Utf16Be?)[1];
        assert bytes[..2] == [bytes[0], bytes[1]];
      }
    }
  }

  /** With its own encoding requested, a saved text reads back unchanged exactly in these cases. */
  lemma SaveThenReadRequested(text: string, e: Encoding, bom: bool)
    ensures Decode(Encode(text, e, bom), Some(e)) == Ok(Decoded(text, e, bom)) <==>
            (bom || !StartsWithBom(text)) && (e.Utf8? ==> !LooksBinary(Encode(text, e, bom)))
  {
    var bytes := Encode(text, e, bom);
    PayloadRoundTrip(text, e);
    MarkIsEncodedBom(text, e);
    if bom {
      assert bytes[..|Mark(e)|] == Mark(e) && bytes[|Mark(e)|..] == EncodePayload(text, e);
    } else {
      assert bytes == EncodePayload(text, e);
    }
  }

  /** A written mark is always recognised. */
  lemma SaveWithBomThenDetect(text: string, e: Encoding)
    ensures Decode(Encode(text, e, true), None) == Ok(Decoded(text, e, true)) <==>
            (e.Utf8? ==> !LooksBinary(Encode(text, e, true)))
  {
    hide Detect, Decode8, EncodePayload, DecodePayload, LooksBinary;
    var bytes := Encode(text, e, true);
    PayloadRoundTrip(text, e);
    assert bytes[..|Mark(e)|] == Mark(e) && bytes[|Mark(e)|..] == EncodePayload(text, e);
    assert forall k :: 0 <= k < |Mark(e)| ==> bytes[k] == Mark(e)[k];
    assert !StartsWith(bytes, Mark(if e.Utf16Le? then Utf8 else Utf16Le)) by {
      assert bytes[..2][0] == Mark(e)[0];
    }
    assert e.Utf16Be? ==> !StartsWith(bytes, Mark(Utf8));
  }

  /** No mark at the front that detection would act on. */
  predicate Unmarked(bytes: seq<byte>) {
    !StartsWith(bytes, Mark(Utf8)) && !StartsWith(bytes, Mark(Utf16Le)) && !StartsWith(bytes, Mark(Utf16Be))
  }

  /** Without a mark, detection gives a saved text back exactly when it picks its encoding. */
  lemma SaveWithoutBomThenDetect(text: string, e: Encoding)
    ensures var bytes := Encode(text, e, false);
      Decode(bytes, None) == Ok(Decoded(text, e, false)) <==>
      && Unmarked(bytes)
      && Detect(bytes) == (if e.Utf8? then None else Some(e))
      && (e.Utf8? ==> !LooksBinary(bytes))
  {
    hide Encode8, LooksBinary, ZeroPairs, StartsWith;
    PayloadRoundTrip(text, e);
    assert Encode(text, e, false) == EncodePayload(text, e);
  }

  // ---------------------------------------------------------------------
  // Texts for which detection is right.

  predicate NulFree(text: string) {
    forall c :: c in text ==> c != '\0'
  }

  lemma NulFreeBytes(text: string)
    requires NulFree(text)
    ensures forall b :: b in Encode8(text) ==> b != 0
  {
    if text != "" {
      SuffixMembers(text, 1);
      NulFreeBytes(text[1..]);
      var n := text[0] as int;
      assert text[0] in text && n > 0;
    }
  }

  lemma NoZeroPairs(bytes: seq<byte>, second: bool)
    requires forall b :: b in bytes ==> b != 0
    ensures ZeroPairs(bytes, second) == 0
  {
    if |bytes| >= 2 {
      SuffixMembers(bytes, 2);
      assert bytes[0] in bytes && bytes[1] in bytes;
      NoZeroPairs(bytes[2..], second);
    }
  }

  lemma FirstByte8(text: string)
    ensures Encode8(text) != [] ==> Encode8(text)[0] < 0xF8
  {
  }

  /** UTF-8 without NUL and without a leading U+FEFF survives saving without a mark. */
  lemma NulFreeUtf8IsDetected(text: string)
    requires NulFree(text) && !StartsWithBom(text) && !LooksBinary(Encode8(text))
    ensures Decode(Encode(text, Utf8, false), None) == Ok(Decoded(text, Utf8, false))
  {
    hide Decode, LooksBinary, ZeroPairs, Select, NulFree, Encode8;
    var bytes := Encode(text, Utf8, false);
    assert bytes == Encode8(text);
    MarkIsEncodedBom(text, Utf8);
    FirstByte8(text);
    NulFreeBytes(text);
    NoZeroPairs(bytes, true);
    NoZeroPairs(bytes, false);
    assert Unmarked(bytes) by {
      assert |bytes| >= 2 ==> bytes[..2][0] == bytes[0];
    }
    SaveWithoutBomThenDetect(text, Utf8);
  }

  predicate NulFreeAscii(text: string) {
    forall c :: c in text ==> 0 < c as int < 0x80
  }

  lemma AsciiZeroPairs(text: string, e: Encoding)
    requires NulFreeAscii(text) && !e.Utf8?
    ensures |EncodePayload(text, e)| == 2 * |text|
    ensures ZeroPairs(EncodePayload(text, e), e.Utf16Le?) == |text|
    ensures ZeroPairs(EncodePayload(text, e), e.Utf16Be?) == 0
  {
    if text != "" {
      var bytes := EncodePayload(text, e);
      SuffixMembers(text, 1);
      assert text[0] in text;
      AsciiZeroPairs(text[1..], e);
      assert Encode16(text) == [text[0] as int] + Encode16(text[1..]);
      assert Encode16(text)[1..] == Encode16(text[1..]);
      assert bytes == UnitBytes(text[0] as int, e.Utf16Be?) + EncodePayload(text[1..], e);
      assert bytes[2..] == EncodePayload(text[1..], e);
    }
  }

  /** The first byte of such a text cannot begin a mark. */
  lemma AsciiIsUnmarked(text: string, e: Encoding)
    requires NulFreeAscii(text) && text != "" && !e.Utf8?
    ensures Unmarked(EncodePayload(text, e))
  {
    var bytes := EncodePayload(text, e);
    assert text[0] in text && Encode16(text)[0] == text[0] as int;
    assert bytes[0] < 0x80;
    forall mark: seq<byte> | mark != [] && mark[0] >= 0x80
      ensures !StartsWith(bytes, mark)
    {
      assert |bytes| >= |mark| ==> bytes[..|mark|][0] == bytes[0];
    }
  }

  /** UTF-16 of nonempty ASCII without NUL is detected, in the right byte order, without a mark. */
  lemma AsciiUtf16IsDetected(text: string, e: Encoding)
    requires NulFreeAscii(text) && text != "" && !e.Utf8?
    ensures Decode(Encode(text, e, false), None) == Ok(Decoded(text, e, false))
  {
    hide Decode, LooksBinary, ZeroPairs, Select, EncodePayload, Unmarked;
    assert Encode(text, e, false) == EncodePayload(text, e);
    AsciiZeroPairs(text, e);
    AsciiIsUnmarked(text, e);
    SaveWithoutBomThenDetect(text, e);
  }

  // ---------------------------------------------------------------------
  // Texts that are not read back.

  /** Without a mark, a leading U+FEFF is lost: it is read as the mark. */
  lemma LeadingBomIsLost(e: Encoding)
    ensures Decode(Encode([BOM], e, false), Some(e)) != Ok(Decoded([BOM], e, false))
    ensures Decode(Encode([BOM], e, false), None) != Ok(Decoded([BOM], e, false))
  {
    SaveThenReadRequested([BOM], e, false);
    SaveWithoutBomThenDetect([BOM], e);
    MarkIsEncodedBom([BOM], e);
    assert Encode([BOM], e, false) == EncodePayload([BOM], e);
  }

  /** An empty UTF-16 text is taken for UTF-8. */
  lemma EmptyUtf16IsNotDetected(e: Encoding)
    requires !e.Utf8?
    ensures Decode(Encode("", e, false), None) != Ok(Decoded("", e, false))
  {
    SaveWithoutBomThenDetect("", e);
    assert Encode("", e, false) == [];
  }

  /** A letter and a NUL in UTF-8 are taken for UTF-16. */
  lemma NulUtf8IsNotDetected()
    ensures Decode(Encode("a\0", Utf8, false), None) != Ok(Decoded("a\0", Utf8, false))
  {
    var bytes := Encode("a\0", Utf8, false);
    assert "a\0"[1..] == "\0" && "\0"[1..] == "";
    assert Encode8("\0") == [0] + Encode8("");
    assert bytes == [0x61, 0];
    assert bytes[2..] == [];
    assert ZeroPairs(bytes, true) == 1;
    SaveWithoutBomThenDetect("a\0", Utf8);
  }
}
