/**
 * The encoding forms UTF-8 (sections 3 and 4 of RFC 3629) and UTF-16 (sections 2.1 and 2.2 of
 * RFC 2781) over Unicode scalar values, which are exactly the values of Dafny's `char`.
 */
module Unicode {
  import opened Wrappers
  import opened Text

  // ---------------------------------------------------------------------
  // UTF-8.

  function EncodeChar8(c: char): (b: seq<byte>)
    ensures 1 <= |b| <= 4
  {
    var n := c as int;
    if n < 0x80 then [n]
    else if n < 0x800 then [0xC0 + n / 64, 0x80 + n % 64]
    else if n < 0x10000 then [0xE0 + n / 4096, 0x80 + (n / 64) % 64, 0x80 + n % 64]
    else [0xF0 + n / 262144, 0x80 + (n / 4096) % 64, 0x80 + (n / 64) % 64, 0x80 + n % 64]
  }

  predicate Continues(b: byte) {
    0x80 <= b < 0xC0
  }

  /** Appends the six payload bits of a continuation byte. */
  function Append6(n: int, b: byte): (r: int)
    requires Continues(b)
    ensures r / 64 == n && r % 64 == b - 0x80
  {
    n * 64 + (b - 0x80)
  }

  predicate IsScalar(n: int) {
    0 <= n < 0xD800 || 0xE000 <= n < 0x110000
  }

  /** The first character of a byte sequence and its length, if it is well formed. */
  function DecodeChar8(b: seq<byte>): Option<(char, nat)> {
    if b == [] then None
    else
      var b0: int := b[0];
      if b0 < 0x80 then Some((b0 as char, 1))
      else if 0xC2 <= b0 < 0xE0 then
        if |b| >= 2 && Continues(b[1]) then Some((Append6(b0 - 0xC0, b[1]) as char, 2))
        else None
      else if 0xE0 <= b0 < 0xF0 then
        if |b| >= 3 && Continues(b[1]) && Continues(b[2]) then
          var n := Append6(Append6(b0 - 0xE0, b[1]), b[2]);
          if n >= 0x800 && IsScalar(n) then Some((n as char, 3)) else None
        else None
      else if 0xF0 <= b0 < 0xF5 then
        if |b| >= 4 && Continues(b[1]) && Continues(b[2]) && Continues(b[3]) then
          var n := Append6(Append6(Append6(b0 - 0xF0, b[1]), b[2]), b[3]);
          if n >= 0x10000 && IsScalar(n) then Some((n as char, 4)) else None
        else None
      else None
  }

  lemma DecodeChar8Length(b: seq<byte>)
    requires DecodeChar8(b).Some?
    ensures 1 <= DecodeChar8(b).value.1 <= |b|
  {
  }

  function Encode8(s: string): seq<byte> {
    if s == [] then [] else EncodeChar8(s[0]) + Encode8(s[1..])
  }

  /** The text a byte sequence encodes, or nothing if any part of it is malformed. */
  function Decode8(b: seq<byte>): Option<string> {
    if b == [] then Some("")
    else if DecodeChar8(b).None? then None
    else
      var (c, k) := DecodeChar8(b).value;
      DecodeChar8Length(b);
      match Decode8(b[k..])
      case Some(rest) => Some([c] + rest)
      case None => None
  }

  lemma Shifts(n: int)
    ensures n / 4096 == n / 64 / 64 && n / 262144 == n / 64 / 64 / 64
  {
  }

  lemma DecodeEncodedChar8(c: char, rest: seq<byte>)
    ensures DecodeChar8(EncodeChar8(c) + rest) == Some((c, |EncodeChar8(c)|))
  {
    var n := c as int;
    Shifts(n);
    assert n == (n / 64) * 64 + n % 64;
    assert n / 64 == (n / 64 / 64) * 64 + (n / 64) % 64;
    assert n / 64 / 64 == (n / 64 / 64 / 64) * 64 + (n / 64 / 64) % 64;
  }

  lemma EncodeDecodedChar8(b: seq<byte>)
    requires DecodeChar8(b).Some?
    ensures var (c, k) := DecodeChar8(b).value; k <= |b| && b[..k] == EncodeChar8(c)
  {
    var (c, k) := DecodeChar8(b).value;
    Shifts(c as int);
    DecodeChar8Length(b);
    var head := b[..k];
    if k == 1 {
      assert head == [b[0]];
    } else if k == 2 {
      assert head == [b[0], b[1]];
    } else if k == 3 {
      assert head == [b[0], b[1], b[2]];
    } else {
      assert head == [b[0], b[1], b[2], b[3]];
    }
  }

  lemma {:induction false} DecodeOfEncode8(s: string)
    ensures Decode8(Encode8(s)) == Some(s)
  {
    if s != [] {
      DecodeEncodedChar8(s[0], Encode8(s[1..]));
      assert Encode8(s)[|EncodeChar8(s[0])|..] == Encode8(s[1..]);
      DecodeOfEncode8(s[1..]);
      assert s == [s[0]] + s[1..];
    }
  }

  lemma {:induction false} EncodeOfDecode8(b: seq<byte>)
    requires Decode8(b).Some?
    ensures Encode8(Decode8(b).value) == b
  {
    hide DecodeChar8, EncodeChar8;
    if b != [] {
      EncodeDecodedChar8(b);
      var (c, k) := DecodeChar8(b).value;
      EncodeOfDecode8(b[k..]);
      assert ([c] + Decode8(b[k..]).value)[1..] == Decode8(b[k..]).value;
    }
  }

  // ---------------------------------------------------------------------
  // UTF-16.

  type unit = n: int | 0 <= n < 0x10000

  function EncodeChar16(c: char): seq<unit> {
    var n := c as int;
    if n < 0x10000 then [n]
    else [0xD800 + (n - 0x10000) / 1024, 0xDC00 + (n - 0x10000) % 1024]
  }

  function Encode16(s: string): seq<unit> {
    if s == [] then [] else EncodeChar16(s[0]) + Encode16(s[1..])
  }

  /** The text of a sequence of code units without unpaired surrogates. */
  function Decode16(u: seq<unit>): Option<string> {
    if u == [] then Some("")
    else if 0xD800 <= u[0] < 0xDC00 then
      if |u| >= 2 && 0xDC00 <= u[1] < 0xE000 then
        var high: int := u[0] - 0xD800;
        var low: int := u[1] - 0xDC00;
        var c := (0x10000 + high * 1024 + low) as char;
        (match Decode16(u[2..]) case Some(rest) => Some([c] + rest) case None => None)
      else None
    else if 0xDC00 <= u[0] < 0xE000 then None
    else (match Decode16(u[1..]) case Some(rest) => Some([u[0] as char] + rest) case None => None)
  }

  lemma {:induction false} DecodeOfEncode16(s: string)
    ensures Decode16(Encode16(s)) == Some(s)
  {
    if s != [] {
      DecodeOfEncode16(s[1..]);
      var k := |EncodeChar16(s[0])|;
      assert Encode16(s)[k..] == Encode16(s[1..]);
      assert s == [s[0]] + s[1..];
    }
  }

  lemma {:induction false} EncodeOfDecode16(u: seq<unit>)
    requires Decode16(u).Some?
    ensures Encode16(Decode16(u).value) == u
  {
    if u != [] {
      var k := if 0xD800 <= u[0] < 0xDC00 then 2 else 1;
      EncodeOfDecode16(u[k..]);
      var text := Decode16(u).value;
      assert text[1..] == Decode16(u[k..]).value;
      assert u == u[..k] + u[k..];
    }
  }

  function UnitBytes(u: unit, bigEndian: bool): seq<byte> {
    if bigEndian then [u / 256, u % 256] else [u % 256, u / 256]
  }

  function UnitsToBytes(u: seq<unit>, bigEndian: bool): seq<byte> {
    if u == [] then [] else UnitBytes(u[0], bigEndian) + UnitsToBytes(u[1..], bigEndian)
  }

  /** Pairs of bytes as code units; an odd byte at the end is malformed. */
  function BytesToUnits(b: seq<byte>, bigEndian: bool): Option<seq<unit>> {
    if b == [] then Some([])
    else if |b| == 1 then None
    else
      var high: int := if bigEndian then b[0] else b[1];
      var low: int := if bigEndian then b[1] else b[0];
      var u: unit := high * 256 + low;
      match BytesToUnits(b[2..], bigEndian)
      case Some(rest) => Some([u] + rest)
      case None => None
  }

  lemma {:induction false} UnitsOfBytes(u: seq<unit>, bigEndian: bool)
    ensures BytesToUnits(UnitsToBytes(u, bigEndian), bigEndian) == Some(u)
  {
    if u != [] {
      UnitsOfBytes(u[1..], bigEndian);
      assert UnitsToBytes(u, bigEndian)[2..] == UnitsToBytes(u[1..], bigEndian);
      assert u == [u[0]] + u[1..];
    }
  }

  lemma {:induction false} BytesOfUnits(b: seq<byte>, bigEndian: bool)
    requires BytesToUnits(b, bigEndian).Some?
    ensures UnitsToBytes(BytesToUnits(b, bigEndian).value, bigEndian) == b
  {
    if |b| >= 2 {
      BytesOfUnits(b[2..], bigEndian);
      var u := BytesToUnits(b, bigEndian).value;
      assert u[1..] == BytesToUnits(b[2..], bigEndian).value;
      assert b == b[..2] + b[2..];
    }
  }

  lemma UnitsToBytesAppend(u: seq<unit>, v: unit, bigEndian: bool)
    ensures UnitsToBytes(u + [v], bigEndian) == UnitsToBytes(u, bigEndian) + UnitBytes(v, bigEndian)
  {
    if u != [] {
      UnitsToBytesAppend(u[1..], v, bigEndian);
      assert (u + [v])[1..] == u[1..] + [v];
    }
  }
}
