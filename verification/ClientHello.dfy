/** Finding the server name in a TLS ClientHello (section 4.1.2 of RFC 8446, section 3 of RFC 6066). */
module ClientHello {
  import opened Wrappers
  import opened Text
  import opened Unicode

  // ---------------------------------------------------------------------
  // The parser.

  /** A slice whose bounds are cut to the data, which is what slicing does in the parser's language. */
  function Slice(data: seq<byte>, from: nat, to: nat): seq<byte> {
    var lo := if from <= |data| then from else |data|;
    var hi := if to <= |data| then to else |data|;
    if lo <= hi then data[lo..hi] else []
  }

  /** A two-byte slice read as a big-endian number: bytes beyond the end are left out, not reported. */
  function Number16(data: seq<byte>, at: nat): nat {
    if at >= |data| then 0
    else if at + 1 >= |data| then data[at]
    else
      var high: nat := data[at];
      high * 256 + data[at + 1]
  }

  /** What one pass of the extension loop meets at a position. */
  datatype Seen = Stop | Host(name: seq<byte>) | Next(pos: nat)

  /** An index beyond the data ends the search. */
  function Look(data: seq<byte>, pos: nat): (s: Seen)
    ensures s.Next? ==> s.pos > pos
  {
    if pos + 4 > |data| then Stop
    else
      var body := pos + 4;
      var length := Number16(data, pos + 2);
      if Number16(data, pos) != 0 then Next(body + length)
      else if body + 2 >= |data| then Stop
      else if data[body + 2] == 0 then Host(Slice(data, body + 5, body + 5 + Number16(data, body + 3)))
      else Next(body + length)
  }

  function Looker(data: seq<byte>): nat -> Seen {
    (pos: nat) => Look(data, pos)
  }

  ghost predicate Advances(look: nat -> Seen) {
    forall pos :: look(pos).Next? ==> look(pos).pos > pos
  }

  /** The bytes of the first host name met before `end`. */
  ghost function Walk(look: nat -> Seen, pos: nat, end: nat): Option<seq<byte>>
    requires Advances(look)
    decreases end - pos
  {
    if pos >= end then None
    else
      match look(pos)
      case Stop => None
      case Host(name) => Some(name)
      case Next(next) => Walk(look, next, end)
  }

  /** A name that is not UTF-8 counts as no name. */
  function DecodeName(name: Option<seq<byte>>): Option<string> {
    if name.Some? then Decode8(name.value) else None
  }

  const SESSION_ID_AT: nat := 5 + 1 + 3 + 2 + 32

  ghost function Extract(data: seq<byte>): Option<string> {
    DecodeName(ExtractBytes(data))
  }

  ghost function ExtractBytes(data: seq<byte>): Option<seq<byte>> {
    if |data| < 5 || data[0] != 0x16 || |data| <= 5 || data[5] != 1 || |data| <= SESSION_ID_AT then None
    else
      var ciphersAt := SESSION_ID_AT + 1 + data[SESSION_ID_AT];
      var compressionAt := ciphersAt + 2 + Number16(data, ciphersAt);
      if |data| <= compressionAt then None
      else
        var extensionsAt := compressionAt + 1 + data[compressionAt];
        Walk(Looker(data), extensionsAt + 2, extensionsAt + 2 + Number16(data, extensionsAt))
  }

  /** The parser, advancing one position through the data; it stops on every input. */
  method ExtractTlsSni(data: seq<byte>) returns (name: Option<string>)
    ensures name == Extract(data)
  {
    hide Walk, Look, Looker, Number16, Decode8;
    if |data| < 5 || data[0] != 0x16 { return None; }
    var pos := 5;
    if pos >= |data| || data[pos] != 0x01 { return None; }
    pos := pos + 1 + 3 + 2 + 32;
    if pos >= |data| { return None; }
    var sessionIdLength: nat := data[pos];
    pos := pos + 1 + sessionIdLength;
    var cipherLength := Number16(data, pos);
    pos := pos + 2 + cipherLength;
    if pos >= |data| { return None; }
    var compressionLength: nat := data[pos];
    pos := pos + 1 + compressionLength;
    var extensionsLength := Number16(data, pos);
    pos := pos + 2;
    name := ScanExtensions(data, pos, pos + extensionsLength);
  }

  /** The loop over the extensions. */
  method ScanExtensions(data: seq<byte>, start: nat, end: nat) returns (name: Option<string>)
    ensures name == DecodeName(Walk(Looker(data), start, end))
  {
    var pos := start;
    while pos < end && pos + 4 <= |data|
      invariant Walk(Looker(data), start, end) == Walk(Looker(data), pos, end)
      decreases end - pos
    {
      var here := pos;
      var kind := Number16(data, pos);
      var length := Number16(data, pos + 2);
      pos := pos + 4;
      if kind == 0 {
        if pos + 2 >= |data| {
          assert Looker(data)(here) == Stop;
          return None;
        }
        if data[pos + 2] == 0 {
          var nameLength := Number16(data, pos + 3);
          var bytes := Slice(data, pos + 5, pos + 5 + nameLength);
          assert Looker(data)(here) == Host(bytes);
          return Decode8(bytes);
        }
      }
      pos := pos + length;
      assert Looker(data)(here) == Next(pos);
    }
    assert pos < end ==> Looker(data)(pos) == Stop;
    return None;
  }

  // ---------------------------------------------------------------------
  // Well-formed messages.

  /** `more` stands for further entries of the server name list. */
  datatype Extension =
    | ServerName(nameType: byte, name: seq<byte>, more: seq<byte>)
    | Other(kind: nat, body: seq<byte>)

  datatype Hello = Hello(
    version: seq<byte>,
    random: seq<byte>,
    sessionId: seq<byte>,
    ciphers: seq<byte>,
    compression: seq<byte>,
    extensions: Option<seq<Extension>>)

  function Bytes16(n: nat): (bytes: seq<byte>)
    requires n < 0x10000
    ensures |bytes| == 2
  {
    [n / 256, n % 256]
  }

  predicate GoodExtension(e: Extension) {
    match e
    case ServerName(_, name, more) => |name| + |more| + 5 < 0x10000
    case Other(kind, body) => 0 < kind < 0x10000 && |body| < 0x10000
  }

  function Body(e: Extension): seq<byte>
    requires GoodExtension(e)
  {
    match e
    case ServerName(nameType, name, more) =>
      Bytes16(|name| + |more| + 3) + [nameType] + Bytes16(|name|) + name + more
    case Other(_, body) => body
  }

  function Kind(e: Extension): nat {
    match e case ServerName(_, _, _) => 0 case Other(kind, _) => kind
  }

  function ExtensionBytes(e: Extension): seq<byte>
    requires GoodExtension(e)
  {
    Bytes16(Kind(e)) + Bytes16(|Body(e)|) + Body(e)
  }

  predicate GoodExtensions(es: seq<Extension>) {
    es == [] || (GoodExtension(es[0]) && GoodExtensions(es[1..]))
  }

  function ExtensionsBytes(es: seq<Extension>): seq<byte>
    requires GoodExtensions(es)
  {
    if es == [] then [] else ExtensionBytes(es[0]) + ExtensionsBytes(es[1..])
  }

  predicate Good(h: Hello) {
    && |h.version| == 2 && |h.random| == 32
    && |h.sessionId| < 256 && |h.ciphers| < 0x10000 && |h.compression| < 256
    && (h.extensions.Some? ==>
          && GoodExtensions(h.extensions.value)
          && |ExtensionsBytes(h.extensions.value)| < 0x10000)
  }

  function FixedPart(h: Hello): seq<byte>
    requires Good(h)
  {
    h.version + h.random + ([|h.sessionId|] + h.sessionId) + (Bytes16(|h.ciphers|) + h.ciphers)
    + ([|h.compression|] + h.compression)
  }

  function ExtensionPart(h: Hello): seq<byte>
    requires Good(h)
  {
    if h.extensions.None? then []
    else Bytes16(|ExtensionsBytes(h.extensions.value)|) + ExtensionsBytes(h.extensions.value)
  }

  /** The message in one handshake record: record header, handshake header, message. */
  function Serialize(h: Hello): seq<byte>
    requires Good(h) && |FixedPart(h)| + |ExtensionPart(h)| + 4 < 0x10000
  {
    var length := |FixedPart(h)| + |ExtensionPart(h)|;
    [0x16, 3, 1] + Bytes16(length + 4) + [1, 0] + Bytes16(length) + FixedPart(h) + ExtensionPart(h)
  }

  /** The host name of the first server name extension whose first entry is a host name. */
  function HostName(es: seq<Extension>): Option<seq<byte>> {
    if es == [] then None
    else if es[0].ServerName? && es[0].nameType == 0 then Some(es[0].name)
    else HostName(es[1..])
  }

  // ---------------------------------------------------------------------
  // The parser on well-formed messages.

  lemma Number16At(pre: seq<byte>, n: nat, post: seq<byte>)
    requires n < 0x10000
    ensures Number16(pre + Bytes16(n) + post, |pre|) == n
  {
  }

  lemma SliceAt(pre: seq<byte>, middle: seq<byte>, post: seq<byte>)
    ensures Slice(pre + middle + post, |pre|, |pre| + |middle|) == middle
  {
  }

  /** The header of an extension is read back. */
  lemma HeaderAt(pre: seq<byte>, kind: nat, body: seq<byte>, post: seq<byte>)
    requires kind < 0x10000 && |body| < 0x10000
    ensures var data := pre + (Bytes16(kind) + Bytes16(|body|) + body) + post;
      Number16(data, |pre|) == kind && Number16(data, |pre| + 2) == |body|
  {
    hide Number16, Bytes16;
    var data := pre + (Bytes16(kind) + Bytes16(|body|) + body) + post;
    assert data == pre + Bytes16(kind) + (Bytes16(|body|) + body + post);
    Number16At(pre, kind, Bytes16(|body|) + body + post);
    assert data == (pre + Bytes16(kind)) + Bytes16(|body|) + (body + post);
    Number16At(pre + Bytes16(kind), |body|, body + post);
  }

  /** The first entry of a server name list is read back. */
  lemma ServerNameEntry(pre: seq<byte>, e: Extension, post: seq<byte>)
    requires GoodExtension(e) && e.ServerName?
    ensures var data := pre + ExtensionBytes(e) + post;
      && |pre| + 6 < |data| && data[|pre| + 6] == e.nameType
      && Number16(data, |pre| + 7) == |e.name|
      && Slice(data, |pre| + 9, |pre| + 9 + |e.name|) == e.name
  {
    var data := pre + ExtensionBytes(e) + post;
    var front := pre + Bytes16(0) + Bytes16(|Body(e)|) + Bytes16(|e.name| + |e.more| + 3);
    assert data == front + [e.nameType] + Bytes16(|e.name|) + (e.name + e.more + post);
    Number16At(front + [e.nameType], |e.name|, e.name + e.more + post);
    var before := front + [e.nameType] + Bytes16(|e.name|);
    assert data == before + e.name + (e.more + post);
    SliceAt(before, e.name, e.more + post);
  }

  /** What the loop meets at an extension. */
  function SeenAt(e: Extension, pos: nat): Seen
    requires GoodExtension(e)
  {
    if e.ServerName? && e.nameType == 0 then Host(e.name) else Next(pos + |ExtensionBytes(e)|)
  }

  lemma LookAtExtension(data: seq<byte>, pre: seq<byte>, e: Extension, post: seq<byte>)
    requires GoodExtension(e) && data == pre + ExtensionBytes(e) + post
    ensures Look(data, |pre|) == SeenAt(e, |pre|)
  {
    HeaderAt(pre, Kind(e), Body(e), post);
    assert |ExtensionBytes(e)| == 4 + |Body(e)|;
    if e.ServerName? { ServerNameEntry(pre, e, post); }
  }

  /** The extensions lie one after the other from `pos` on. */
  ghost predicate Lined(look: nat -> Seen, es: seq<Extension>, pos: nat)
    requires GoodExtensions(es)
  {
    es != [] ==> look(pos) == SeenAt(es[0], pos) && Lined(look, es[1..], pos + |ExtensionBytes(es[0])|)
  }

  lemma {:induction false} SerializedIsLined(data: seq<byte>, pre: seq<byte>, es: seq<Extension>, post: seq<byte>)
    requires GoodExtensions(es) && data == pre + ExtensionsBytes(es) + post
    ensures Lined(Looker(data), es, |pre|)
    decreases |es|
  {
    hide ExtensionBytes, Look, Body;
    if es != [] {
      var first, rest := ExtensionBytes(es[0]), ExtensionsBytes(es[1..]);
      Regroup(pre, first, rest, post);
      assert ExtensionsBytes(es) == first + rest;
      LookAtExtension(data, pre, es[0], rest + post);
      SerializedIsLined(data, pre + first, es[1..], post);
    }
  }

  lemma {:induction false} WalkFindsHost(look: nat -> Seen, es: seq<Extension>, pos: nat)
    requires Advances(look) && GoodExtensions(es) && Lined(look, es, pos)
    ensures Walk(look, pos, pos + |ExtensionsBytes(es)|) == HostName(es)
    decreases |es|
  {
    if es != [] {
      assert |ExtensionBytes(es[0])| >= 4;
      WalkFindsHost(look, es[1..], pos + |ExtensionBytes(es[0])|);
    }
  }

  lemma Regroup(a: seq<byte>, b: seq<byte>, c: seq<byte>, d: seq<byte>)
    ensures a + (b + c) + d == a + b + (c + d) == (a + b) + c + d
  {
  }

  /** The three length-prefixed fields after a head of fixed length are read back. */
  lemma FieldsAt(head: seq<byte>, id: seq<byte>, ciphers: seq<byte>, compression: seq<byte>, tail: seq<byte>)
    requires |id| < 256 && |ciphers| < 0x10000 && |compression| < 256
    ensures var data := head + ([|id|] + id) + (Bytes16(|ciphers|) + ciphers) + ([|compression|] + compression) + tail;
      var ciphersAt := |head| + 1 + |id|;
      var compressionAt := ciphersAt + 2 + |ciphers|;
      && |data| == compressionAt + 1 + |compression| + |tail|
      && data[|head|] == |id|
      && Number16(data, ciphersAt) == |ciphers|
      && data[compressionAt] == |compression|
      && data[compressionAt + 1 + |compression|..] == tail
  {
  }

  function Head(h: Hello): seq<byte>
    requires Good(h) && |FixedPart(h)| + |ExtensionPart(h)| + 4 < 0x10000
  {
    var length := |FixedPart(h)| + |ExtensionPart(h)|;
    [0x16, 3, 1] + Bytes16(length + 4) + [1, 0] + Bytes16(length) + h.version + h.random
  }

  lemma Regroup5(h: seq<byte>, v: seq<byte>, r: seq<byte>, a: seq<byte>, b: seq<byte>, c: seq<byte>, rest: seq<byte>)
    ensures h + (v + r + a + b + c) + rest == (h + v + r) + a + b + c + rest
  {
    Regroup(h, v + r + a + b, c, rest);
    Regroup(h, v + r + a, b, c);
    Regroup(h, v + r, a, b);
    Regroup(h, v, r, a);
  }

  lemma SerializedShape(h: Hello, post: seq<byte>)
    requires Good(h) && |FixedPart(h)| + |ExtensionPart(h)| + 4 < 0x10000
    ensures Serialize(h) + post ==
      Head(h) + ([|h.sessionId|] + h.sessionId) + (Bytes16(|h.ciphers|) + h.ciphers)
      + ([|h.compression|] + h.compression) + (ExtensionPart(h) + post)
    ensures |Head(h)| == SESSION_ID_AT && Head(h)[0] == 0x16 && Head(h)[5] == 1
  {
    hide ExtensionPart, Bytes16;
    var length := |FixedPart(h)| + |ExtensionPart(h)|;
    var front := [0x16, 3, 1] + Bytes16(length + 4) + [1, 0] + Bytes16(length);
    Regroup(front + FixedPart(h), ExtensionPart(h), post, []);
    Regroup5(front, h.version, h.random, [|h.sessionId|] + h.sessionId, Bytes16(|h.ciphers|) + h.ciphers,
             [|h.compression|] + h.compression, ExtensionPart(h) + post);
  }

  lemma ExtractReachesExtensions(data: seq<byte>, head: seq<byte>, id: seq<byte>, ciphers: seq<byte>,
                                 compression: seq<byte>, tail: seq<byte>, extensionsAt: nat)
    requires |id| < 256 && |ciphers| < 0x10000 && |compression| < 256
    requires |head| == SESSION_ID_AT && head[0] == 0x16 && head[5] == 1
    requires extensionsAt == |head| + 1 + |id| + 2 + |ciphers| + 1 + |compression|
    requires data == head + ([|id|] + id) + (Bytes16(|ciphers|) + ciphers) + ([|compression|] + compression) + tail
    ensures |data| == extensionsAt + |tail| && data[extensionsAt..] == tail
    ensures ExtractBytes(data) == Walk(Looker(data), extensionsAt + 2, extensionsAt + 2 + Number16(data, extensionsAt))
  {
    FieldsAt(head, id, ciphers, compression, tail);
    assert data[0] == head[0] && data[5] == head[5];
  }

  /**
   * Whatever the lengths of the fields before it, the host name of the server name extension is found,
   * even when other data follows the message; without such an extension there is none.
   */
  lemma ExtractFindsHost(h: Hello, post: seq<byte>)
    requires Good(h) && |FixedPart(h)| + |ExtensionPart(h)| + 4 < 0x10000
    requires h.extensions.None? ==> post == []
    ensures Extract(Serialize(h) + post) ==
            DecodeName(if h.extensions.Some? then HostName(h.extensions.value) else None)
  {
    var data := Serialize(h) + post;
    SerializedShape(h, post);
    var at := ExtensionsStart(data, Head(h), h, ExtensionPart(h) + post);
    ExtensionsDecide(data, at, h, post);
  }

  /** Where the parser enters the extension loop. */
  lemma ExtensionsStart(data: seq<byte>, head: seq<byte>, h: Hello, tail: seq<byte>) returns (at: nat)
    requires |h.sessionId| < 256 && |h.ciphers| < 0x10000 && |h.compression| < 256
    requires |head| == SESSION_ID_AT && head[0] == 0x16 && head[5] == 1
    requires data == head + ([|h.sessionId|] + h.sessionId) + (Bytes16(|h.ciphers|) + h.ciphers)
                     + ([|h.compression|] + h.compression) + tail
    ensures at <= |data| && data[at..] == tail
    ensures ExtractBytes(data) == Walk(Looker(data), at + 2, at + 2 + Number16(data, at))
  {
    at := SESSION_ID_AT + 1 + |h.sessionId| + 2 + |h.ciphers| + 1 + |h.compression|;
    ExtractReachesExtensions(data, head, h.sessionId, h.ciphers, h.compression, tail, at);
  }

  lemma CountAt(pre: seq<byte>, n: nat, bytes: seq<byte>, post: seq<byte>)
    requires n < 0x10000
    ensures Number16(pre + (Bytes16(n) + bytes) + post, |pre|) == n
    ensures pre + (Bytes16(n) + bytes) + post == (pre + Bytes16(n)) + bytes + post
  {
    Regroup(pre, Bytes16(n), bytes, post);
    Number16At(pre, n, bytes + post);
  }

  lemma ExtensionListDecides(data: seq<byte>, front: seq<byte>, es: seq<Extension>, post: seq<byte>)
    requires GoodExtensions(es) && data == front + ExtensionsBytes(es) + post
    ensures Walk(Looker(data), |front|, |front| + |ExtensionsBytes(es)|) == HostName(es)
  {
    SerializedIsLined(data, front, es, post);
    WalkFindsHost(Looker(data), es, |front|);
  }

  lemma SplitAt(data: seq<byte>, at: nat, part: seq<byte>, post: seq<byte>)
    requires at <= |data| && data[at..] == part + post
    ensures data == data[..at] + part + post
  {
    assert data == data[..at] + (part + post);
  }

  lemma ListPartDecides(data: seq<byte>, at: nat, es: seq<Extension>, post: seq<byte>)
    requires GoodExtensions(es) && |ExtensionsBytes(es)| < 0x10000 && at <= |data|
    requires data[at..] == Bytes16(|ExtensionsBytes(es)|) + ExtensionsBytes(es) + post
    ensures Walk(Looker(data), at + 2, at + 2 + Number16(data, at)) == HostName(es)
  {
    hide *;
    var pre, bytes := data[..at], ExtensionsBytes(es);
    var count := Bytes16(|bytes|);
    SplitAt(data, at, count + bytes, post);
    CountAt(pre, |bytes|, bytes, post);
    ExtensionListDecides(data, pre + count, es, post);
    assert |pre + count| == at + 2;
  }

  lemma NoPartDecides(data: seq<byte>, at: nat)
    requires at == |data|
    ensures Walk(Looker(data), at + 2, at + 2 + Number16(data, at)) == None
  {
  }

  lemma ExtensionsDecide(data: seq<byte>, at: nat, h: Hello, post: seq<byte>)
    requires Good(h) && at <= |data| && data[at..] == ExtensionPart(h) + post
    requires h.extensions.None? ==> post == []
    ensures Walk(Looker(data), at + 2, at + 2 + Number16(data, at))
         == if h.extensions.Some? then HostName(h.extensions.value) else None
  {
    hide Walk, HostName, Number16, ExtensionsBytes, Bytes16, Looker, FixedPart;
    if h.extensions.Some? {
      ListPartDecides(data, at, h.extensions.value, post);
    } else {
      NoPartDecides(data, at);
    }
  }

  /** A host name that is UTF-8 comes back as text. */
  lemma ExtractReturnsTheName(h: Hello, i: nat, host: string)
    requires Good(h) && |FixedPart(h)| + |ExtensionPart(h)| + 4 < 0x10000
    requires h.extensions.Some? && i < |h.extensions.value|
    requires h.extensions.value[i].ServerName? && h.extensions.value[i].nameType == 0
    requires h.extensions.value[i].name == Encode8(host)
    requires forall j :: 0 <= j < i ==> h.extensions.value[j].Other?
    ensures Extract(Serialize(h)) == Some(host)
  {
    ExtractFindsHost(h, []);
    assert Serialize(h) + [] == Serialize(h);
    HostNameAt(h.extensions.value, i);
    DecodeOfEncode8(host);
  }

  lemma {:induction false} HostNameAt(es: seq<Extension>, i: nat)
    requires i < |es| && es[i].ServerName? && es[i].nameType == 0
    requires forall j :: 0 <= j < i ==> es[j].Other?
    ensures HostName(es) == Some(es[i].name)
  {
    if i > 0 { HostNameAt(es[1..], i - 1); }
  }
}
