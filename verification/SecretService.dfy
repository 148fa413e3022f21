/** The object path decoder of secretservice.go and the choice of a collection by it. */
module SecretService {
  import opened Bytes
  import opened Errors
  import Json
  import Utf8

  const UNDERSCORE: byte := 95

  /** encoding/hex accepts both cases. */
  function HexValue(b: byte): int {
    if 0x30 <= b <= 0x39 then b - 0x30
    else if 0x61 <= b <= 0x66 then b - 0x57
    else if 0x41 <= b <= 0x46 then b - 0x37
    else -1
  }

  predicate HexPair(s: bytes) {
    |s| >= 2 && HexValue(s[0]) >= 0 && HexValue(s[1]) >= 0
  }

  /** string(b) of a byte is the UTF-8 encoding of the rune b: two bytes from 0x80 on. */
  function RuneBytes(b: byte): bytes {
    if b < 0x80 then [b] else [0xC0 + b / 64, 0x80 + b % 64]
  }

  /** The decoded text, unless an underscore is met that two hex digits do not follow. */
  function Unescape(s: bytes): Option<bytes>
    decreases |s|
  {
    if s == [] then Some([])
    else if s[0] != UNDERSCORE then Prepend(RuneBytes(s[0]), Unescape(s[1..]))
    else if !HexPair(s[1..]) then None
    else Prepend([HexValue(s[1]) * 16 + HexValue(s[2])], Unescape(s[3..]))
  }

  function Decoded(s: bytes): bytes {
    match Unescape(s)
    case Some(r) => r
    case None => s
  }

  function Prepend(front: bytes, rest: Option<bytes>): Option<bytes> {
    match rest
    case Some(r) => Some(front + r)
    case None => None
  }

  lemma PrependLaws(a: bytes, b: bytes, rest: Option<bytes>)
    ensures Prepend([], rest) == rest
    ensures Prepend(a, Prepend(b, rest)) == Prepend(a + b, rest)
  {
    if rest.Some? {
      assert [] + rest.value == rest.value;
      assert a + (b + rest.value) == (a + b) + rest.value;
    }
  }

  /** decodeKeyringString */
  method DecodeKeyringString(src: bytes) returns (r: bytes)
    ensures r == Decoded(src)
  {
    var dst: bytes := [];
    var i := 0;
    assert src[0..] == src;
    PrependLaws([], [], Unescape(src));
    while i < |src|
      invariant 0 <= i <= |src|
      invariant Unescape(src) == Prepend(dst, Unescape(src[i..]))
    {
      assert src[i..][1..] == src[i + 1..];
      if src[i] != UNDERSCORE {
        PrependLaws(dst, RuneBytes(src[i]), Unescape(src[i + 1..]));
        dst := dst + RuneBytes(src[i]);
      } else {
        if i + 3 > |src| {
          return src;
        }
        var hexstring := src[i + 1..i + 3];
        assert src[i..][3..] == src[i + 3..];
        if HexValue(hexstring[0]) < 0 || HexValue(hexstring[1]) < 0 {
          return src;
        }
        var decoded := [HexValue(hexstring[0]) * 16 + HexValue(hexstring[1])];
        PrependLaws(dst, decoded, Unescape(src[i + 3..]));
        dst := dst + decoded;
        i := i + 2;
      }
      i := i + 1;
    }
    return dst;
  }

  /** The sixteen digits, in both cases. */
  lemma HexValueExactly(b: byte, v: int)
    requires 0 <= v < 16
    ensures HexValue(b) == v <==> b == "0123456789abcdef"[v] as int || b == "0123456789ABCDEF"[v] as int
    ensures HexValue(b) < 16
  {
  }

  /** The bytes written for a raw byte are the encoding of the code point with its number. */
  lemma RawIsCodePoint(b: byte)
    ensures RuneBytes(b) == Utf8.Encoded(b)
  {
  }

  /** One escape: the underscore, then the two digits, most significant first. */
  lemma EscapeExample()
    ensures Decoded(['_' as int, '5' as int, 'F' as int]) == ['_' as int]
    ensures Decoded(['_' as int, '2' as int, 'd' as int]) == ['-' as int]
  {
    var a: bytes, b: bytes := ['_' as int, '5' as int, 'F' as int], ['_' as int, '2' as int, 'd' as int];
    assert a[3..] == [] && b[3..] == [];
    assert Unescape(a) == Prepend([HexValue(a[1]) * 16 + HexValue(a[2])], Unescape(a[3..]));
    assert Unescape(b) == Prepend([HexValue(b[1]) * 16 + HexValue(b[2])], Unescape(b[3..]));
  }

  // ---- the escape it undoes ----

  predicate Plain(b: byte) {
    0x30 <= b <= 0x39 || 0x41 <= b <= 0x5A || 0x61 <= b <= 0x7A
  }

  /** D-Bus object path elements: letters and digits stand for themselves, any other byte is an
      underscore and two hex digits. */
  function Escape(s: bytes): bytes {
    if s == [] then []
    else if Plain(s[0]) then [s[0]] + Escape(s[1..])
    else [UNDERSCORE, Json.HexDigit(s[0] / 16), Json.HexDigit(s[0] % 16)] + Escape(s[1..])
  }

  lemma HexRoundTrip(v: int)
    requires 0 <= v < 16
    ensures HexValue(Json.HexDigit(v)) == v
  {
  }

  /** Behind a part that decodes, decoding goes on independently. */
  lemma {:induction false} UnescapeConcat(a: bytes, b: bytes)
    requires Unescape(a).Some?
    ensures Unescape(a + b) == Prepend(Unescape(a).value, Unescape(b))
    decreases |a|
  {
    if a == [] {
      assert a + b == b;
      PrependLaws([], [], Unescape(b));
    } else {
      var n := if a[0] == UNDERSCORE then 3 else 1;
      assert (a + b)[n..] == a[n..] + b;
      assert a[0] == UNDERSCORE ==> (a + b)[1..][0] == a[1] && (a + b)[1..][1] == a[2];
      UnescapeConcat(a[n..], b);
      var front := if n == 1 then RuneBytes(a[0]) else [HexValue(a[1]) * 16 + HexValue(a[2])];
      PrependLaws(front, Unescape(a[n..]).value, Unescape(b));
    }
  }

  /** For every byte string, the decoder undoes the escape. */
  lemma {:induction false} UnescapeEscape(s: bytes)
    ensures Unescape(Escape(s)) == Some(s)
  {
    if s != [] {
      UnescapeEscape(s[1..]);
      var e := Escape(s);
      assert s == [s[0]] + s[1..];
      if Plain(s[0]) {
        assert e[1..] == Escape(s[1..]);
      } else {
        HexRoundTrip(s[0] / 16);
        HexRoundTrip(s[0] % 16);
        assert e[3..] == Escape(s[1..]);
      }
    }
  }

  ghost predicate Ascii7(s: bytes) { forall i | 0 <= i < |s| :: s[i] < 0x80 }

  lemma {:induction false} UnescapeLength(s: bytes)
    requires Ascii7(s)
    ensures Unescape(s).Some? ==> |Unescape(s).value| <= |s|
    ensures Unescape(s).Some? && UNDERSCORE in s ==> |Unescape(s).value| < |s|
    ensures UNDERSCORE !in s ==> Unescape(s) == Some(s)
    decreases |s|
  {
    if s != [] {
      UnescapeLength(s[1..]);
      if s[0] == UNDERSCORE && |s| >= 3 { UnescapeLength(s[3..]); }
      assert s == [s[0]] + s[1..];
      assert UNDERSCORE !in s ==> s[0] != UNDERSCORE && UNDERSCORE !in s[1..];
    }
  }

  /** ASCII input never grows, and comes back unchanged exactly when it has no underscore or
      some underscore that is reached lacks its two digits. */
  lemma DecodedAscii(s: bytes)
    requires Ascii7(s)
    ensures |Decoded(s)| <= |s|
    ensures Decoded(s) == s <==> UNDERSCORE !in s || Unescape(s) == None
  {
    UnescapeLength(s);
  }

  /** The raw bytes from 0x80 on that the decoder meets, and the escapes. */
  function RawHigh(s: bytes): nat
    decreases |s|
  {
    if s == [] then 0
    else if s[0] == UNDERSCORE then if |s| < 3 then 0 else RawHigh(s[3..])
    else (if s[0] < 0x80 then 0 else 1) + RawHigh(s[1..])
  }

  function Escapes(s: bytes): nat
    decreases |s|
  {
    if s == [] then 0
    else if s[0] == UNDERSCORE then if |s| < 3 then 0 else 1 + Escapes(s[3..])
    else Escapes(s[1..])
  }

  lemma {:induction false} UnescapedLength(s: bytes)
    requires Unescape(s).Some?
    ensures |Unescape(s).value| == |s| + RawHigh(s) - 2 * Escapes(s)
    decreases |s|
  {
    if s != [] { UnescapedLength(if s[0] == UNDERSCORE then s[3..] else s[1..]); }
  }

  /** The decoder lengthens its input exactly when it decodes it and meets more than two raw
      bytes from 0x80 on for every escape: each of them turns into two bytes. */
  lemma LengthensExactly(s: bytes)
    ensures |Decoded(s)| > |s| <==> Unescape(s).Some? && RawHigh(s) > 2 * Escapes(s)
  {
    if Unescape(s).Some? { UnescapedLength(s); }
  }

  /** At i, behind a part that decodes, the decoder meets an underscore without two hex digits. */
  ghost predicate BadEscapeAt(s: bytes, i: nat) {
    i < |s| && s[i] == UNDERSCORE && Unescape(s[..i]).Some? && !HexPair(s[i + 1..])
  }

  lemma {:induction false} FindBadEscape(s: bytes) returns (i: nat)
    requires Unescape(s) == None
    ensures BadEscapeAt(s, i)
    decreases |s|
  {
    if s[0] == UNDERSCORE && !HexPair(s[1..]) {
      assert s[..0] == [];
      return 0;
    }
    var n := if s[0] == UNDERSCORE then 3 else 1;
    var j := FindBadEscape(s[n..]);
    i := n + j;
    assert s[..i] == s[..n] + s[n..][..j];
    assert s[..n][n..] == [];
    assert n == 3 ==> HexPair(s[..n][1..]);
    UnescapeConcat(s[..n], s[n..][..j]);
    assert s[i + 1..] == s[n..][j + 1..];
  }

  /** The decoder gives up, and returns all of its input, exactly when it meets such an
      underscore. */
  lemma GivesUpExactly(s: bytes)
    ensures Unescape(s) == None <==> exists i: nat :: BadEscapeAt(s, i)
  {
    if Unescape(s) == None {
      var i := FindBadEscape(s);
    }
    forall i: nat | BadEscapeAt(s, i) ensures Unescape(s) == None {
      UnescapeConcat(s[..i], s[i..]);
      assert s == s[..i] + s[i..] && s[i..][1..] == s[i + 1..];
    }
  }

  // ---- choosing the collection ----

  const COLLECTIONS: bytes := Ascii("/org/freedesktop/secrets/collection/")

  function CollectionPath(name: bytes): bytes { COLLECTIONS + name }

  ghost predicate PlainText(text: string) { forall i | 0 <= i < |text| :: text[i] < 0x80 as char && text[i] != '_' }

  lemma PlainTextDecodes(text: string)
    requires PlainText(text)
    ensures Unescape(Ascii(text)) == Some(Ascii(text))
  {
    hide Unescape;
    UnescapeLength(Ascii(text));
  }

  lemma CollectionsDecode()
    ensures Unescape(COLLECTIONS) == Some(COLLECTIONS)
  {
    hide Unescape, Ascii;
    PlainTextDecodes("/org/freedesktop/secrets/collection/");
  }

  lemma PathDecodes(name: bytes)
    ensures Decoded(CollectionPath(Escape(name))) == CollectionPath(name)
  {
    hide Unescape, Escape, Ascii, COLLECTIONS;
    CollectionsDecode();
    UnescapeConcat(COLLECTIONS, Escape(name));
    UnescapeEscape(name);
  }

  /** What the service answers when it is opened and asked for its collections. */
  datatype Service = Service(session: Result<nat>, collections: Result<seq<bytes>>)

  class SecretsKeyring {
    const name: bytes
    const service: Service
    var session: Option<nat>
    var collection: Option<bytes>

    constructor (name: bytes, service: Service)
      ensures this.name == name && this.service == service && collection == None
    {
      this.name, this.service, session, collection := name, service, None, None;
    }

    /** openSecrets: the first collection whose decoded path is the wanted one; without one, the
        field keeps what it held. */
    method OpenSecrets() returns (r: Result<()>)
      modifies this
      ensures r.Ok? <==> service.session.Ok? && service.collections.Ok?
      ensures session == if service.session.Ok? then Some(service.session.value) else old(session)
      ensures r.Err? ==> collection == old(collection)
      ensures r.Err? ==> r.error == if service.session.Err? then service.session.error else service.collections.error
      ensures r.Ok? ==>
                var found := FirstNamed(service.collections.value, name);
                collection == if found.Some? then found else old(collection)
    {
      hide Decoded, CollectionPath;
      if service.session.Err? {
        return Err(service.session.error);
      }
      session := Some(service.session.value);
      if service.collections.Err? {
        return Err(service.collections.error);
      }
      var paths := service.collections.value;
      var i := 0;
      while i < |paths|
        invariant 0 <= i <= |paths| && collection == old(collection) && session == Some(service.session.value)
        invariant FirstNamed(paths, name) == FirstNamed(paths[i..], name)
      {
        var path := DecodeKeyringString(paths[i]);
        if path == CollectionPath(name) {
          collection := Some(paths[i]);
          return Ok(());
        }
        assert paths[i..][1..] == paths[i + 1..];
        i := i + 1;
      }
      return Ok(());
    }
  }

  function FirstNamed(paths: seq<bytes>, name: bytes): Option<bytes> {
    if paths == [] then None
    else if Decoded(paths[0]) == CollectionPath(name) then Some(paths[0])
    else FirstNamed(paths[1..], name)
  }

  /** It is the first one, in the order of the service, that decodes to the wanted path; none is
      chosen exactly if none does. */
  lemma {:induction false} FirstExactly(paths: seq<bytes>, name: bytes)
    ensures FirstNamed(paths, name) == None <==>
              forall i | 0 <= i < |paths| :: Decoded(paths[i]) != CollectionPath(name)
    ensures forall i | 0 <= i < |paths| && Decoded(paths[i]) == CollectionPath(name)
                       && (forall j | 0 <= j < i :: Decoded(paths[j]) != CollectionPath(name)) ::
              FirstNamed(paths, name) == Some(paths[i])
  {
    hide Decoded, CollectionPath;
    if paths != [] {
      FirstExactly(paths[1..], name);
      assert forall i | 0 < i < |paths| :: paths[i] == paths[1..][i - 1];
    }
  }

  lemma CollectionPathSpelled(name: bytes)
    ensures CollectionPath(name) == Ascii("/org/freedesktop/secrets") + (Ascii("/collection/") + name)
  {
  }

  /** Whatever paths there are, the one chosen decodes to the wanted name. */
  lemma {:induction false} ChosenDecodesToName(paths: seq<bytes>, name: bytes)
    ensures FirstNamed(paths, name).Some? ==>
      FirstNamed(paths, name).value in paths && Decoded(FirstNamed(paths, name).value) == CollectionPath(name)
  {
    if paths != [] { ChosenDecodesToName(paths[1..], name); }
  }

  /** Among paths made by the escape, the chosen one is the path of exactly the wanted name, and
      one is chosen exactly when the name is there. */
  lemma {:induction false} ChosenExactly(names: seq<bytes>, name: bytes)
    ensures FirstNamed(seq(|names|, i requires 0 <= i < |names| => CollectionPath(Escape(names[i]))), name)
         == if name in names then Some(CollectionPath(Escape(name))) else None
  {
    if names != [] {
      var paths := seq(|names|, i requires 0 <= i < |names| => CollectionPath(Escape(names[i])));
      ChosenExactly(names[1..], name);
      assert paths[1..] == seq(|names[1..]|, i requires 0 <= i < |names[1..]| => CollectionPath(Escape(names[1..][i])));
      PathDecodes(names[0]);
      if CollectionPath(names[0]) == CollectionPath(name) {
        assert names[0] == CollectionPath(names[0])[|COLLECTIONS|..];
        assert name == CollectionPath(name)[|COLLECTIONS|..];
      }
    }
  }
}
