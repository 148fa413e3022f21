/** The JSON strings of Go's encoding/json (section 7 of RFC 8259), over arbitrary byte
    strings: the encoder reads UTF-8 (section 4 of RFC 3629), replaces every byte that is
    not part of a valid rune by one fixed escape, and escapes quotes, backslashes, control
    bytes, the HTML bytes and the two line separators. */
module Json {
  import opened Bytes

  /** What the encoder reads next: a valid rune, or one byte that starts none. */
  datatype Unit = Rune(code: bytes) | Bad

  predicate Cont(b: byte) { 0x80 <= b < 0xC0 }

  /** Length of the valid rune at the front of `s`; 0 when there is none. */
  function RuneLen(s: bytes): (n: nat)
    ensures n <= |s| && n <= 4
  {
    if s == [] then 0
    else if s[0] < 0x80 then 1
    else if s[0] < 0xC2 then 0
    else if s[0] < 0xE0 then if |s| >= 2 && Cont(s[1]) then 2 else 0
    else if s[0] < 0xF0 then
      if |s| >= 3 && Cont(s[1]) && Cont(s[2])
         && (s[0] == 0xE0 ==> s[1] >= 0xA0) && (s[0] == 0xED ==> s[1] < 0xA0) then 3 else 0
    else if s[0] < 0xF5 then
      if |s| >= 4 && Cont(s[1]) && Cont(s[2]) && Cont(s[3])
         && (s[0] == 0xF0 ==> s[1] >= 0x90) && (s[0] == 0xF4 ==> s[1] < 0x90) then 4 else 0
    else 0
  }

  ghost predicate ValidUnit(u: Unit) {
    u.Rune? ==> u.code != [] && RuneLen(u.code) == |u.code|
  }

  function Units(s: bytes): (us: seq<Unit>)
    ensures forall u | u in us :: ValidUnit(u)
    decreases |s|
  {
    if s == [] then []
    else if RuneLen(s) == 0 then [Bad] + Units(s[1..])
    else [Rune(s[..RuneLen(s)])] + Units(s[RuneLen(s)..])
  }

  ghost predicate ValidUtf8(s: bytes) { Bad !in Units(s) }

  function Size(u: Unit): nat { if u.Bad? then 1 else |u.code| }

  function TotalSize(us: seq<Unit>): nat {
    if us == [] then 0 else Size(us[0]) + TotalSize(us[1..])
  }

  /** The bytes of a unit list when a bad byte is written as U+FFFD, as a decoder returns it. */
  function Repair(us: seq<Unit>): bytes {
    if us == [] then []
    else (if us[0].Bad? then [0xEF, 0xBF, 0xBD] else us[0].code) + Repair(us[1..])
  }

  lemma {:induction false} UnitsKeepLength(s: bytes)
    ensures TotalSize(Units(s)) == |s|
    decreases |s|
  {
    if s != [] {
      UnitsKeepLength(s[if RuneLen(s) == 0 then 1 else RuneLen(s)..]);
    }
  }

  /** Valid text survives the trip through the encoder's reading unchanged, and invalid text
      does not: every bad byte grows into three. */
  lemma {:induction false} RepairIsIdentityExactlyOnUtf8(s: bytes)
    ensures |Repair(Units(s))| >= |s|
    ensures Repair(Units(s)) == s <==> ValidUtf8(s)
    decreases |s|
  {
    if s != [] {
      var n := RuneLen(s);
      var k := if n == 0 then 1 else n;
      RepairIsIdentityExactlyOnUtf8(s[k..]);
      assert s == s[..k] + s[k..];
      if n > 0 {
        assert Repair(Units(s)) == s[..k] + Repair(Units(s[k..]));
        if Repair(Units(s)) == s {
          assert Repair(Units(s))[k..] == s[k..];
        }
      }
    }
  }

  /** Two valid texts the encoder reads alike are equal. */
  lemma UnitsInjectiveOnUtf8(s: bytes, t: bytes)
    requires ValidUtf8(s) && ValidUtf8(t) && Units(s) == Units(t)
    ensures s == t
  {
    RepairIsIdentityExactlyOnUtf8(s);
    RepairIsIdentityExactlyOnUtf8(t);
  }

  // ---- writing ----

  function HexDigit(v: int): (b: byte)
    requires 0 <= v < 16
    ensures b != 0x22
  {
    if v < 10 then 0x30 + v else 0x57 + v
  }

  const BACKSLASH: byte := 0x5C
  const QUOTE: byte := 0x22

  /** The escape of one unit. */
  function Escape(u: Unit): (e: bytes)
    requires ValidUnit(u)
    ensures e != []
  {
    if u.Bad? then Ascii("\\ufffd")
    else if |u.code| > 1 then
      if u.code == [0xE2, 0x80, 0xA8] then Ascii("\\u2028")
      else if u.code == [0xE2, 0x80, 0xA9] then Ascii("\\u2029")
      else u.code
    else var c := u.code[0];
      if c == QUOTE || c == BACKSLASH then [BACKSLASH, c]
      else if c == 0x08 then Ascii("\\b")
      else if c == 0x0C then Ascii("\\f")
      else if c == 0x0A then Ascii("\\n")
      else if c == 0x0D then Ascii("\\r")
      else if c == 0x09 then Ascii("\\t")
      else if c < 0x20 || c == 0x3C || c == 0x3E || c == 0x26 then
        Ascii("\\u00") + [HexDigit(c / 16), HexDigit(c % 16)]
      else [c]
  }

  function EscapeAll(us: seq<Unit>): bytes
    requires forall u | u in us :: ValidUnit(u)
  {
    if us == [] then [] else Escape(us[0]) + EscapeAll(us[1..])
  }

  /** A Go string as a JSON string literal. */
  function Quote(s: bytes): bytes {
    [QUOTE] + EscapeAll(Units(s)) + [QUOTE]
  }

  /** Short escapes, and runes that stand for themselves. */
  lemma ShortEscapes()
    ensures Escape(Rune([0x22])) == ['\\' as int, '"' as int] && Escape(Rune([0x5C])) == ['\\' as int, '\\' as int]
    ensures Escape(Rune([0x0A])) == ['\\' as int, 'n' as int] && Escape(Rune([0x09])) == ['\\' as int, 't' as int]
    ensures Escape(Rune([0x2F])) == ['/' as int] && Escape(Rune([0xC3, 0xA9])) == [0xC3, 0xA9]
  {
  }

  /** An HTML byte, a control byte, a line separator, and a byte that is no rune. */
  lemma LongEscapes()
    ensures Escape(Rune([0x3C])) == ['\\' as int, 'u' as int, '0' as int, '0' as int, '3' as int, 'c' as int]
    ensures Escape(Rune([0x1F])) == ['\\' as int, 'u' as int, '0' as int, '0' as int, '1' as int, 'f' as int]
    ensures Escape(Bad) == ['\\' as int, 'u' as int, 'f' as int, 'f' as int, 'f' as int, 'd' as int]
  {
  }

  lemma LineSeparators()
    ensures Escape(Rune([0xE2, 0x80, 0xA8]))
         == ['\\' as int, 'u' as int, '2' as int, '0' as int, '2' as int, '8' as int]
    ensures Escape(Rune([0xE2, 0x80, 0xA9]))
         == ['\\' as int, 'u' as int, '2' as int, '0' as int, '2' as int, '9' as int]
  {
  }

  // ---- reading back ----

  function HexValue(b: byte): int {
    if 0x30 <= b <= 0x39 then b - 0x30 else if 0x61 <= b <= 0x66 then b - 0x57 else -1
  }

  /** The unit whose escape stands at the front of `t`, and the length of that escape. */
  function ReadUnit(t: bytes): (r: (Unit, nat)) {
    if t == [] then (Bad, 0)
    else if t[0] != BACKSLASH then
      if RuneLen(t) > 0 then (Rune(t[..RuneLen(t)]), RuneLen(t)) else (Bad, 0)
    else if |t| < 2 then (Bad, 0)
    else if t[1] == QUOTE || t[1] == BACKSLASH then (Rune([t[1]]), 2)
    else if t[1] == 'b' as int then (Rune([0x08]), 2)
    else if t[1] == 'f' as int then (Rune([0x0C]), 2)
    else if t[1] == 'n' as int then (Rune([0x0A]), 2)
    else if t[1] == 'r' as int then (Rune([0x0D]), 2)
    else if t[1] == 't' as int then (Rune([0x09]), 2)
    else if |t| < 6 then (Bad, 0)
    else if t[2] == 'f' as int then (Bad, 6)
    else if t[2] == '2' as int then (Rune([0xE2, 0x80, if t[5] == '8' as int then 0xA8 else 0xA9]), 6)
    else
      var c := 16 * HexValue(t[4]) + HexValue(t[5]);
      if 0 <= c < 0x80 then (Rune([c]), 6) else (Bad, 0)
  }

  lemma RuneLenExtends(code: bytes, rest: bytes)
    requires code != [] && RuneLen(code) == |code|
    ensures RuneLen(code + rest) == |code|
  {
  }

  lemma ReadEscaped(u: Unit, rest: bytes)
    requires ValidUnit(u)
    ensures ReadUnit(Escape(u) + rest) == (u, |Escape(u)|)
    ensures Escape(u)[0] != QUOTE
  {
    var t := Escape(u) + rest;
    if u.Rune? && Escape(u) == u.code {
      RuneLenExtends(u.code, rest);
      assert t[..|u.code|] == u.code;
    } else if u.Rune? && |u.code| == 1 {
      assert u.code == [u.code[0]];
      assert t[0] == BACKSLASH && t[1] == Escape(u)[1];
      if |Escape(u)| == 6 {
        var c := u.code[0];
        assert t[4] == HexDigit(c / 16) && t[5] == HexDigit(c % 16) && t[2] == '0' as int && t[1] == 'u' as int;
        assert HexValue(t[4]) == c / 16 && HexValue(t[5]) == c % 16;
      }
    } else {
      assert t[0] == BACKSLASH && t[1] == Escape(u)[1] && t[2] == Escape(u)[2] && t[5] == Escape(u)[5];
    }
  }

  function Delimited(us: seq<Unit>, x: bytes): bytes
    requires forall u | u in us :: ValidUnit(u)
  {
    EscapeAll(us) + [QUOTE] + x
  }

  lemma DelimitedFront(us: seq<Unit>, x: bytes)
    requires forall u | u in us :: ValidUnit(u)
    ensures us == [] ==> Delimited(us, x)[0] == QUOTE && Delimited(us, x)[1..] == x
    ensures us != [] ==>
      var n := ReadUnit(Delimited(us, x)).1;
      && Delimited(us, x)[0] != QUOTE && ReadUnit(Delimited(us, x)).0 == us[0]
      && 0 < n <= |Delimited(us, x)| && Delimited(us, x)[n..] == Delimited(us[1..], x)
  {
    hide Escape, ReadUnit, RuneLen;
    if us != [] {
      var rest := Delimited(us[1..], x);
      assert Delimited(us, x) == Escape(us[0]) + rest;
      ReadEscaped(us[0], rest);
    }
  }

  /** Escaped text is self-delimiting: what stands before the closing quote, and what
      stands behind it, are both determined. */
  lemma {:induction false} EscapedPrefixUnique(us: seq<Unit>, x: bytes, vs: seq<Unit>, y: bytes)
    requires forall u | u in us :: ValidUnit(u)
    requires forall v | v in vs :: ValidUnit(v)
    requires Delimited(us, x) == Delimited(vs, y)
    ensures us == vs && x == y
    decreases |us|
  {
    DelimitedFront(us, x);
    DelimitedFront(vs, y);
    if us != [] && vs != [] {
      EscapedPrefixUnique(us[1..], x, vs[1..], y);
      assert us == [us[0]] + us[1..] && vs == [vs[0]] + vs[1..];
    }
  }

  /** Two literals followed by anything: equal texts mean equal readings and equal tails. */
  lemma QuotePrefixUnique(s: bytes, x: bytes, t: bytes, y: bytes)
    requires Quote(s) + x == Quote(t) + y
    ensures Units(s) == Units(t) && x == y
  {
    hide Units, EscapeAll;
    assert (Quote(s) + x)[1..] == Delimited(Units(s), x);
    assert (Quote(t) + y)[1..] == Delimited(Units(t), y);
    EscapedPrefixUnique(Units(s), x, Units(t), y);
  }
}
