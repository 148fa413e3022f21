/** Readers for the JSON texts the models write: each takes one piece off the front of a text. */
module Reading {
  import opened Bytes
  import opened Errors
  import opened Json
  import Base64

  /** A value and the text behind it. */
  datatype Piece<+T> = Piece(value: T, rest: bytes)

  function Expect(literal: bytes, t: bytes): Option<bytes> {
    if HasPrefix(t, literal) then Some(TrimPrefix(t, literal)) else None
  }

  lemma ExpectsLiteral(literal: bytes, rest: bytes)
    ensures Expect(literal, literal + rest) == Some(rest)
  {
    PrefixOfConcat(literal, rest);
  }

  // ---- strings ----

  /** The units up to the closing quote. */
  function ReadUnits(t: bytes): Option<Piece<seq<Unit>>>
    decreases |t|
  {
    if t == [] then None
    else if t[0] == QUOTE then Some(Piece([], t[1..]))
    else
      var u := ReadUnit(t);
      if u.1 == 0 || u.1 > |t| then None
      else
        var more :- ReadUnits(t[u.1..]);
        Some(Piece([u.0] + more.value, more.rest))
  }

  lemma {:induction false} ReadsUnits(us: seq<Unit>, x: bytes)
    requires forall u | u in us :: ValidUnit(u)
    ensures ReadUnits(Delimited(us, x)) == Some(Piece(us, x))
    decreases |us|
  {
    hide ReadUnit;
    DelimitedFront(us, x);
    if us != [] {
      ReadsUnits(us[1..], x);
      assert us == [us[0]] + us[1..];
    }
  }

  /** A string literal; bytes that were no rune come out as U+FFFD. */
  function ReadString(t: bytes): Option<Piece<bytes>> {
    var rest :- Expect([QUOTE], t);
    var units :- ReadUnits(rest);
    Some(Piece(Repair(units.value), units.rest))
  }

  lemma ReadsString(s: bytes, x: bytes)
    ensures ReadString(Quote(s) + x) == Some(Piece(Repair(Units(s)), x))
  {
    hide Units, EscapeAll, ReadUnits, Expect;
    assert Quote(s) + x == [QUOTE] + Delimited(Units(s), x);
    ExpectsLiteral([QUOTE], Delimited(Units(s), x));
    ReadsUnits(Units(s), x);
  }

  // ---- byte slices ----

  function UntilQuote(t: bytes): Option<Piece<bytes>> {
    if t == [] then None
    else if t[0] == QUOTE then Some(Piece([], t[1..]))
    else
      var more :- UntilQuote(t[1..]);
      Some(Piece([t[0]] + more.value, more.rest))
  }

  lemma {:induction false} FindsQuote(b: bytes, x: bytes)
    requires QUOTE !in b
    ensures UntilQuote(b + ([QUOTE] + x)) == Some(Piece(b, x))
  {
    var t := b + ([QUOTE] + x);
    if b == [] {
      assert t == [QUOTE] + x;
    } else {
      FindsQuote(b[1..], x);
      assert t[1..] == b[1..] + ([QUOTE] + x) && t[0] == b[0] && b[0] in b;
      assert b == [b[0]] + b[1..];
    }
  }

  function ReadBytes(t: bytes): Option<Piece<bytes>> {
    var rest :- Expect([QUOTE], t);
    var symbols :- UntilQuote(rest);
    Some(Piece(Base64.Decode(symbols.value), symbols.rest))
  }

  lemma ReadsBytes(b: bytes, x: bytes)
    ensures ReadBytes(Base64.QuotedBytes(b) + x) == Some(Piece(b, x))
  {
    hide Base64.Encode, Base64.Decode, UntilQuote, Expect;
    var body := Base64.Encode(b) + ([QUOTE] + x);
    assert Base64.QuotedBytes(b) + x == [QUOTE] + body;
    ExpectsLiteral([QUOTE], body);
    Base64.NoQuote(b);
    FindsQuote(Base64.Encode(b), x);
    Base64.DecodeEncode(b);
  }

  // ---- fields ----

  function StringField(name: bytes, t: bytes): Option<Piece<bytes>> {
    var rest :- Expect(name, t);
    ReadString(rest)
  }

  function BytesField(name: bytes, t: bytes): Option<Piece<bytes>> {
    var rest :- Expect(name, t);
    ReadBytes(rest)
  }

  lemma ReadsStringField(name: bytes, s: bytes, x: bytes)
    ensures StringField(name, name + (Quote(s) + x)) == Some(Piece(Repair(Units(s)), x))
  {
    hide Expect, Quote, ReadString;
    ExpectsLiteral(name, Quote(s) + x);
    ReadsString(s, x);
  }

  lemma ReadsBytesField(name: bytes, b: bytes, x: bytes)
    ensures BytesField(name, name + (Base64.QuotedBytes(b) + x)) == Some(Piece(b, x))
  {
    hide Expect, ReadBytes, Base64.QuotedBytes;
    ExpectsLiteral(name, Base64.QuotedBytes(b) + x);
    ReadsBytes(b, x);
  }

  // ---- ASCII is UTF-8 ----

  lemma AsciiTextIsUtf8(text: string)
    requires forall i | 0 <= i < |text| :: text[i] < 0x80 as char
    ensures ValidUtf8(Ascii(text))
  {
    hide ValidUtf8;
    AsciiIsUtf8(Ascii(text));
  }

  lemma {:induction false} AsciiIsUtf8(s: bytes)
    requires forall i | 0 <= i < |s| :: s[i] < 0x80
    ensures ValidUtf8(s)
  {
    if s != [] {
      AsciiIsUtf8(s[1..]);
    }
  }
}
