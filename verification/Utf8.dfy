/** The encoder's reading of UTF-8, held against section 3 of RFC 3629 by way of scalar values. */
module Utf8 {
  import opened Bytes
  import opened Json

  predicate Scalar(c: int) { 0 <= c < 0xD800 || 0xE000 <= c < 0x110000 }

  function Encoded(c: int): bytes
    requires Scalar(c)
  {
    if c < 0x80 then [c]
    else if c < 0x800 then [0xC0 + c / 0x40, 0x80 + c % 0x40]
    else if c < 0x10000 then [0xE0 + c / 0x1000, 0x80 + c / 0x40 % 0x40, 0x80 + c % 0x40]
    else [0xF0 + c / 0x40000, 0x80 + c / 0x1000 % 0x40, 0x80 + c / 0x40 % 0x40, 0x80 + c % 0x40]
  }

  lemma Bounds(c: int)
    requires Scalar(c)
    ensures 0x800 <= c < 0x10000 ==>
              (c / 0x1000 == 0 ==> c / 0x40 % 0x40 >= 0x20) && (c / 0x1000 == 13 ==> c / 0x40 % 0x40 < 0x20)
    ensures 0x10000 <= c ==>
              (c / 0x40000 == 0 ==> c / 0x1000 % 0x40 >= 0x10) && (c / 0x40000 == 4 ==> c / 0x1000 % 0x40 < 0x10)
    ensures 0x80 <= c < 0x800 ==> c / 0x40 >= 2
  {
  }

  lemma EncodedIsRune(c: int, s: bytes)
    requires Scalar(c) && HasPrefix(s, Encoded(c))
    ensures RuneLen(s) == |Encoded(c)|
  {
    Bounds(c);
    var e := Encoded(c);
    assert forall i | 0 <= i < |e| :: s[i] == s[..|e|][i];
  }

  lemma Digits(p: int, q: int, r: int, t: int)
    requires 0 <= p && 0 <= q < 0x40 && 0 <= r < 0x40 && 0 <= t < 0x40
    ensures var c := p * 0x40000 + q * 0x1000 + r * 0x40 + t;
      && c / 0x40000 == p && c / 0x1000 % 0x40 == q && c / 0x40 % 0x40 == r && c % 0x40 == t
      && c / 0x1000 == p * 0x40 + q && c / 0x40 == p * 0x1000 + q * 0x40 + r
  {
    var c := p * 0x40000 + q * 0x1000 + r * 0x40 + t;
    assert c / 0x40 == p * 0x1000 + q * 0x40 + r;
    assert c / 0x1000 == p * 0x40 + q;
  }

  /** What a rune at the front of the text spells. */
  lemma RuneIsEncoded(s: bytes) returns (c: int)
    requires RuneLen(s) > 0
    ensures Scalar(c) && Encoded(c) == s[..RuneLen(s)]
  {
    var n := RuneLen(s);
    var w: int := s[0];
    var x: int := if n > 1 then s[1] else 0x80;
    var y: int := if n > 2 then s[2] else 0x80;
    var z: int := if n > 3 then s[3] else 0x80;
    if n == 1 {
      c := w;
    } else if n == 2 {
      Digits(0, 0, w - 0xC0, x - 0x80);
      c := (w - 0xC0) * 0x40 + (x - 0x80);
    } else if n == 3 {
      Digits(0, w - 0xE0, x - 0x80, y - 0x80);
      c := (w - 0xE0) * 0x1000 + (x - 0x80) * 0x40 + (y - 0x80);
    } else {
      Digits(w - 0xF0, x - 0x80, y - 0x80, z - 0x80);
      c := (w - 0xF0) * 0x40000 + (x - 0x80) * 0x1000 + (y - 0x80) * 0x40 + (z - 0x80);
    }
  }

  /** A rune is read exactly where the encoding of a scalar value stands, and then all of it. */
  lemma RuneLenExactly(s: bytes)
    ensures RuneLen(s) > 0 <==> exists c: int :: Scalar(c) && HasPrefix(s, Encoded(c))
    ensures forall c: int | Scalar(c) && HasPrefix(s, Encoded(c)) :: RuneLen(s) == |Encoded(c)|
  {
    forall c: int | Scalar(c) && HasPrefix(s, Encoded(c)) ensures RuneLen(s) == |Encoded(c)| > 0 {
      EncodedIsRune(c, s);
    }
    if RuneLen(s) > 0 {
      var c := RuneIsEncoded(s);
      assert HasPrefix(s, Encoded(c));
    }
  }

  ghost predicate Scalars(cs: seq<int>) {
    forall i | 0 <= i < |cs| :: Scalar(cs[i])
  }

  ghost function EncodedAll(cs: seq<int>): bytes
    requires Scalars(cs)
  {
    if cs == [] then [] else Encoded(cs[0]) + EncodedAll(cs[1..])
  }

  lemma {:induction false} EncodedIsValid(cs: seq<int>)
    requires Scalars(cs)
    ensures ValidUtf8(EncodedAll(cs))
  {
    if cs != [] {
      var s, rest := EncodedAll(cs), EncodedAll(cs[1..]);
      EncodedIsValid(cs[1..]);
      assert Encoded(cs[0]) != [];
      PrefixOfConcat(Encoded(cs[0]), rest);
      EncodedIsRune(cs[0], s);
      assert s[RuneLen(s)..] == rest;
      assert Units(s) == [Rune(s[..RuneLen(s)])] + Units(rest);
    }
  }

  lemma BadBegins(s: bytes)
    requires s != [] && RuneLen(s) == 0
    ensures !ValidUtf8(s)
  {
    assert Bad in [Bad] + Units(s[1..]);
  }

  lemma ValidBeginsWithRune(s: bytes)
    requires s != [] && ValidUtf8(s)
    ensures RuneLen(s) > 0
  {
    if RuneLen(s) == 0 { BadBegins(s); }
  }

  lemma {:induction false} ValidIsEncoded(s: bytes) returns (cs: seq<int>)
    requires ValidUtf8(s)
    ensures Scalars(cs) && EncodedAll(cs) == s
    decreases |s|
  {
    if s == [] {
      cs := [];
    } else {
      hide RuneLen, Encoded;
      var n := RuneLen(s);
      ValidBeginsWithRune(s);
      assert Units(s) == [Rune(s[..n])] + Units(s[n..]);
      var c := RuneIsEncoded(s);
      var more := ValidIsEncoded(s[n..]);
      cs := [c] + more;
      assert cs[1..] == more && s == s[..n] + s[n..];
      assert EncodedAll(cs) == Encoded(c) + EncodedAll(more);
    }
  }

  /** Text is valid exactly when it is the encoding of a list of scalar values. */
  lemma ValidExactly(s: bytes)
    ensures ValidUtf8(s) <==> exists cs: seq<int> :: Scalars(cs) && EncodedAll(cs) == s
  {
    if ValidUtf8(s) {
      var cs := ValidIsEncoded(s);
    }
    forall cs: seq<int> | Scalars(cs) && EncodedAll(cs) == s ensures ValidUtf8(s) {
      EncodedIsValid(cs);
    }
  }
}
