/** Base 64 with padding (section 4 of RFC 4648): how encoding/json writes a byte slice. */
module Base64 {
  import opened Bytes

  function Symbol(v: int): (b: byte)
    requires 0 <= v < 64
  {
    if v < 26 then 65 + v else if v < 52 then 71 + v else if v < 62 then v - 4
    else if v == 62 then 43 else 47
  }

  function Value(b: byte): (v: int)
    ensures -1 <= v < 64
  {
    if 65 <= b <= 90 then b - 65 else if 97 <= b <= 122 then b - 71
    else if 48 <= b <= 57 then b + 4 else if b == 43 then 62 else if b == 47 then 63 else -1
  }

  lemma ValueOfSymbol(v: int)
    requires 0 <= v < 64
    ensures Value(Symbol(v)) == v
  {
  }

  const PAD: byte := 61

  /** The four symbols of one group of up to three bytes. */
  function Group(b: bytes): (r: bytes)
    requires 1 <= |b| <= 3
    ensures |r| == 4
  {
    var x, y, z := b[0], if |b| > 1 then b[1] else 0, if |b| > 2 then b[2] else 0;
    [Symbol(x / 4), Symbol(x % 4 * 16 + y / 16),
     if |b| > 1 then Symbol(y % 16 * 4 + z / 64) else PAD,
     if |b| > 2 then Symbol(z % 64) else PAD]
  }

  function Merge(p: int, q: int, r: int, s: int, n: int): bytes {
    [(p * 4 + q / 16) % 256]
    + (if n < 2 then [] else [(q % 16 * 16 + r / 4) % 256])
    + (if n < 3 then [] else [(r % 4 * 64 + s) % 256])
  }

  function UnGroup(g: bytes): bytes
    requires |g| == 4
  {
    Merge(Value(g[0]), Value(g[1]), Value(g[2]), Value(g[3]),
          if g[2] == PAD then 1 else if g[3] == PAD then 2 else 3)
  }

  lemma SplitSextets(x: byte, y: byte, z: byte)
    ensures x / 4 * 4 + (x % 4 * 16 + y / 16) / 16 == x
    ensures (x % 4 * 16 + y / 16) % 16 * 16 + (y % 16 * 4 + z / 64) / 4 == y
    ensures (y % 16 * 4 + z / 64) % 4 * 64 + z % 64 == z
  {
    assert (x % 4 * 16 + y / 16) / 16 == x % 4 && (x % 4 * 16 + y / 16) % 16 == y / 16;
    assert (y % 16 * 4 + z / 64) / 4 == y % 16 && (y % 16 * 4 + z / 64) % 4 == z / 64;
  }

  lemma UnGroupGroup(b: bytes)
    requires 1 <= |b| <= 3
    ensures UnGroup(Group(b)) == b
  {
    hide Symbol, Value, Merge;
    var x, y, z := b[0], if |b| > 1 then b[1] else 0, if |b| > 2 then b[2] else 0;
    var p, q, r, s := x / 4, x % 4 * 16 + y / 16, y % 16 * 4 + z / 64, z % 64;
    SplitSextets(x, y, z);
    ValueOfSymbol(p);
    ValueOfSymbol(q);
    ValueOfSymbol(r);
    ValueOfSymbol(s);
    SymbolIsNotPad(r);
    SymbolIsNotPad(s);
    MergeSextets(b, x, y, z);
  }

  lemma MergeSextets(b: bytes, x: byte, y: byte, z: byte)
    requires 1 <= |b| <= 3 && x == b[0]
    requires y == (if |b| > 1 then b[1] else 0) && z == (if |b| > 2 then b[2] else 0)
    ensures Merge(x / 4, x % 4 * 16 + y / 16, y % 16 * 4 + z / 64, z % 64, |b|) == b
    ensures |b| < 3 ==> Merge(x / 4, x % 4 * 16 + y / 16, y % 16 * 4, -1, |b|) == b
    ensures |b| < 2 ==> Merge(x / 4, x % 4 * 16 + y / 16, -1, -1, |b|) == b
  {
    SplitSextets(x, y, z);
  }

  lemma SymbolIsNotPad(v: int)
    requires 0 <= v < 64
    ensures Symbol(v) != PAD && Value(PAD) == -1
  {
  }

  function Encode(b: bytes): bytes
    decreases |b|
  {
    if b == [] then []
    else if |b| <= 3 then Group(b)
    else Group(b[..3]) + Encode(b[3..])
  }

  function Decode(t: bytes): bytes
    decreases |t|
  {
    if |t| < 4 then [] else UnGroup(t[..4]) + Decode(t[4..])
  }

  lemma {:induction false} DecodeEncode(b: bytes)
    ensures Decode(Encode(b)) == b
    decreases |b|
  {
    if b == [] {
    } else if |b| <= 3 {
      UnGroupGroup(b);
      assert Encode(b)[..4] == Group(b);
    } else {
      UnGroupGroup(b[..3]);
      DecodeEncode(b[3..]);
      assert Encode(b)[..4] == Group(b[..3]) && Encode(b)[4..] == Encode(b[3..]);
      assert b == b[..3] + b[3..];
    }
  }

  /** Test vectors of section 10 of RFC 4648, and the two last symbols of the alphabet. */
  lemma Examples()
    ensures Encode(['f' as int]) == ['Z' as int, 'g' as int, '=' as int, '=' as int]
    ensures Encode(['f' as int, 'o' as int]) == ['Z' as int, 'm' as int, '8' as int, '=' as int]
    ensures Encode(['f' as int, 'o' as int, 'o' as int]) == ['Z' as int, 'm' as int, '9' as int, 'v' as int]
    ensures Encode([0xFB, 0xEF, 0xFF]) == ['+' as int, '+' as int, '/' as int, '/' as int]
  {
  }

  /** No symbol is a quotation mark, so a quoted value ends at the first one. */
  lemma {:induction false} NoQuote(b: bytes)
    ensures 0x22 !in Encode(b)
    decreases |b|
  {
    if |b| > 3 { NoQuote(b[3..]); }
  }

  /** A byte slice as a JSON string literal. */
  function QuotedBytes(b: bytes): bytes {
    [0x22] + Encode(b) + [0x22]
  }

  lemma QuotedBytesPrefixUnique(b: bytes, x: bytes, c: bytes, y: bytes)
    requires QuotedBytes(b) + x == QuotedBytes(c) + y
    ensures b == c && x == y
  {
    hide Encode, Decode;
    var l, r, m, n := QuotedBytes(b) + x, QuotedBytes(c) + y, |Encode(b)|, |Encode(c)|;
    NoQuote(b);
    NoQuote(c);
    assert l[1..m + 1] == Encode(b) && r[1..n + 1] == Encode(c);
    assert l[m + 1] == 0x22 && r[n + 1] == 0x22;
    assert forall i | 0 <= i < m :: l[i + 1] == Encode(b)[i] != 0x22;
    assert forall i | 0 <= i < n :: r[i + 1] == Encode(c)[i] != 0x22;
    assert m == n;
    DecodeEncode(b);
    DecodeEncode(c);
    assert l[m + 2..] == x && r[n + 2..] == y;
  }
}
