/** strings.Split on one separator byte, and joining back. */
module Splitting {
  import opened Bytes

  /** What one more byte in front of a text does to its parts. */
  function Grow(c: byte, sep: byte, parts: seq<bytes>): (r: seq<bytes>)
    requires parts != []
    ensures r != []
  {
    if c == sep then [[]] + parts else [[c] + parts[0]] + parts[1..]
  }

  lemma GrowConcat(c: byte, sep: byte, x: seq<bytes>, y: seq<bytes>)
    requires x != []
    ensures Grow(c, sep, x + y) == Grow(c, sep, x) + y
  {
  }

  lemma GrowAtSeparator(sep: byte, parts: seq<bytes>)
    requires parts != []
    ensures Grow(sep, sep, parts) == [[]] + parts
  {
  }

  function Split(s: bytes, sep: byte): (r: seq<bytes>)
    ensures r != []
  {
    if s == [] then [[]] else Grow(s[0], sep, Split(s[1..], sep))
  }

  function Join(parts: seq<bytes>, sep: byte): bytes
    requires parts != []
  {
    if |parts| == 1 then parts[0] else parts[0] + [sep] + Join(parts[1..], sep)
  }

  lemma {:induction false} SplitWithout(s: bytes, sep: byte)
    requires sep !in s
    ensures Split(s, sep) == [s]
  {
    if s != [] {
      SplitWithout(s[1..], sep);
      assert [s[0]] + s[1..] == s;
    }
  }

  /** A separator in the text separates the parts before it from those behind it. */
  lemma {:induction false} SplitConcat(a: bytes, b: bytes, sep: byte)
    ensures Split(a + [sep] + b, sep) == Split(a, sep) + Split(b, sep)
  {
    hide Grow;
    var t := a + [sep] + b;
    if a == [] {
      assert t[1..] == b;
      GrowAtSeparator(sep, Split(b, sep));
    } else {
      SplitConcat(a[1..], b, sep);
      assert t[1..] == a[1..] + [sep] + b && t[0] == a[0];
      GrowConcat(a[0], sep, Split(a[1..], sep), Split(b, sep));
    }
  }

  lemma {:induction false} JoinSplit(s: bytes, sep: byte)
    ensures Join(Split(s, sep), sep) == s
    ensures forall p | p in Split(s, sep) :: sep !in p
  {
    if s != [] {
      JoinSplit(s[1..], sep);
      var rest := Split(s[1..], sep);
      var all := Split(s, sep);
      if s[0] == sep {
        assert all[1..] == rest;
      } else {
        assert all[0] == [s[0]] + rest[0] && all[1..] == rest[1..];
        assert |rest| > 1 ==> Join(all, sep) == [s[0]] + (rest[0] + [sep] + Join(rest[1..], sep));
      }
    }
  }

  lemma {:induction false} SplitJoin(parts: seq<bytes>, sep: byte)
    requires parts != [] && forall p | p in parts :: sep !in p
    ensures Split(Join(parts, sep), sep) == parts
  {
    SplitWithout(parts[0], sep);
    if |parts| > 1 {
      SplitJoin(parts[1..], sep);
      SplitConcat(parts[0], Join(parts[1..], sep), sep);
    }
  }
}
