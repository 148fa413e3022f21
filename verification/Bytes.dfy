/** Go strings are byte strings.  This module gives them literals, prefixes and the
    byte-wise order that `sort.Strings` uses. */
module Bytes {
  type byte = x: int | 0 <= x < 256
  type bytes = seq<byte>

  /** The bytes of an ASCII literal. */
  function Ascii(s: string): (r: bytes)
    ensures |r| == |s|
    ensures forall i | 0 <= i < |s| :: r[i] == s[i] as int % 256
  {
    seq(|s|, i requires 0 <= i < |s| => s[i] as int % 256)
  }

  predicate HasPrefix(s: bytes, prefix: bytes) {
    |prefix| <= |s| && s[..|prefix|] == prefix
  }

  /** strings.TrimPrefix */
  function TrimPrefix(s: bytes, prefix: bytes): bytes {
    if HasPrefix(s, prefix) then s[|prefix|..] else s
  }

  lemma PrefixSplit(s: bytes, prefix: bytes)
    requires HasPrefix(s, prefix)
    ensures s == prefix + TrimPrefix(s, prefix)
  {
  }

  lemma PrefixOfConcat(prefix: bytes, rest: bytes)
    ensures HasPrefix(prefix + rest, prefix) && TrimPrefix(prefix + rest, prefix) == rest
  {
    assert (prefix + rest)[..|prefix|] == prefix;
  }

  /** What a prefix and the text behind it are, without naming lengths. */
  lemma PrefixExactly(s: bytes, prefix: bytes)
    ensures HasPrefix(s, prefix) <==> exists rest: bytes :: s == prefix + rest
    ensures forall rest: bytes | s == prefix + rest :: TrimPrefix(s, prefix) == rest
    ensures (forall rest: bytes :: s != prefix + rest) ==> TrimPrefix(s, prefix) == s
  {
    if HasPrefix(s, prefix) { PrefixSplit(s, prefix); }
    forall rest: bytes | s == prefix + rest ensures HasPrefix(s, prefix) && TrimPrefix(s, prefix) == rest {
      PrefixOfConcat(prefix, rest);
    }
  }

  // ---- the order of Go strings ----

  predicate Less(a: bytes, b: bytes) {
    if b == [] then false
    else if a == [] then true
    else a[0] < b[0] || (a[0] == b[0] && Less(a[1..], b[1..]))
  }

  /** The first i bytes agree, and then a ends, or has the smaller byte. */
  ghost predicate LessAt(a: bytes, b: bytes, i: nat) {
    && i <= |a| && i < |b| && a[..i] == b[..i]
    && (i < |a| ==> a[i] < b[i])
  }

  lemma LessAtBegins(a: bytes, b: bytes, i: nat)
    requires LessAt(a, b, i)
    ensures i > 0 ==> a != [] && a[0] == b[0]
  {
    if i > 0 { assert a[0] == a[..i][0] && b[0] == b[..i][0]; }
  }

  /** The order is that of the first byte that differs; a proper prefix comes first. */
  lemma {:induction false} LessExactly(a: bytes, b: bytes)
    ensures Less(a, b) <==> exists i: nat :: LessAt(a, b, i)
  {
    if a != [] && b != [] && a[0] == b[0] {
      LessExactly(a[1..], b[1..]);
      assert a == [a[0]] + a[1..] && b == [b[0]] + b[1..];
      if i: nat :| LessAt(a[1..], b[1..], i) {
        assert LessAt(a, b, i + 1);
      }
      if i: nat :| LessAt(a, b, i) {
        if i > 0 { assert LessAt(a[1..], b[1..], i - 1); }
      }
    } else if Less(a, b) {
      assert LessAt(a, b, 0);
    } else if i: nat :| LessAt(a, b, i) {
      LessAtBegins(a, b, i);
    }
  }

  lemma LessTrichotomy(a: bytes, b: bytes)
    ensures a == b || Less(a, b) || Less(b, a)
    ensures !(Less(a, b) && Less(b, a)) && !Less(a, a)
  {
    if a != [] && b != [] {
      LessTrichotomy(a[1..], b[1..]);
      assert a == [a[0]] + a[1..] && b == [b[0]] + b[1..];
    }
  }

  lemma LessTransitive(a: bytes, b: bytes, c: bytes)
    requires Less(a, b) && Less(b, c)
    ensures Less(a, c)
  {
  }

  ghost predicate StrictlySorted(s: seq<bytes>) {
    forall i, j | 0 <= i < j < |s| :: Less(s[i], s[j])
  }

  ghost predicate Distinct<T>(s: seq<T>) {
    forall i, j | 0 <= i < j < |s| :: s[i] != s[j]
  }

  /** Inserts a new string into a sorted list. */
  function Insert(s: seq<bytes>, x: bytes): (r: seq<bytes>)
    ensures multiset(r) == multiset(s) + multiset{x}
  {
    if s == [] || Less(x, s[0]) then
      assert [x] + s == [x] + s[0..];
      [x] + s
    else
      assert s == [s[0]] + s[1..];
      [s[0]] + Insert(s[1..], x)
  }

  /** sort.Strings */
  function Sorted(s: seq<bytes>): (r: seq<bytes>)
    ensures multiset(r) == multiset(s)
  {
    if s == [] then [] else
      assert s == s[..|s| - 1] + [s[|s| - 1]];
      Insert(Sorted(s[..|s| - 1]), s[|s| - 1])
  }

  lemma {:induction false} InsertKeepsOrder(s: seq<bytes>, x: bytes)
    requires StrictlySorted(s) && x !in s
    ensures StrictlySorted(Insert(s, x))
  {
    if s == [] {
    } else if Less(x, s[0]) {
      forall j | 0 <= j < |s| ensures Less(x, s[j]) {
        if j > 0 { LessTransitive(x, s[0], s[j]); }
      }
    } else {
      LessTrichotomy(x, s[0]);
      var rest := Insert(s[1..], x);
      InsertKeepsOrder(s[1..], x);
      forall y | y in rest ensures Less(s[0], y) {
        assert y in multiset(rest);
      }
    }
  }

  /** Sorting distinct strings leaves them strictly ascending. */
  lemma {:induction false} SortedIsStrict(s: seq<bytes>)
    requires Distinct(s)
    ensures StrictlySorted(Sorted(s))
  {
    if s != [] {
      var init := s[..|s| - 1];
      SortedIsStrict(init);
      SortedMembers(init);
      InsertKeepsOrder(Sorted(init), s[|s| - 1]);
    }
  }

  lemma SortedMembers(s: seq<bytes>)
    ensures |Sorted(s)| == |s|
    ensures forall x :: x in Sorted(s) <==> x in s
  {
    assert |multiset(Sorted(s))| == |multiset(s)|;
    forall x ensures x in Sorted(s) <==> x in s {
      assert x in Sorted(s) <==> x in multiset(Sorted(s));
    }
  }
}
