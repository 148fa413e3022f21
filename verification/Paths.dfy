/** Slash paths as path/filepath treats them. */
module Paths {
  import opened Bytes
  import opened Splitting

  const SLASH: byte := 47
  const DOT: byte := 46

  function UP(): bytes { [DOT, DOT] }

  /** A name a directory entry can have. */
  predicate ValidName(n: bytes) {
    n != [] && SLASH !in n && n != [DOT] && n != UP()
  }

  ghost predicate ValidNames(cs: seq<bytes>) {
    forall i | 0 <= i < |cs| :: ValidName(cs[i])
  }

  // ---- filepath.Clean and filepath.Join ----

  /** A cleaned path: from the root, or from the working directory. */
  datatype Path = Path(rooted: bool, names: seq<bytes>)

  /** One path element: empty and "." are dropped, ".." goes up, at the root nowhere; a path that is
      not rooted may begin by going up. */
  function Enter(rooted: bool, at: seq<bytes>, part: bytes): seq<bytes> {
    if part == [] || part == [DOT] then at
    else if part != UP() then at + [part]
    else if at != [] && at[|at| - 1] != UP() then at[..|at| - 1]
    else if rooted then at
    else at + [part]
  }

  function CleanFrom(rooted: bool, at: seq<bytes>, parts: seq<bytes>): seq<bytes>
    decreases |parts|
  {
    if parts == [] then at else CleanFrom(rooted, Enter(rooted, at, parts[0]), parts[1..])
  }

  /** filepath.Clean of a path that is not empty. */
  function Clean(p: bytes): Path
    requires p != []
  {
    Path(p[0] == SLASH, CleanFrom(p[0] == SLASH, [], Split(p, SLASH)))
  }

  /** The text of a cleaned path. */
  function Text(p: Path): (r: bytes)
    ensures r != []
  {
    if p.names == [] then if p.rooted then [SLASH] else [DOT]
    else
      var t := Join(p.names, SLASH);
      if p.rooted then [SLASH] + t else if t == [] then [DOT] else t
  }

  /** filepath.Join of a path that is not empty and one more piece. */
  function JoinPath(p: bytes, more: bytes): bytes
    requires p != []
  {
    Text(Clean(p + [SLASH] + more))
  }

  function Below(p: Path, rel: seq<bytes>): Path {
    p.(names := p.names + rel)
  }

  /** Plain names only; in a path that is not rooted, behind leading "..". */
  ghost predicate IsClean(rooted: bool, names: seq<bytes>) {
    forall i | 0 <= i < |names| ::
      ValidName(names[i]) || (!rooted && names[i] == UP() && forall j | 0 <= j < i :: names[j] == UP())
  }

  ghost predicate CleanPath(p: Path) { IsClean(p.rooted, p.names) }

  lemma {:induction false} CleanConcat(rooted: bool, at: seq<bytes>, a: seq<bytes>, b: seq<bytes>)
    ensures CleanFrom(rooted, at, a + b) == CleanFrom(rooted, CleanFrom(rooted, at, a), b)
    decreases |a|
  {
    if a == [] {
      assert a + b == b;
    } else {
      assert (a + b)[0] == a[0] && (a + b)[1..] == a[1..] + b;
      CleanConcat(rooted, Enter(rooted, at, a[0]), a[1..], b);
    }
  }

  /** One element in front of the others. */
  lemma CleanFront(rooted: bool, at: seq<bytes>, part: bytes, rest: seq<bytes>)
    ensures CleanFrom(rooted, at, [part] + rest) == CleanFrom(rooted, Enter(rooted, at, part), rest)
  {
    assert ([part] + rest)[1..] == rest;
  }

  /** The rules of filepath.Clean, on the elements: empty ones and "." go anywhere; ".." takes a plain
      name before it back, vanishes at the root, and stays in front of a path that is not rooted; a
      plain name stays. */
  lemma CleanRules(rooted: bool, at: seq<bytes>, n: bytes, rest: seq<bytes>)
    requires ValidName(n)
    ensures CleanFrom(rooted, at, [[]] + rest) == CleanFrom(rooted, at, rest)
    ensures CleanFrom(rooted, at, [[46]] + rest) == CleanFrom(rooted, at, rest)
    ensures CleanFrom(rooted, at, [n] + rest) == CleanFrom(rooted, at + [n], rest)
    ensures CleanFrom(rooted, at, [n] + ([[46, 46]] + rest)) == CleanFrom(rooted, at, rest)
    ensures CleanFrom(true, [], [[46, 46]] + rest) == CleanFrom(true, [], rest)
    ensures CleanFrom(false, [], [[46, 46]] + rest) == CleanFrom(false, [[46, 46]], rest)
    ensures CleanFrom(false, [[46, 46]], [[46, 46]] + rest) == CleanFrom(false, [[46, 46]] + [[46, 46]], rest)
  {
    hide CleanFrom;
    CleanFront(rooted, at, [], rest);
    CleanFront(rooted, at, [46], rest);
    CleanFront(rooted, at, n, rest);
    CleanFront(rooted, at, n, [[46, 46]] + rest);
    CleanFront(rooted, at + [n], [46, 46], rest);
    CleanFront(true, [], [46, 46], rest);
    CleanFront(false, [], [46, 46], rest);
    CleanFront(false, [[46, 46]], [46, 46], rest);
    assert (at + [n])[..|at|] == at && [] + [UP()] == [UP()];
  }

  lemma {:induction false} CleanValid(rooted: bool, at: seq<bytes>, cs: seq<bytes>)
    requires ValidNames(cs)
    ensures CleanFrom(rooted, at, cs) == at + cs
    decreases |cs|
  {
    if cs != [] {
      assert ValidName(cs[0]);
      CleanValid(rooted, at + [cs[0]], cs[1..]);
      assert at + cs == (at + [cs[0]]) + cs[1..];
    }
  }

  /** What is clean already stays. */
  lemma {:induction false} CleanStays(rooted: bool, at: seq<bytes>, cs: seq<bytes>)
    requires IsClean(rooted, at + cs)
    ensures CleanFrom(rooted, at, cs) == at + cs
    decreases |cs|
  {
    if cs != [] {
      var all := at + cs;
      assert all[|at|] == cs[0];
      assert forall j | 0 <= j < |at| :: all[j] == at[j];
      assert Enter(rooted, at, cs[0]) == at + [cs[0]];
      assert (at + [cs[0]]) + cs[1..] == all;
      CleanStays(rooted, at + [cs[0]], cs[1..]);
    }
  }

  lemma {:induction false} CleanYieldsClean(rooted: bool, at: seq<bytes>, parts: seq<bytes>)
    requires IsClean(rooted, at) && forall p | p in parts :: SLASH !in p
    ensures IsClean(rooted, CleanFrom(rooted, at, parts))
    decreases |parts|
  {
    if parts != [] {
      assert parts[0] in parts;
      EnterYieldsClean(rooted, at, parts[0]);
      CleanYieldsClean(rooted, Enter(rooted, at, parts[0]), parts[1..]);
    }
  }

  lemma EnterYieldsClean(rooted: bool, at: seq<bytes>, part: bytes)
    requires IsClean(rooted, at) && SLASH !in part
    ensures IsClean(rooted, Enter(rooted, at, part))
  {
    var r := Enter(rooted, at, part);
    forall i | 0 <= i < |r|
      ensures ValidName(r[i]) || (!rooted && r[i] == UP() && forall j | 0 <= j < i :: r[j] == UP())
    {
      if i < |at| {
        assert r[i] == at[i];
      } else if !ValidName(part) {
        assert at != [] ==> at[|at| - 1] == UP();
      }
    }
  }

  lemma CleanIsClean(p: bytes)
    requires p != []
    ensures CleanPath(Clean(p))
  {
    JoinSplit(p, SLASH);
    CleanYieldsClean(p[0] == SLASH, [], Split(p, SLASH));
  }

  /** Joining goes on from where the first path leads. */
  lemma CleanJoin(p: bytes, more: bytes)
    requires p != []
    ensures var c := Clean(p);
            Clean(p + [SLASH] + more) == Path(c.rooted, CleanFrom(c.rooted, c.names, Split(more, SLASH)))
  {
    SplitConcat(p, more, SLASH);
    assert (p + [SLASH] + more)[0] == p[0];
    CleanConcat(p[0] == SLASH, [], Split(p, SLASH), Split(more, SLASH));
  }

  lemma CleanNamesHaveNoSlash(p: Path)
    requires CleanPath(p)
    ensures forall n | n in p.names :: SLASH !in n && n != []
  {
    forall n | n in p.names ensures SLASH !in n && n != [] {
      var i :| 0 <= i < |p.names| && p.names[i] == n;
      assert ValidName(p.names[i]) || p.names[i] == UP();
    }
  }

  /** The text of a cleaned path names it. */
  lemma CleanOfText(p: Path)
    requires CleanPath(p)
    ensures Clean(Text(p)) == p
  {
    CleanNamesHaveNoSlash(p);
    if p.names == [] {
      if p.rooted {
        assert [SLASH] == [] + [SLASH] + [];
        SplitConcat([], [], SLASH);
        assert Split([SLASH], SLASH) == [[], []];
        assert CleanFrom(true, [], [[], []]) == CleanFrom(true, [], [[]]) == [];
      } else {
        SplitWithout([DOT], SLASH);
        assert CleanFrom(false, [], [[DOT]]) == [];
      }
    } else {
      var t := Join(p.names, SLASH);
      SplitJoin(p.names, SLASH);
      JoinBegins(p.names);
      assert [] + p.names == p.names;
      CleanStays(p.rooted, [], p.names);
      if p.rooted {
        assert [SLASH] + t == [] + [SLASH] + t;
        SplitConcat([], t, SLASH);
        CleanConcat(true, [], [[]], p.names);
        assert CleanFrom(true, [], [[]]) == [];
      }
    }
  }

  lemma JoinBegins(names: seq<bytes>)
    requires names != [] && forall n | n in names :: SLASH !in n && n != []
    ensures Join(names, SLASH) != [] && names[0] != [] && Join(names, SLASH)[0] == names[0][0] != SLASH
    ensures |Join(names, SLASH)| >= |names[0]|
  {
    assert names[0] in names && names[0][0] in names[0];
  }

  lemma {:induction false} JoinConcat(a: seq<bytes>, b: seq<bytes>)
    requires a != [] && b != []
    ensures Join(a + b, SLASH) == Join(a, SLASH) + [SLASH] + Join(b, SLASH)
    decreases |a|
  {
    assert (a + b)[0] == a[0] && (a + b)[1..] == a[1..] + b;
    if |a| > 1 {
      JoinConcat(a[1..], b);
    } else {
      assert a[1..] + b == b;
    }
  }

  // ---- filepath.Ext ----

  /** From the last dot of the last element on; empty without one. */
  function Ext(p: bytes): bytes {
    if p == [] || p[|p| - 1] == SLASH then []
    else if p[|p| - 1] == DOT then [DOT]
    else
      var e := Ext(p[..|p| - 1]);
      if e == [] then [] else e + [p[|p| - 1]]
  }

  predicate HasSuffix(s: bytes, suffix: bytes) {
    |suffix| <= |s| && s[|s| - |suffix|..] == suffix
  }

  /** ".gpg" and ".age": a dot and then neither dots nor slashes. */
  predicate PlainExtension(ext: bytes) {
    |ext| > 1 && ext[0] == DOT && DOT !in ext[1..] && SLASH !in ext[1..]
  }

  lemma {:induction false} ExtIsSuffix(p: bytes)
    ensures HasSuffix(p, Ext(p))
  {
    if p != [] {
      var init := p[..|p| - 1];
      ExtIsSuffix(init);
      assert p == init + [p[|p| - 1]];
    }
  }

  lemma {:induction false} ExtOfSuffixed(p: bytes, tail: bytes)
    requires DOT !in tail && SLASH !in tail
    ensures Ext(p + [DOT] + tail) == [DOT] + tail
    decreases |tail|
  {
    var s := p + [DOT] + tail;
    if tail != [] {
      var init := tail[..|tail| - 1];
      ExtOfSuffixed(p, init);
      assert s[..|s| - 1] == p + [DOT] + init;
      assert tail[|tail| - 1] in tail;
      assert [DOT] + tail == ([DOT] + init) + [tail[|tail| - 1]];
    }
  }

  /** The extension test is a suffix test. */
  lemma ExtExactly(p: bytes, ext: bytes)
    requires PlainExtension(ext)
    ensures Ext(p) == ext <==> HasSuffix(p, ext)
  {
    ExtIsSuffix(p);
    if HasSuffix(p, ext) {
      var front := p[..|p| - |ext|];
      assert p == front + [DOT] + ext[1..];
      ExtOfSuffixed(front, ext[1..]);
      assert ext == [DOT] + ext[1..];
    }
  }
}
