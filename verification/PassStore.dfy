/** The key listing of pass.go and passage.go over a directory tree, and the existence test it
    must agree with.  One model serves both: they differ in the extension only. */
module PassStore {
  import opened Bytes
  import opened Errors
  import opened Splitting
  import opened Paths

  datatype Tree = File | Dir(entries: Entries)
  datatype Entries = Empty | Entry(name: bytes, node: Tree, rest: Entries)

  function NamesIn(es: Entries): set<bytes> {
    match es
    case Empty => {}
    case Entry(n, _, rest) => {n} + NamesIn(rest)
  }

  /** Directory entries have valid and distinct names. */
  ghost predicate WellFormed(t: Tree) {
    t.Dir? ==> WellFormedEntries(t.entries)
  }

  ghost predicate WellFormedEntries(es: Entries) {
    match es
    case Empty => true
    case Entry(n, t, rest) => ValidName(n) && n !in NamesIn(rest) && WellFormed(t) && WellFormedEntries(rest)
  }

  function Child(es: Entries, n: bytes): Option<Tree> {
    match es
    case Empty => None
    case Entry(m, t, rest) => if m == n then Some(t) else Child(rest, n)
  }

  /** What os.Stat finds along these elements. */
  function At(t: Tree, cs: seq<bytes>): Option<Tree>
    decreases |cs|
  {
    if cs == [] then Some(t)
    else if t.File? then None
    else match Child(t.entries, cs[0])
      case None => None
      case Some(sub) => At(sub, cs[1..])
  }

  /** os.Stat fails along these elements because one of them would lie below a file. */
  predicate Blocked(t: Tree, cs: seq<bytes>)
    decreases |cs|
  {
    cs != [] && (t.File? || (Child(t.entries, cs[0]).Some? && Blocked(Child(t.entries, cs[0]).value, cs[1..])))
  }

  lemma {:induction false} BlockedExactly(t: Tree, cs: seq<bytes>)
    ensures Blocked(t, cs) <==> exists i :: 0 <= i < |cs| && At(t, cs[..i]) == Some(File)
    ensures Blocked(t, cs) ==> At(t, cs) == None
    decreases |cs|
  {
    if cs != [] {
      assert cs[..0] == [] && At(t, []) == Some(t);
      forall i | 0 < i <= |cs| ensures cs[..i][0] == cs[0] && cs[..i][1..] == cs[1..][..i - 1] {
      }
      if t.Dir? && Child(t.entries, cs[0]).Some? {
        var sub := Child(t.entries, cs[0]).value;
        BlockedExactly(sub, cs[1..]);
        if Blocked(sub, cs[1..]) {
          var j :| 0 <= j < |cs[1..]| && At(sub, cs[1..][..j]) == Some(File);
          assert At(t, cs[..j + 1]) == Some(File);
        }
      }
    }
  }

  lemma {:induction false} AtConcat(t: Tree, a: seq<bytes>, b: seq<bytes>)
    ensures At(t, a + b) == match At(t, a) { case None => None case Some(sub) => At(sub, b) }
    decreases |a|
  {
    if a == [] {
      assert a + b == b;
    } else {
      assert (a + b)[0] == a[0] && (a + b)[1..] == a[1..] + b;
      if t.Dir? && Child(t.entries, a[0]).Some? {
        AtConcat(Child(t.entries, a[0]).value, a[1..], b);
      }
    }
  }

  // ---- the listing as a function of the tree ----

  function KeyOf(rel: seq<bytes>, ext: bytes): bytes
    requires rel != []
  {
    var name := Join(rel, SLASH);
    if |name| >= |ext| then name[..|name| - |ext|] else []
  }

  /** The keys under a node reached by `rel`, in walking order. */
  function KeysOf(t: Tree, rel: seq<bytes>, ext: bytes): seq<bytes>
    decreases t, 0
  {
    match t
    case File => if rel != [] && HasSuffix(rel[|rel| - 1], ext) then [KeyOf(rel, ext)] else []
    case Dir(es) => KeysIn(es, rel, ext)
  }

  function KeysIn(es: Entries, rel: seq<bytes>, ext: bytes): seq<bytes>
    decreases es, 0
  {
    match es
    case Empty => []
    case Entry(n, t, rest) => KeysOf(t, rel + [n], ext) + KeysIn(rest, rel, ext)
  }

  // ---- paths below the root of the walk ----

  /** The walk starts in the working directory itself, whose path is a dot. */
  predicate AtDot(base: Path) { !base.rooted && base.names == [] }

  /** What cutting the root path and a slash off the path of a file leaves: its relative path, but
      without a leading dot when the root path is that dot. */
  function Stripped(base: Path, rel: seq<bytes>): bytes
    requires rel != []
  {
    var name := Join(rel, SLASH);
    if AtDot(base) && name != [] && name[0] == DOT then name[1..] else name
  }

  lemma ValidNamesHaveNoSlash(cs: seq<bytes>)
    requires ValidNames(cs)
    ensures forall n | n in cs :: SLASH !in n && n != []
  {
    forall n | n in cs ensures SLASH !in n && n != [] {
      var i :| 0 <= i < |cs| && cs[i] == n;
      assert ValidName(cs[i]);
    }
  }

  lemma CutDot(j: bytes)
    requires j != [] && (j[0] == DOT ==> |j| > 1 && j[1] != SLASH)
    ensures TrimPrefix(j, [DOT]) == if j[0] == DOT then j[1..] else j
  {
    if j[0] == DOT {
      assert j == [DOT] + j[1..];
      PrefixOfConcat([DOT], j[1..]);
    } else {
      assert !HasPrefix(j, [DOT]);
    }
  }

  /** That is so with no index out of range. */
  lemma StrippedName(base: Path, rel: seq<bytes>)
    requires CleanPath(base) && ValidNames(rel) && rel != []
    ensures var name := TrimPrefix(Text(Below(base, rel)), Text(base));
      name != [] && (if name[0] == SLASH then name[1..] else name) == Stripped(base, rel)
  {
    hide Join, CleanPath, HasPrefix, TrimPrefix;
    var j := Join(rel, SLASH);
    ValidNamesHaveNoSlash(rel);
    JoinBegins(rel);
    if base.names == [] {
      assert [] + rel == rel;
      if base.rooted {
        PrefixOfConcat([SLASH], j);
      } else {
        DotIsNoName(rel);
        CutDot(j);
      }
    } else {
      TextBelow(base, rel);
      PrefixOfConcat(Text(base), [SLASH] + j);
      assert ([SLASH] + j)[1..] == j;
    }
  }

  lemma TextBelow(base: Path, rel: seq<bytes>)
    requires CleanPath(base) && base.names != [] && rel != []
    ensures Text(Below(base, rel)) == Text(base) + ([SLASH] + Join(rel, SLASH))
  {
    hide Join, CleanPath;
    CleanNamesHaveNoSlash(base);
    JoinBegins(base.names);
    JoinConcat(base.names, rel);
    var t, j := Join(base.names, SLASH), Join(rel, SLASH);
    assert (t + [SLASH]) + j == t + ([SLASH] + j);
    assert [SLASH] + (t + ([SLASH] + j)) == ([SLASH] + t) + ([SLASH] + j);
  }

  lemma OneByte(s: bytes)
    ensures |s| == 1 ==> s == [s[0]]
  {
  }

  /** A relative path is more than a dot, and no slash follows a leading dot. */
  lemma DotIsNoName(rel: seq<bytes>)
    requires ValidNames(rel) && rel != []
    ensures var j := Join(rel, SLASH); j != [] && (j[0] == DOT ==> |j| > 1 && j[1] != SLASH)
  {
    ValidNamesHaveNoSlash(rel);
    JoinBegins(rel);
    assert ValidName(rel[0]) && rel[0] in rel;
    if rel[0][0] == DOT {
      OneByte(rel[0]);
      assert Join(rel, SLASH)[1] == rel[0][1] && rel[0][1] in rel[0];
    }
  }

  lemma {:induction false} JoinSuffix(rel: seq<bytes>, ext: bytes)
    requires rel != [] && PlainExtension(ext)
    ensures HasSuffix(Join(rel, SLASH), ext) <==> HasSuffix(rel[|rel| - 1], ext)
  {
    if |rel| > 1 {
      JoinSuffix(rel[1..], ext);
      var j, r := Join(rel, SLASH), Join(rel[1..], SLASH);
      assert j == rel[0] + [SLASH] + r;
      if |r| < |ext| <= |j| {
        var at := |ext| - |r| - 1;
        assert j[|j| - |ext|..][at] == SLASH;
        assert ext[at] != SLASH by {
          if at > 0 { assert ext[1..][at - 1] == ext[at]; }
        }
      } else if |r| >= |ext| {
        assert j[|j| - |ext|..] == r[|r| - |ext|..];
      }
    }
  }

  lemma SuffixOfPath(base: Path, rel: seq<bytes>, ext: bytes)
    requires CleanPath(base) && ValidNames(rel) && rel != [] && PlainExtension(ext)
    ensures Ext(Text(Below(base, rel))) == ext <==> HasSuffix(rel[|rel| - 1], ext)
  {
    hide Ext;
    var names := base.names + rel;
    ExtExactly(Text(Below(base, rel)), ext);
    assert names[|names| - 1] == rel[|rel| - 1];
    if base.rooted {
      JoinSuffix([[]] + names, ext);
      assert ([[]] + names)[1..] == names;
      assert Join([[]] + names, SLASH) == [] + [SLASH] + Join(names, SLASH);
    } else {
      TextOfRelative(base, rel);
      JoinSuffix(names, ext);
    }
  }

  lemma TextOfRelative(base: Path, rel: seq<bytes>)
    requires CleanPath(base) && !base.rooted && ValidNames(rel) && rel != []
    ensures Text(Below(base, rel)) == Join(base.names + rel, SLASH)
  {
    ValidNamesHaveNoSlash(rel);
    CleanNamesHaveNoSlash(base);
    JoinBegins(base.names + rel);
  }

  // ---- the walk ----

  /** The key that the callback reports for a file whose plain key is k; None where its slice
      expression is out of range and panics. */
  function Reported(atDot: bool, k: bytes): Option<bytes> {
    if !atDot then Some(k)
    else if k == [] then None
    else if k[0] == DOT then Some(k[1..])
    else Some(k)
  }

  function ReportedAll(atDot: bool, ks: seq<bytes>): Option<seq<bytes>> {
    if ks == [] then Some([])
    else
      var first :- Reported(atDot, ks[0]);
      var rest :- ReportedAll(atDot, ks[1..]);
      Some([first] + rest)
  }

  lemma {:induction false} ReportedConcat(atDot: bool, a: seq<bytes>, b: seq<bytes>)
    ensures ReportedAll(atDot, a + b)
         == if ReportedAll(atDot, a).Some? && ReportedAll(atDot, b).Some?
            then Some(ReportedAll(atDot, a).value + ReportedAll(atDot, b).value) else None
  {
    var y := ReportedAll(atDot, b);
    if a == [] {
      assert a + b == b;
      if y.Some? { assert [] + y.value == y.value; }
    } else {
      assert (a + b)[0] == a[0] && (a + b)[1..] == a[1..] + b;
      ReportedConcat(atDot, a[1..], b);
      var first, x := Reported(atDot, a[0]), ReportedAll(atDot, a[1..]);
      if first.Some? && x.Some? && y.Some? {
        assert ([first.value] + x.value) + y.value == [first.value] + (x.value + y.value);
      }
    }
  }

  lemma ReportedOne(atDot: bool, k: bytes)
    ensures ReportedAll(atDot, [k]) == match Reported(atDot, k) { case None => None case Some(r) => Some([r]) }
  {
    assert [k][1..] == [];
    assert ReportedAll(atDot, [k][1..]) == Some([]);
    var r := Reported(atDot, k);
    if r.Some? { assert [r.value] + [] == [r.value]; }
  }

  /** The keys are reported as they are exactly when the walk does not start at the dot, or no key
      is empty or begins with a dot. */
  lemma {:induction false} ReportedExactly(atDot: bool, ks: seq<bytes>)
    ensures ReportedAll(atDot, ks) == Some(ks) <==> !atDot || forall k | k in ks :: k != [] && k[0] != DOT
    ensures ReportedAll(atDot, ks) == None <==> atDot && [] in ks
  {
    if ks != [] {
      ReportedExactly(atDot, ks[1..]);
      assert ks == [ks[0]] + ks[1..];
      var r := ReportedAll(atDot, ks);
      if r.Some? {
        assert r.value[0] == Reported(atDot, ks[0]).value && r.value[1..] == ReportedAll(atDot, ks[1..]).value;
      }
      if atDot && ks[0] != [] && ks[0][0] == DOT {
        assert |ks[0][1..]| < |ks[0]|;
      }
    }
  }

  lemma StrippedKey(base: Path, rel: seq<bytes>, ext: bytes)
    requires ValidNames(rel) && rel != [] && PlainExtension(ext) && HasSuffix(Join(rel, SLASH), ext)
    ensures var name, k := Stripped(base, rel), KeyOf(rel, ext);
      if |name| < |ext| then Reported(AtDot(base), k) == None
      else Reported(AtDot(base), k) == Some(name[..|name| - |ext|])
  {
    hide Join;
    var j, k := Join(rel, SLASH), KeyOf(rel, ext);
    assert j == k + ext;
    CutKey(k, ext);
  }

  lemma CutKey(k: bytes, ext: bytes)
    requires ext != []
    ensures (k + ext)[..|k|] == k && (k == [] ==> (k + ext)[0] == ext[0])
    ensures k != [] ==> (k + ext)[0] == k[0] && (k + ext)[1..][..|k| - 1] == k[1..]
  {
  }

  /** The slice captured by the callback of filepath.Walk. */
  class KeyCollector {
    var keys: seq<bytes>

    constructor ()
      ensures keys == []
    {
      keys := [];
    }

    /** The reported keys were added, or the callback panicked. */
    twostate predicate Added(base: Path, ks: seq<bytes>, ok: bool)
      reads this
    {
      var more := ReportedAll(AtDot(base), ks);
      ok == more.Some? && (ok ==> keys == old(keys) + more.value)
    }

    /** The callback, for a path below or at the root of the walk; it may panic. */
    method Visit(p: bytes, isDir: bool, root: bytes, ext: bytes, ghost base: Path, ghost rel: seq<bytes>)
      returns (ok: bool)
      requires CleanPath(base) && ValidNames(rel) && root == Text(base) && p == Text(Below(base, rel))
      requires PlainExtension(ext) && |ext| == 4 && (isDir || rel != [])
      modifies this
      ensures Added(base, if isDir then [] else KeysOf(File, rel, ext), ok)
    {
      hide Text, Ext, Join, Stripped, KeyOf;
      ok := true;
      if !isDir {
        SuffixOfPath(base, rel, ext);
        StrippedName(base, rel);
        JoinSuffix(rel, ext);
        if Ext(p) == ext {
          StrippedKey(base, rel, ext);
          ReportedOne(AtDot(base), KeyOf(rel, ext));
          var name := TrimPrefix(p, root);
          if name[0] == SLASH {
            name := name[1..];
          }
          if |name| < 4 {
            return false;
          }
          keys := keys + [name[..|name| - 4]];
        }
      }
    }

    /** filepath.Walk on a node and everything below it. */
    method Walk(t: Tree, p: bytes, root: bytes, ext: bytes, ghost base: Path, ghost rel: seq<bytes>)
      returns (ok: bool)
      requires WellFormed(t) && CleanPath(base) && ValidNames(rel) && root == Text(base) && p == Text(Below(base, rel))
      requires PlainExtension(ext) && |ext| == 4 && (t.Dir? || rel != [])
      modifies this
      ensures Added(base, KeysOf(t, rel, ext), ok)
      decreases t, 1
    {
      hide Text;
      ok := Visit(p, t.Dir?, root, ext, base, rel);
      if t.Dir? {
        ok := WalkEntries(t.entries, p, root, ext, base, rel);
      }
    }

    method WalkEntries(es: Entries, p: bytes, root: bytes, ext: bytes, ghost base: Path, ghost rel: seq<bytes>)
      returns (ok: bool)
      requires WellFormedEntries(es) && CleanPath(base) && ValidNames(rel) && root == Text(base)
      requires p == Text(Below(base, rel))
      requires PlainExtension(ext) && |ext| == 4
      modifies this
      ensures Added(base, KeysIn(es, rel, ext), ok)
      decreases es, 0
    {
      hide Text, JoinPath, CleanPath;
      match es
      case Empty =>
        return true;
      case Entry(n, t, rest) =>
        ChildPath(base, rel, n);
        ReportedConcat(AtDot(base), KeysOf(t, rel + [n], ext), KeysIn(rest, rel, ext));
        ok := Walk(t, JoinPath(p, n), root, ext, base, rel + [n]);
        if ok {
          ok := WalkEntries(rest, p, root, ext, base, rel);
        }
    }
  }

  lemma BelowIsClean(base: Path, rel: seq<bytes>)
    requires CleanPath(base) && ValidNames(rel)
    ensures CleanPath(Below(base, rel))
  {
    var names := base.names + rel;
    forall i | 0 <= i < |names|
      ensures ValidName(names[i]) || (!base.rooted && names[i] == UP() && forall j | 0 <= j < i :: names[j] == UP())
    {
      if i < |base.names| {
        assert names[i] == base.names[i];
      } else {
        assert names[i] == rel[i - |base.names|];
      }
    }
  }

  /** filepath.Join of a directory on the walk and the name of an entry. */
  lemma ChildPath(base: Path, rel: seq<bytes>, n: bytes)
    requires CleanPath(base) && ValidNames(rel) && ValidName(n)
    ensures JoinPath(Text(Below(base, rel)), n) == Text(Below(base, rel + [n]))
  {
    hide Text, Clean, CleanPath;
    var p := Below(base, rel);
    BelowIsClean(base, rel);
    CleanOfText(p);
    CleanJoin(Text(p), n);
    SplitWithout(n, SLASH);
    CleanValid(p.rooted, p.names, [n]);
    assert base.names + (rel + [n]) == (base.names + rel) + [n];
  }

  // ---- the store ----

  /** filepath.Join of several pieces, before it is cleaned: leading empty pieces are left out. */
  function Joined(dir: bytes, prefix: bytes): bytes {
    if dir == [] then prefix else dir + [SLASH] + prefix
  }

  /** A store below a directory, in a file tree and a working directory. */
  class PassKeyring {
    const dir: bytes
    const prefix: bytes
    const ext: bytes
    const files: Tree
    const cwd: seq<bytes>

    constructor (dir: bytes, prefix: bytes, ext: bytes, files: Tree, cwd: seq<bytes>)
      requires WellFormed(files) && files.Dir? && PlainExtension(ext) && |ext| == 4 && ValidNames(cwd)
      ensures Valid()
    {
      this.dir, this.prefix, this.ext, this.files, this.cwd := dir, prefix, ext, files, cwd;
    }

    ghost predicate Valid() {
      WellFormed(files) && files.Dir? && PlainExtension(ext) && |ext| == 4 && ValidNames(cwd)
    }

    /** Where a path leads from the root of the tree; the working directory comes first unless the
        path is rooted. */
    function Resolved(p: Path): seq<bytes> {
      if p.rooted then p.names else CleanFrom(true, cwd, p.names)
    }

    /** os.Stat of a joined path that is not empty. */
    function Stat(raw: bytes): Option<Tree>
      requires raw != []
    {
      At(files, Resolved(Clean(raw)))
    }

    function BaseText(): bytes { Joined(dir, prefix) }

    /** itemExists: anything at all at the item's path. */
    predicate ItemExists(key: bytes)
      requires ext != []
    {
      Stat(if BaseText() == [] then key + ext else BaseText() + [SLASH] + (key + ext)).Some?
    }

    /** The node a walk of the store starts at. */
    function Base(): Option<Tree> {
      if BaseText() == [] then None else Stat(BaseText())
    }

    /** Keys: a panic is told apart from an error that is returned. */
    method Keys() returns (r: Option<Result<seq<bytes>>>)
      requires Valid()
      ensures r == match Base()
                   case None =>
                     if BaseText() != [] && Blocked(files, Resolved(Clean(BaseText())))
                     then Some(Err({FileInPath})) else Some(Ok([]))
                   case Some(File) => Some(Err({NotDirectory}))
                   case Some(Dir(es)) =>
                     match ReportedAll(AtDot(Clean(BaseText())), KeysIn(es, [], ext))
                     case None => None
                     case Some(keys) => Some(Ok(keys))
    {
      if BaseText() == [] {
        return Some(Ok([]));
      }
      var base := Clean(BaseText());
      var root := Text(base);
      var at := Resolved(base);
      var info := At(files, at);
      if info.None? {
        return Some(if Blocked(files, at) then Err({FileInPath}) else Ok([]));
      }
      if info.value.File? {
        return Some(Err({NotDirectory}));
      }
      var collector := new KeyCollector();
      CleanIsClean(BaseText());
      FoundIsWellFormed(files, at);
      assert base.names + [] == base.names;
      var ok := collector.Walk(info.value, root, root, ext, base, []);
      assert info.value == Dir(info.value.entries);
      assert KeysOf(info.value, [], ext) == KeysIn(info.value.entries, [], ext);
      assert ok ==> collector.keys == ReportedAll(AtDot(base), KeysIn(info.value.entries, [], ext)).value;
      return if ok then Some(Ok(collector.keys)) else None;
    }
  }

  /** The store lies where the elements of the prefix lead from the directory; without a directory,
      where the prefix leads; without both, nowhere. */
  lemma BaseExactly(k: PassKeyring)
    ensures k.dir != [] ==>
              && k.BaseText() != []
              && Clean(k.BaseText()) == Path(k.dir[0] == SLASH,
                   CleanFrom(k.dir[0] == SLASH, Clean(k.dir).names, Split(k.prefix, SLASH)))
    ensures k.dir == [] && k.prefix != [] ==> k.BaseText() == k.prefix
    ensures k.dir == [] && k.prefix == [] ==> k.BaseText() == [] && k.Base() == None
    ensures k.dir != [] && ValidNames(Split(k.prefix, SLASH)) ==>
              k.Base() == At(k.files, k.Resolved(Below(Clean(k.dir), Split(k.prefix, SLASH))))
  {
    if k.dir != [] {
      CleanJoin(k.dir, k.prefix);
      if ValidNames(Split(k.prefix, SLASH)) {
        CleanValid(k.dir[0] == SLASH, Clean(k.dir).names, Split(k.prefix, SLASH));
      }
    }
  }

  lemma PlainBase(k: PassKeyring)
    requires k.dir != [] && ValidNames(Split(k.prefix, SLASH))
    ensures k.BaseText() != [] && Clean(k.BaseText()) == Below(Clean(k.dir), Split(k.prefix, SLASH))
  {
    hide Clean, Split;
    CleanJoin(k.dir, k.prefix);
    CleanValid(Clean(k.dir).rooted, Clean(k.dir).names, Split(k.prefix, SLASH));
  }

  lemma BelowBelow(p: Path, a: seq<bytes>, b: seq<bytes>)
    ensures Below(Below(p, a), b) == Below(p, a + b)
  {
    assert (p.names + a) + b == p.names + (a + b);
  }

  /** An item of a plain key below a directory and a plain prefix exists exactly if something is
      there. */
  lemma ItemExactly(k: PassKeyring, key: bytes)
    requires k.Valid() && k.dir != [] && ValidNames(Split(k.prefix, SLASH)) && CleanKey(key, k.ext)
    ensures k.ItemExists(key) <==>
              At(k.files, k.Resolved(Below(Clean(k.dir), Split(k.prefix, SLASH) + Split(key + k.ext, SLASH)))).Some?
  {
    hide Clean, CleanFrom, Split, At, Below;
    PlainBase(k);
    ItemPathOfCleanKey(k, key);
    ResolvedBelow(k, Clean(k.BaseText()), Split(key + k.ext, SLASH));
    BelowBelow(Clean(k.dir), Split(k.prefix, SLASH), Split(key + k.ext, SLASH));
  }

  lemma ResolvedBelow(k: PassKeyring, base: Path, rel: seq<bytes>)
    requires ValidNames(rel)
    ensures k.Resolved(Below(base, rel)) == k.Resolved(base) + rel
  {
    CleanConcat(true, k.cwd, base.names, rel);
    CleanValid(true, CleanFrom(true, k.cwd, base.names), rel);
  }

  lemma {:induction false} ChildWellFormed(es: Entries, n: bytes)
    requires WellFormedEntries(es) && Child(es, n).Some?
    ensures WellFormed(Child(es, n).value) && n in NamesIn(es)
  {
    if es.name != n { ChildWellFormed(es.rest, n); }
  }

  lemma {:induction false} FoundIsWellFormed(t: Tree, cs: seq<bytes>)
    requires WellFormed(t) && At(t, cs).Some?
    ensures WellFormed(At(t, cs).value)
    decreases |cs|
  {
    if cs != [] {
      ChildWellFormed(t.entries, cs[0]);
      FoundIsWellFormed(Child(t.entries, cs[0]).value, cs[1..]);
    }
  }

  // ---- listing and existence ----

  /** With the extension appended, every element of the key is a plain name. */
  ghost predicate CleanKey(key: bytes, ext: bytes) {
    ValidNames(Split(key + ext, SLASH))
  }

  /** The existence test of a clean key looks where its elements lead below the store's base. */
  lemma ItemPathOfCleanKey(k: PassKeyring, key: bytes)
    requires k.Valid() && CleanKey(key, k.ext) && k.BaseText() != []
    ensures k.Stat(k.BaseText() + [SLASH] + (key + k.ext))
         == At(k.files, k.Resolved(Clean(k.BaseText())) + Split(key + k.ext, SLASH))
  {
    hide Clean;
    var base, rel := Clean(k.BaseText()), Split(key + k.ext, SLASH);
    CleanJoin(k.BaseText(), key + k.ext);
    CleanValid(base.rooted, base.names, rel);
    CleanConcat(true, k.cwd, base.names, rel);
    CleanValid(true, CleanFrom(true, k.cwd, base.names), rel);
  }

  /** A listed key comes from one file, whose relative path is the key with the extension. */
  lemma {:induction false} ListedKeyHasFile(t: Tree, rel: seq<bytes>, ext: bytes, key: bytes) returns (cs: seq<bytes>)
    requires WellFormed(t) && PlainExtension(ext) && key in KeysOf(t, rel, ext)
    ensures ValidNames(cs) && At(t, cs) == Some(File) && rel + cs != [] && Join(rel + cs, SLASH) == key + ext
    decreases t, 0
  {
    match t
    case File =>
      cs := [];
      assert rel + cs == rel;
      JoinSuffix(rel, ext);
    case Dir(es) =>
      cs := ListedKeyHasEntry(es, rel, ext, key);
  }

  lemma {:induction false} ListedKeyHasEntry(es: Entries, rel: seq<bytes>, ext: bytes, key: bytes)
    returns (cs: seq<bytes>)
    requires WellFormedEntries(es) && PlainExtension(ext) && key in KeysIn(es, rel, ext)
    ensures ValidNames(cs) && cs != [] && cs[0] in NamesIn(es) && At(Dir(es), cs) == Some(File)
    ensures Join(rel + cs, SLASH) == key + ext
    decreases es, 0
  {
    hide Join, KeyOf;
    if key in KeysOf(es.node, rel + [es.name], ext) {
      var sub := ListedKeyHasFile(es.node, rel + [es.name], ext, key);
      cs := [es.name] + sub;
      assert (rel + [es.name]) + sub == rel + cs;
    } else {
      cs := ListedKeyHasEntry(es.rest, rel, ext, key);
      ChildOfRest(es, cs[0]);
    }
  }

  lemma ChildOfRest(es: Entries, n: bytes)
    requires es.Entry? && WellFormedEntries(es) && n in NamesIn(es.rest)
    ensures Child(es, n) == Child(es.rest, n)
  {
  }

  /** Every file with the extension is listed. */
  lemma {:induction false} FileIsListed(t: Tree, rel: seq<bytes>, cs: seq<bytes>, ext: bytes)
    requires At(t, cs) == Some(File) && rel + cs != [] && HasSuffix((rel + cs)[|rel + cs| - 1], ext)
    ensures KeyOf(rel + cs, ext) in KeysOf(t, rel, ext)
    decreases t, 0
  {
    if cs == [] {
      assert rel + cs == rel;
    } else {
      FileInEntries(t.entries, rel, cs, ext);
    }
  }

  lemma {:induction false} FileInEntries(es: Entries, rel: seq<bytes>, cs: seq<bytes>, ext: bytes)
    requires cs != [] && At(Dir(es), cs) == Some(File) && HasSuffix((rel + cs)[|rel + cs| - 1], ext)
    ensures KeyOf(rel + cs, ext) in KeysIn(es, rel, ext)
    decreases es, 0
  {
    if es.name == cs[0] {
      assert (rel + [es.name]) + cs[1..] == rel + cs;
      FileIsListed(es.node, rel + [es.name], cs[1..], ext);
    } else {
      FileInEntries(es.rest, rel, cs, ext);
    }
  }

  lemma ListedIfFile(t: Tree, ext: bytes, key: bytes)
    requires PlainExtension(ext) && At(t, Split(key + ext, SLASH)) == Some(File) && t.Dir?
    ensures key in KeysOf(t, [], ext)
  {
    hide KeysOf, At, Split;
    var cs := Split(key + ext, SLASH);
    JoinSplit(key + ext, SLASH);
    assert [] + cs == cs;
    assert (key + ext)[|key|..] == ext && (key + ext)[..|key|] == key;
    JoinSuffix(cs, ext);
    FileIsListed(t, [], cs, ext);
  }

  lemma FileIfListed(t: Tree, ext: bytes, key: bytes)
    requires WellFormed(t) && PlainExtension(ext) && key in KeysOf(t, [], ext)
    ensures At(t, Split(key + ext, SLASH)) == Some(File) && CleanKey(key, ext)
  {
    hide KeysOf, At, Split;
    var rel := ListedKeyHasFile(t, [], ext, key);
    assert [] + rel == rel;
    forall p | p in rel ensures SLASH !in p {
      var i :| 0 <= i < |rel| && rel[i] == p;
      assert ValidName(rel[i]);
    }
    SplitJoin(rel, SLASH);
  }

  /** A key is listed exactly when its path with the extension leads to a file, and is clean then. */
  lemma ListedExactly(t: Tree, ext: bytes, key: bytes)
    requires WellFormed(t) && t.Dir? && PlainExtension(ext)
    ensures key in KeysOf(t, [], ext) <==> At(t, Split(key + ext, SLASH)) == Some(File)
    ensures key in KeysOf(t, [], ext) ==> CleanKey(key, ext)
  {
    hide KeysOf, At, Split;
    if At(t, Split(key + ext, SLASH)) == Some(File) { ListedIfFile(t, ext, key); }
    if key in KeysOf(t, [], ext) { FileIfListed(t, ext, key); }
  }

  /** For a clean key, the plain listing and the existence test agree exactly unless a directory
      carries the key's name with the extension. */
  lemma ListingAgreesExactly(k: PassKeyring, key: bytes)
    requires k.Valid() && CleanKey(key, k.ext) && k.Base().Some? && k.Base().value.Dir?
    ensures var found := k.Stat(k.BaseText() + [SLASH] + (key + k.ext));
            var isDir := found.Some? && found.value.Dir?;
      (key in KeysOf(k.Base().value, [], k.ext) <==> k.ItemExists(key)) <==> !isDir
  {
    hide Clean;
    var at := k.Resolved(Clean(k.BaseText()));
    FoundIsWellFormed(k.files, at);
    ItemPathOfCleanKey(k, key);
    AtConcat(k.files, at, Split(key + k.ext, SLASH));
    ListedExactly(k.Base().value, k.ext, key);
  }

  /** The listing of a store with one entry. */
  lemma OneEntry(n: bytes, t: Tree, ext: bytes)
    ensures KeysOf(Dir(Entry(n, t, Empty)), [], ext) == KeysOf(t, [n], ext)
  {
    var none: seq<bytes> := [];
    assert none + [n] == [n];
    assert KeysIn(Entry(n, t, Empty), none, ext) == KeysOf(t, none + [n], ext) + KeysIn(Empty, none, ext);
  }

  /** A store in the working directory whose only item is named like .gpg makes Keys panic, and one
      whose only item is .a reports it as a. */
  lemma DotStoreFails(ext: bytes)
    requires PlainExtension(ext)
    ensures KeysOf(Dir(Entry(ext, File, Empty)), [], ext) == [Ascii("")]
    ensures ReportedAll(true, [Ascii("")]) == None
    ensures KeysOf(Dir(Entry([DOT, 97] + ext, File, Empty)), [], ext) == [[DOT, 97]]
    ensures ReportedAll(true, [[DOT, 97]]) == Some([[97]])
  {
    var name, k: bytes := [DOT, 97] + ext, [DOT, 97];
    OneEntry(ext, File, ext);
    OneEntry(name, File, ext);
    assert KeysOf(File, [ext], ext) == [KeyOf([ext], ext)] && KeysOf(File, [name], ext) == [KeyOf([name], ext)];
    assert name[..|name| - |ext|] == k && name[|name| - |ext|..] == ext;
    assert k[1..] == [97];
    ReportedOne(true, k);
    ReportedOne(true, []);
  }

  /** They do disagree: a store that holds nothing but a directory named like a.gpg lists nothing,
      while the existence test finds a. */
  lemma DirectoryPassesForItem(ext: bytes)
    requires PlainExtension(ext)
    ensures var t := Dir(Entry([97] + ext, Dir(Empty), Empty));
      && WellFormed(t) && CleanKey([97], ext)
      && KeysOf(t, [], ext) == [] && At(t, Split([97] + ext, SLASH)) == Some(Dir(Empty))
  {
    var name: bytes := [97] + ext;
    assert ext == [DOT] + ext[1..];
    SplitWithout(name, SLASH);
    OneEntry(name, Dir(Empty), ext);
    assert KeysOf(Dir(Empty), [name], ext) == KeysIn(Empty, [name], ext) == [];
  }

  /** No key is listed twice. */
  lemma {:induction false} ListedOnce(t: Tree, rel: seq<bytes>, ext: bytes)
    requires WellFormed(t) && ValidNames(rel) && PlainExtension(ext)
    ensures Distinct(KeysOf(t, rel, ext))
    decreases t, 0
  {
    if t.Dir? { ListedOnceIn(t.entries, rel, ext); }
  }

  lemma {:induction false} ListedOnceIn(es: Entries, rel: seq<bytes>, ext: bytes)
    requires WellFormedEntries(es) && ValidNames(rel) && PlainExtension(ext)
    ensures Distinct(KeysIn(es, rel, ext))
    decreases es, 0
  {
    if es.Entry? {
      var here, later := KeysOf(es.node, rel + [es.name], ext), KeysIn(es.rest, rel, ext);
      ListedOnce(es.node, rel + [es.name], ext);
      ListedOnceIn(es.rest, rel, ext);
      forall i, j | 0 <= i < |here| && 0 <= j < |later| ensures here[i] != later[j] {
        if here[i] == later[j] {
          NotUnderTwoNames(es, rel, ext, here[i]);
        }
      }
    }
  }

  // ---- the order of the listing ----

  /** Directories are read in the order of their names. */
  ghost predicate Ordered(t: Tree) {
    t.Dir? ==> OrderedEntries(t.entries)
  }

  ghost predicate OrderedEntries(es: Entries) {
    match es
    case Empty => true
    case Entry(n, t, rest) => (forall m | m in NamesIn(rest) :: Less(n, m)) && Ordered(t) && OrderedEntries(rest)
  }

  /** The paths part at element i, where a has the smaller name. */
  ghost predicate Before(a: seq<bytes>, b: seq<bytes>) {
    exists i: nat :: PartsAt(a, b, i)
  }

  ghost predicate PartsAt(a: seq<bytes>, b: seq<bytes>, i: nat) {
    i < |a| && i < |b| && a[..i] == b[..i] && Less(a[i], b[i])
  }

  lemma BeforeUnder(n: bytes, a: seq<bytes>, b: seq<bytes>)
    requires Before(a, b)
    ensures Before([n] + a, [n] + b)
  {
    var i: nat :| PartsAt(a, b, i);
    assert ([n] + a)[..i + 1] == [n] + a[..i] && ([n] + b)[..i + 1] == [n] + b[..i];
    assert PartsAt([n] + a, [n] + b, i + 1);
  }

  /** The files behind the keys, each below its directory in the order of names. */
  lemma {:induction false} ListedInOrder(t: Tree, rel: seq<bytes>, ext: bytes) returns (ps: seq<seq<bytes>>)
    requires WellFormed(t) && Ordered(t)
    ensures |ps| == |KeysOf(t, rel, ext)|
    ensures forall i | 0 <= i < |ps| ::
              At(t, ps[i]) == Some(File) && rel + ps[i] != [] && KeysOf(t, rel, ext)[i] == KeyOf(rel + ps[i], ext)
    ensures forall i, j | 0 <= i < j < |ps| :: Before(ps[i], ps[j])
    decreases t, 0
  {
    match t
    case File =>
      ps := if KeysOf(t, rel, ext) == [] then [] else [[]];
      assert rel + [] == rel;
    case Dir(es) =>
      ps := EntriesInOrder(es, rel, ext);
  }

  lemma {:induction false} EntriesInOrder(es: Entries, rel: seq<bytes>, ext: bytes) returns (ps: seq<seq<bytes>>)
    requires WellFormedEntries(es) && OrderedEntries(es)
    ensures |ps| == |KeysIn(es, rel, ext)|
    ensures forall i | 0 <= i < |ps| :: ps[i] != [] && ps[i][0] in NamesIn(es)
    ensures forall i | 0 <= i < |ps| ::
              At(Dir(es), ps[i]) == Some(File) && KeysIn(es, rel, ext)[i] == KeyOf(rel + ps[i], ext)
    ensures forall i, j | 0 <= i < j < |ps| :: Before(ps[i], ps[j])
    decreases es, 0
  {
    hide KeyOf, Before, Less;
    if es.Empty? { return []; }
    var n := es.name;
    var here := ListedInOrder(es.node, rel + [n], ext);
    var later := EntriesInOrder(es.rest, rel, ext);
    ps := Under(n, here) + later;
    FrontInOrder(n, here, later);
    forall i | 0 <= i < |ps|
      ensures ps[i] != [] && ps[i][0] in NamesIn(es)
      ensures At(Dir(es), ps[i]) == Some(File) && KeysIn(es, rel, ext)[i] == KeyOf(rel + ps[i], ext)
    {
      if i < |here| {
        assert (rel + [n]) + here[i] == rel + ps[i] && ps[i][1..] == here[i];
      } else {
        ChildOfRest(es, ps[i][0]);
      }
    }
  }

  function Under(n: bytes, ps: seq<seq<bytes>>): (r: seq<seq<bytes>>)
    ensures |r| == |ps| && forall i | 0 <= i < |ps| :: r[i] == [n] + ps[i]
  {
    seq(|ps|, i requires 0 <= i < |ps| => [n] + ps[i])
  }

  lemma FrontInOrder(n: bytes, here: seq<seq<bytes>>, later: seq<seq<bytes>>)
    requires forall i, j | 0 <= i < j < |here| :: Before(here[i], here[j])
    requires forall i, j | 0 <= i < j < |later| :: Before(later[i], later[j])
    requires forall i | 0 <= i < |later| :: later[i] != [] && Less(n, later[i][0])
    ensures var ps := Under(n, here) + later; forall i, j | 0 <= i < j < |ps| :: Before(ps[i], ps[j])
  {
    hide Before, Less;
    var ps := Under(n, here) + later;
    forall i, j | 0 <= i < j < |ps| ensures Before(ps[i], ps[j]) {
      if j < |here| {
        BeforeUnder(n, here[i], here[j]);
      } else if i < |here| {
        FrontIsBefore(n, here[i], later[j - |here|]);
      }
    }
  }

  lemma FrontIsBefore(n: bytes, a: seq<bytes>, b: seq<bytes>)
    requires b != [] && Less(n, b[0])
    ensures Before([n] + a, b)
  {
    assert PartsAt([n] + a, b, 0);
  }

  lemma NotUnderTwoNames(es: Entries, rel: seq<bytes>, ext: bytes, k: bytes)
    requires WellFormedEntries(es) && ValidNames(rel) && PlainExtension(ext) && es.Entry?
    requires k in KeysOf(es.node, rel + [es.name], ext)
    ensures k !in KeysIn(es.rest, rel, ext)
  {
    if k in KeysIn(es.rest, rel, ext) {
      var a := ListedKeyHasFile(es.node, rel + [es.name], ext, k);
      var b := ListedKeyHasEntry(es.rest, rel, ext, k);
      var x, y := rel + [es.name] + a, rel + b;
      assert x[|rel|] == es.name && y[|rel|] == b[0];
      JoinInjective(x, y);
    }
  }

  lemma JoinInjective(a: seq<bytes>, b: seq<bytes>)
    requires ValidNames(a) && ValidNames(b) && a != [] && b != [] && Join(a, SLASH) == Join(b, SLASH)
    ensures a == b
  {
    forall p | p in a ensures SLASH !in p { var i :| 0 <= i < |a| && a[i] == p; assert ValidName(a[i]); }
    forall p | p in b ensures SLASH !in p { var i :| 0 <= i < |b| && b[i] == p; assert ValidName(b[i]); }
    SplitJoin(a, SLASH);
    SplitJoin(b, SLASH);
  }
}
