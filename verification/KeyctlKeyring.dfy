/** The keyring operations of keyctl.go over the kernel. */
module KeyctlKeyring {
  import opened Bytes
  import opened Errors
  import opened Picking
  import opened Kernel
  import Keyctl

  function UserIndex(name: bytes): Index { (UserType(), name) }

  lemma UserTypeHasNoSemicolon()
    ensures SEMICOLON !in UserType() && SEMICOLON !in KeyringType() && UserType() != KeyringType()
  {
    assert |UserType()| != |KeyringType()|;
  }

  /** The ring shows under the index what it showed, or the new payload. */
  ghost predicate OldOrNew(before: Keyrings, after: Keyrings, ring: Serial, index: Index, payload: bytes) {
    PayloadAt(after, ring, index) == PayloadAt(before, ring, index) || PayloadAt(after, ring, index) == Some(payload)
  }

  /** The detour of Set and createNamedKeyring on values: add to the session keyring, set
      permissions, link to the target, unlink from the session; `steps` is how far it got. */
  ghost function Detour(s: Keyrings, session: Serial, target: Serial, index: Index, payload: bytes, perm: bv32,
                        steps: nat): (r: Keyrings)
    requires WellFormed(s) && session in s.rings && target in s.rings
  {
    if steps == 0 then s
    else
      AddedKeeps(s, session, index, payload);
      var (s1, id) := Added(s, session, index, payload);
      if steps == 1 then s1
      else
        var s2 := PermSet(s1, id, perm);
        if steps == 2 then s2
        else
          var s3 := Linked(s2, target, id);
          if steps == 3 then s3 else Unlinked(s3, session, index)
  }

  /** Wherever the detour stops, the name holds its old data or the new data in the target. */
  lemma DetourOldOrNew(s: Keyrings, session: Serial, target: Serial, index: Index, payload: bytes, perm: bv32,
                       steps: nat)
    requires WellFormed(s) && session in s.rings && target in s.rings && (session != target || steps < 4)
    ensures OldOrNew(s, Detour(s, session, target, index, payload, perm, steps), target, index, payload)
  {
    hide Added, WellFormed;
    if steps > 0 {
      AddedKeeps(s, session, index, payload);
      if session != target { AddedElsewhere(s, session, index, payload, target); }
    }
  }

  /** Wherever the detour stops, every other name in every keyring is as it was. */
  lemma DetourKeepsOthers(s: Keyrings, session: Serial, target: Serial, index: Index, payload: bytes, perm: bv32,
                          steps: nat)
    requires WellFormed(s) && session in s.rings && target in s.rings
    requires SEMICOLON !in index.0 && s.next < 0x7fff_ffff
    ensures WellFormed(Detour(s, session, target, index, payload, perm, steps))
    ensures OthersKept(s, Detour(s, session, target, index, payload, perm, steps), index)
  {
    hide Added, WellFormed, Linked, Unlinked, At, LinkOf;
    if steps > 0 {
      AddedWellFormed(s, session, index, payload);
      AddedKeeps(s, session, index, payload);
      var (s1, id) := Added(s, session, index, payload);
      if steps > 1 {
        var s2 := PermSet(s1, id, perm);
        PermSetKeeps(s1, id, perm);
        OthersKeptTransitive(s, s1, s2, index);
        if steps > 2 {
          var s3 := Linked(s2, target, id);
          LinkedKeeps(s2, target, id);
          OthersKeptTransitive(s, s2, s3, index);
          if steps > 3 {
            UnlinkedKeeps(s3, session, index);
            OthersKeptTransitive(s, s3, Unlinked(s3, session, index), index);
          }
        }
      }
    }
  }

  /** A completed detour stores the item in the target exactly when the target is not the
      session keyring itself; otherwise its last step removes what it just stored. */
  lemma DetourStoresExactly(s: Keyrings, session: Serial, target: Serial, index: Index, payload: bytes, perm: bv32)
    requires WellFormed(s) && session in s.rings && target in s.rings
    ensures var s' := Detour(s, session, target, index, payload, perm, 4);
      && LinkOf(s', session, index) == None
      && At(s', target, index) == (if target != session then Some(Key(index, payload, perm)) else None)
  {
    hide Added;
    AddedKeeps(s, session, index, payload);
  }

  /** A session keyring, number 1, that links one item. */
  function OneItem(name: bytes, data: bytes): Keyrings {
    Keyrings(map[1 := Key((KeyringType(), []), [], DEFAULT_PERM), 2 := Key(UserIndex(name), data, DEFAULT_PERM)],
             map[1 := map[UserIndex(name) := 2]], 3)
  }

  /** It does lose: a session keyring that holds one item under a name holds none after a new one
      was stored under that name with a permission. */
  lemma SessionStoreLoses(name: bytes, data: bytes, data': bytes, perm: bv32)
    ensures var s := OneItem(name, data);
      && WellFormed(s) && PayloadAt(s, 1, UserIndex(name)) == Some(data)
      && PayloadAt(Detour(s, 1, 1, UserIndex(name), data', perm, 4), 1, UserIndex(name)) == None
  {
    UserTypeHasNoSemicolon();
    assert WellFormed(OneItem(name, data));
    DetourStoresExactly(OneItem(name, data), 1, 1, UserIndex(name), data', perm);
  }

  /** A keyring made by a completed detour is new, empty, and carries the permission. */
  lemma DetourRingIsEmpty(s: Keyrings, session: Serial, target: Serial, name: bytes, perm: bv32)
    requires WellFormed(s) && session in s.rings && target in s.rings
    ensures var (s', id) := (Detour(s, session, target, (KeyringType(), name), [], perm, 4),
                             Added(s, session, (KeyringType(), name), []).1);
      && id !in s.rings && id in s'.rings && s'.rings[id] == map[]
      && id in s'.keys && s'.keys[id] == Key((KeyringType(), name), [], perm)
  {
    hide Added;
    UserTypeHasNoSemicolon();
    AddedKeeps(s, session, (KeyringType(), name), []);
    AddedRingIsEmpty(s, session, name);
  }

  /** What Keys lists for a keyring that reads out as `ids`. */
  function ShownNames(s: Keyrings, ids: seq<Serial>): seq<bytes>
    requires forall i | 0 <= i < |ids| :: ids[i] in s.keys
  {
    if ids == [] then []
    else
      var n := |ids| - 1;
      var key := s.keys[ids[n]];
      ShownNames(s, ids[..n]) + if key.index.0 == UserType() then [Keyctl.AfterLastSemicolon(key.index.1)] else []
  }

  // ---- the order of the listing ----

  ghost function UserAt(s: Keyrings, ids: seq<Serial>): nat -> bool {
    (i: nat) => i < |ids| && ids[i] in s.keys && s.keys[ids[i]].index.0 == Ascii("user")
  }

  /** The shown descriptions of the keys at these positions. */
  ghost predicate AreShown(s: Keyrings, ids: seq<Serial>, p: seq<nat>, names: seq<bytes>) {
    |names| == |p| && forall x | 0 <= x < |p| ::
      && p[x] < |ids| && ids[p[x]] in s.keys
      && names[x] == Keyctl.AfterLastSemicolon(s.keys[ids[p[x]]].index.1)
  }

  /** One name for each "user" key that the ring reads out, in that order. */
  ghost predicate ListEffect(s: Keyrings, ids: seq<Serial>, names: seq<bytes>) {
    exists p: seq<nat> :: Picks(p, |ids|, UserAt(s, ids)) && AreShown(s, ids, p, names)
  }

  lemma UserInFront(s: Keyrings, ids: seq<Serial>)
    requires ids != [] && ids[|ids| - 1] in s.keys
    ensures forall i: nat | i < |ids| - 1 :: UserAt(s, ids[..|ids| - 1])(i) == UserAt(s, ids)(i)
    ensures UserAt(s, ids)(|ids| - 1) == (s.keys[ids[|ids| - 1]].index.0 == UserType())
  {
  }

  lemma ShownGrow(s: Keyrings, ids: seq<Serial>, p: seq<nat>, names: seq<bytes>)
    requires ids != [] && ids[|ids| - 1] in s.keys && AreShown(s, ids[..|ids| - 1], p, names)
    ensures AreShown(s, ids, p, names)
    ensures var name := Keyctl.AfterLastSemicolon(s.keys[ids[|ids| - 1]].index.1);
            AreShown(s, ids, p + [|ids| - 1], names + [name])
  {
    hide Keyctl.AfterLastSemicolon;
    forall x | 0 <= x < |p|
      ensures p[x] < |ids| && ids[p[x]] in s.keys
      ensures names[x] == Keyctl.AfterLastSemicolon(s.keys[ids[p[x]]].index.1)
    {
      assert ids[..|ids| - 1][p[x]] == ids[p[x]];
    }
  }

  lemma {:induction false} ShownInOrder(s: Keyrings, ids: seq<Serial>) returns (p: seq<nat>)
    requires forall i | 0 <= i < |ids| :: ids[i] in s.keys
    ensures Picks(p, |ids|, UserAt(s, ids)) && AreShown(s, ids, p, ShownNames(s, ids))
  {
    hide Keyctl.AfterLastSemicolon, Picks, UserAt, AreShown, UserType;
    if ids == [] {
      p := NothingShown(s);
    } else {
      var n := |ids| - 1;
      var q := ShownInOrder(s, ids[..n]);
      UserInFront(s, ids);
      PicksSame(q, n, UserAt(s, ids[..n]), UserAt(s, ids));
      PicksGrow(q, n, UserAt(s, ids));
      ShownGrow(s, ids, q, ShownNames(s, ids[..n]));
      p := if s.keys[ids[n]].index.0 == UserType() then q + [n] else q;
      if s.keys[ids[n]].index.0 != UserType() {
        assert ShownNames(s, ids[..n]) + [] == ShownNames(s, ids[..n]);
      }
    }
  }

  lemma NothingShown(s: Keyrings) returns (p: seq<nat>)
    ensures Picks(p, 0, UserAt(s, [])) && AreShown(s, [], p, ShownNames(s, []))
  {
    p := [];
  }

  lemma ListedInOrder(s: Keyrings, ids: seq<Serial>)
    requires forall i | 0 <= i < |ids| :: ids[i] in s.keys
    ensures ListEffect(s, ids, ShownNames(s, ids))
  {
    hide ShownNames, Picks, UserAt, AreShown;
    var p := ShownInOrder(s, ids);
  }

  class KeyctlKeyring {
    const kernel: Kernel
    const keyring: Serial
    const perm: bv32

    constructor (kernel: Kernel, keyring: Serial, perm: bv32)
      requires kernel.Valid() && kernel.Resolve(keyring) in kernel.state.rings
      ensures Valid() && this.kernel == kernel && this.keyring == keyring && this.perm == perm
    {
      this.kernel, this.keyring, this.perm := kernel, keyring, perm;
    }

    function Target(): Serial { kernel.Resolve(keyring) }

    ghost predicate Valid()
      reads kernel
    {
      kernel.Valid() && Target() in kernel.state.rings
    }

    /** The item goes straight to the keyring, or takes the detour over the session keyring. */
    predicate Detours() { perm != 0 }

    /** A completed store is still there afterwards. */
    predicate Keeps() { !Detours() || Target() != kernel.Session() }

    method AddByDetour(index: Index, payload: bytes) returns (r: Result<Serial>, ghost steps: nat)
      requires Valid() && SEMICOLON !in index.0
      modifies kernel
      ensures kernel.Valid() && kernel.faults >= old(kernel.faults) && steps <= 4 && (r.Ok? <==> steps == 4)
      ensures kernel.state == Detour(old(kernel.state), kernel.Session(), Target(), index, payload, perm, steps)
      ensures r.Ok? ==> r.value == Added(old(kernel.state), kernel.Session(), index, payload).1
      ensures kernel.calls >= old(kernel.calls)
      ensures steps > 0 ==> !Full(old(kernel.state)) && Fits(index.0, payload)
      ensures r.Err? ==> kernel.faults > old(kernel.faults) || Full(old(kernel.state)) || !Fits(index.0, payload)
    {
      hide WellFormed, Added, Enumerates;
      steps := 0;
      ghost var s := kernel.state;
      var code, id := kernel.AddKey(index.0, index.1, payload, SESSION);
      if code != 0 { r := Err({Status(code)}); return; }
      AddedKeeps(s, kernel.Session(), index, payload);
      steps := 1;
      code := kernel.Setperm(id, perm);
      if code != 0 { r := Err({Status(code)}); return; }
      steps := 2;
      code := kernel.Link(keyring, id);
      if code != 0 { r := Err({Status(code)}); return; }
      steps := 3;
      code := kernel.Unlink(SESSION, id);
      if code != 0 { r := Err({Status(code)}); return; }
      steps := 4;
      r := Ok(id);
    }

    /** Set: whichever call fails, the name holds its old or the new data in the target and every
        other name is untouched; a success holds the new data exactly when it is kept. */
    method Set(name: bytes, data: bytes) returns (r: Result<()>)
      requires Valid()
      modifies kernel
      ensures Valid() && kernel.faults >= old(kernel.faults)
      ensures OthersKept(old(kernel.state), kernel.state, UserIndex(name))
      ensures Keeps() || r.Err? ==> OldOrNew(old(kernel.state), kernel.state, Target(), UserIndex(name), data)
      ensures r.Ok? ==> PayloadAt(kernel.state, Target(), UserIndex(name)) == if Keeps() then Some(data) else None
      ensures r.Ok? && perm != 0 ==> LinkOf(kernel.state, kernel.special(-3), UserIndex(name)) == None
      ensures r.Ok? && (perm == 0 || Target() != kernel.special(-3)) ==>
                PayloadAt(kernel.state, Target(), (Ascii("user"), name)) == Some(data)
      ensures r.Ok? && Detours() && Keeps() ==>
                At(kernel.state, Target(), UserIndex(name)) == Some(Key(UserIndex(name), data, perm))
      ensures r.Ok? ==> !Full(old(kernel.state)) && Fits(UserType(), data) && 0 < |data| <= 32767
      ensures r.Err? ==> kernel.faults > old(kernel.faults) || Full(old(kernel.state)) || !Fits(UserType(), data)
      ensures kernel.state.next >= old(kernel.state).next && kernel.calls >= old(kernel.calls)
    {
      hide WellFormed, Added, Enumerates, Detour, OldOrNew;
      UserTypeHasNoSemicolon();
      ghost var s := kernel.state;
      if perm == 0 {
        var code, _ := kernel.AddKey(UserType(), name, data, keyring);
        if code != 0 {
          UnchangedIsOld(s, Target(), UserIndex(name), data);
          return Err({Status(code)});
        }
        AddedKeeps(s, Target(), UserIndex(name), data);
        NewIsNew(s, kernel.state, Target(), UserIndex(name), data);
        return Ok(());
      }
      var id, steps := AddByDetour(UserIndex(name), data);
      DetourOutcome(s, kernel.Session(), Target(), UserIndex(name), data, perm, steps);
      r := if id.Err? then Err(id.error) else Ok(());
    }

    /** createNamedKeyring, called with the keyring's own ring as parent. */
    method CreateNamedKeyring(parent: Serial, name: bytes) returns (r: Result<Serial>)
      requires Valid() && kernel.Resolve(parent) == Target()
      modifies kernel
      ensures Valid() && kernel.faults >= old(kernel.faults)
      ensures OthersKept(old(kernel.state), kernel.state, (KeyringType(), name))
      ensures r.Ok? ==> LinkOf(kernel.state, Target(), (KeyringType(), name)) == if Keeps() then Some(r.value) else None
      ensures r.Ok? ==> r.value in kernel.state.rings && kernel.state.rings[r.value] == map[]
      ensures var key := Key((KeyringType(), name), [], if Detours() then perm else DEFAULT_PERM);
              r.Ok? ==> r.value in kernel.state.keys && kernel.state.keys[r.value] == key
      ensures r.Ok? && Detours() ==> LinkOf(kernel.state, kernel.Session(), (KeyringType(), name)) == None
      ensures r.Ok? ==> !Full(old(kernel.state))
      ensures r.Err? ==> kernel.faults > old(kernel.faults) || Full(old(kernel.state))
    {
      hide WellFormed, Enumerates, OldOrNew, Added, Detour;
      UserTypeHasNoSemicolon();
      ghost var s := kernel.state;
      var index := (KeyringType(), name);
      if perm == 0 {
        var code, id := kernel.AddKey(KeyringType(), name, [], parent);
        if code == 0 {
          AddedKeeps(s, Target(), index, []);
          AddedRingIsEmpty(s, Target(), name);
        }
        return if code != 0 then Err({Status(code)}) else Ok(id);
      }
      ghost var steps;
      r, steps := AddByDetour(index, []);
      DetourOutcome(s, kernel.Session(), Target(), index, [], perm, steps);
      if r.Ok? { DetourRingIsEmpty(s, kernel.Session(), Target(), name, perm); }
    }

    method Remove(name: bytes) returns (r: Result<()>)
      requires Valid()
      modifies kernel
      ensures Valid() && kernel.faults >= old(kernel.faults) && kernel.calls >= old(kernel.calls)
      ensures old(SearchCode(name)) != 0 ==> r == Err({KeyNotFound})
      ensures var code := kernel.status(old(kernel.calls) + 1);
              old(SearchCode(name)) == 0 ==> r == if code != 0 then Err({Status(code)}) else Ok(())
      ensures r.Ok? ==> LinkOf(old(kernel.state), Target(), UserIndex(name)).Some?
      ensures kernel.state == if r.Ok? then Unlinked(old(kernel.state), Target(), UserIndex(name))
                              else old(kernel.state)
      ensures r.Err? && kernel.faults == old(kernel.faults) ==>
                r.error == {KeyNotFound} && LinkOf(kernel.state, Target(), UserIndex(name)).None?
    {
      var code, id := kernel.Search(keyring, UserType(), name);
      if code != 0 {
        return Err({KeyNotFound});
      }
      UnlinkedKeeps(kernel.state, Target(), UserIndex(name));
      code := kernel.Unlink(keyring, id);
      r := if code != 0 then Err({Status(code)}) else Ok(());
    }

    /** The code that looking the name up gets. */
    function SearchCode(name: bytes): Code
      reads kernel
    {
      kernel.Outcome(LinkOf(kernel.state, Target(), UserIndex(name)).Some?, ENOKEY)
    }

    /** Get: the payload as of the last read, complete: what it was before, or else what others
        wrote last. */
    method Get(name: bytes, ghost bound: nat) returns (r: Result<bytes>)
      requires Valid()
      requires forall id | LinkOf(kernel.state, Target(), UserIndex(name)) == Some(id) ::
                Keyctl.Bounded(kernel, id, bound)
      modifies kernel
      ensures Valid() && kernel.faults >= old(kernel.faults)
      ensures r.Ok? ==> PayloadAt(kernel.state, Target(), UserIndex(name)) == Some(r.value)
      ensures r.Err? && kernel.faults == old(kernel.faults) ==> LinkOf(kernel.state, Target(), UserIndex(name)).None?
      ensures r.Err? && KeyNotFound in r.error <==> old(SearchCode(name)) == 126
      ensures old(SearchCode(name)) != 0 ==>
                r == Err(if old(SearchCode(name)) == ENOKEY then {KeyNotFound} else {Status(old(SearchCode(name)))})
      ensures kernel.calls > old(kernel.calls)
      ensures var w := LastWrite(kernel.interference, old(kernel.calls) + 1, kernel.calls);
              PayloadAt(kernel.state, Target(), UserIndex(name))
              == if old(PayloadAt(kernel.state, Target(), UserIndex(name))).Some? && w.Some? then w
                 else old(PayloadAt(kernel.state, Target(), UserIndex(name)))
      ensures kernel.state.rings == old(kernel.state).rings && kernel.state.next == old(kernel.state).next
      ensures OthersKept(old(kernel.state), kernel.state, UserIndex(name))
    {
      UserTypeHasNoSemicolon();
      var code, id := kernel.Search(keyring, UserType(), name);
      if code != 0 {
        return Err(if code == ENOKEY then {KeyNotFound} else {Status(code)});
      }
      ghost var s := kernel.state;
      r := Keyctl.Read(kernel, id, bound);
      PayloadOnlyKeepsOthers(s, kernel.state, id, UserIndex(name));
    }

    /** Keys: the shown names of the "user" keys, in the order the keyring reads out. */
    method Keys() returns (r: Result<seq<bytes>>)
      requires Valid()
      modifies kernel
      ensures Valid() && kernel.state == old(kernel.state) && kernel.faults >= old(kernel.faults)
      ensures kernel.calls >= old(kernel.calls)
      ensures r.Ok? ==> ListEffect(kernel.state, kernel.listing(kernel.state.rings[Target()]), r.value)
      ensures r.Ok? ==> var ids := kernel.listing(kernel.state.rings[Target()]);
                (forall i | 0 <= i < |ids| :: ids[i] in kernel.state.keys) && r.value == ShownNames(kernel.state, ids)
      ensures r.Err? ==> kernel.faults > old(kernel.faults)
    {
      hide EncodeSerials, Keyctl.AfterLastSemicolon, Environment, ListEffect;
      ghost var target := Target();
      ListedKeysExist(kernel, target);
      var data := Keyctl.Read(kernel, Target(), |kernel.Contents(target)|);
      if data.Err? {
        return Err(data.error);
      }
      ghost var list := kernel.listing(kernel.state.rings[target]);
      var ids := Keyctl.ConvertKeyBuffer(data.value, kernel.bigEndian);
      if ids.None? {
        return Err({BadKeyBuffer});
      }
      Keyctl.EncodingUnique(ids.value, list, kernel.bigEndian);
      var results: seq<bytes> := [];
      for i := 0 to |ids.value|
        invariant Valid() && kernel.state == old(kernel.state) && kernel.faults >= old(kernel.faults)
        invariant kernel.calls >= old(kernel.calls)
        invariant results == ShownNames(kernel.state, ids.value[..i])
      {
        var info := Keyctl.Describe(kernel, ids.value[i]);
        if info.Err? {
          return Err(info.error);
        }
        if info.value["type"] == UserType() {
          results := results + [info.value["description"]];
        }
        assert ids.value[..i + 1][..i] == ids.value[..i];
      }
      assert ids.value[..|ids.value|] == ids.value;
      ListedInOrder(kernel.state, ids.value);
      return Ok(results);
    }
  }

  lemma UnchangedIsOld(s: Keyrings, ring: Serial, index: Index, payload: bytes)
    ensures OldOrNew(s, s, ring, index, payload)
    ensures OthersKept(s, s, index)
  {
  }

  lemma NewIsNew(s: Keyrings, s': Keyrings, ring: Serial, index: Index, payload: bytes)
    requires LinkOf(s', ring, index).Some? && LinkOf(s', ring, index).value in s'.keys
    requires s'.keys[LinkOf(s', ring, index).value].payload == payload
    ensures OldOrNew(s, s', ring, index, payload) && PayloadAt(s', ring, index) == Some(payload)
  {
  }

  /** Everything about a detour that got `steps` far. */
  lemma DetourOutcome(s: Keyrings, session: Serial, target: Serial, index: Index, payload: bytes, perm: bv32,
                      steps: nat)
    requires WellFormed(s) && session in s.rings && target in s.rings && SEMICOLON !in index.0 && steps <= 4
    requires steps > 0 ==> s.next < 0x7fff_ffff
    ensures var s' := Detour(s, session, target, index, payload, perm, steps);
      && OthersKept(s, s', index)
      && (session != target || steps < 4 ==> OldOrNew(s, s', target, index, payload))
      && s'.next >= s.next
      && (steps == 4 ==> LinkOf(s', session, index) == None)
      && (steps == 4 ==> At(s', target, index) == if session != target then Some(Key(index, payload, perm)) else None)
      && (steps == 4 ==> LinkOf(s', target, index)
                         == if session != target then Some(Added(s, session, index, payload).1) else None)
  {
    hide WellFormed, Added, OldOrNew;
    if steps == 0 {
      UnchangedIsOld(s, target, index, payload);
    } else {
      DetourKeepsOthers(s, session, target, index, payload, perm, steps);
      AddedKeeps(s, session, index, payload);
      if session != target || steps < 4 { DetourOldOrNew(s, session, target, index, payload, perm, steps); }
      if steps == 4 {
        DetourStoresExactly(s, session, target, index, payload, perm);
        AddedKeeps(s, session, index, payload);
      }
    }
  }

  lemma PayloadOnlyKeepsOthers(s: Keyrings, s': Keyrings, id: Serial, index: Index)
    requires WellFormed(s) && PayloadOnly(s, s', id) && id in s.keys && s.keys[id].index == index
    ensures OthersKept(s, s', index)
  {
    forall r, i | r in s.rings && i != index ensures At(s', r, i) == At(s, r, i) {
      assert LinkOf(s', r, i) == LinkOf(s, r, i);
    }
  }

  lemma ListedKeysExist(k: Kernel, ring: Serial)
    requires k.Valid() && ring in k.state.rings
    ensures ring in k.state.keys
    ensures forall i | 0 <= i < |k.listing(k.state.rings[ring])| ::
      k.listing(k.state.rings[ring])[i] in k.state.keys && Int32(k.listing(k.state.rings[ring])[i])
  {
    var links := k.state.rings[ring];
    var ids := k.listing(links);
    assert Enumerates(ids, links);
    forall i | 0 <= i < |ids| ensures ids[i] in k.state.keys {
      var index := EnumeratedIsLinked(ids, links, i);
      assert k.state.rings[ring][index] in k.state.keys;
    }
  }

  // ---- what the listing means ----

  ghost predicate ShowsAs(key: Key, n: bytes) {
    key.index.0 == UserType() && Keyctl.AfterLastSemicolon(key.index.1) == n
  }

  lemma {:induction false} ShownMember(s: Keyrings, ids: seq<Serial>, n: bytes)
    requires forall i | 0 <= i < |ids| :: ids[i] in s.keys
    ensures n in ShownNames(s, ids) <==>
      exists i :: 0 <= i < |ids| && ShowsAs(s.keys[ids[i]], n)
  {
    hide Keyctl.AfterLastSemicolon;
    if ids != [] {
      ShownMember(s, ids[..|ids| - 1], n);
    }
  }

  lemma LinkedNameIsShown(s: Keyrings, ring: Serial, ids: seq<Serial>, n: bytes)
    requires WellFormed(s) && ring in s.rings && Enumerates(ids, s.rings[ring])
    requires forall i | 0 <= i < |ids| :: ids[i] in s.keys
    requires LinkOf(s, ring, UserIndex(n)).Some?
    ensures Keyctl.AfterLastSemicolon(n) in ShownNames(s, ids)
  {
    hide ShownNames, Keyctl.AfterLastSemicolon;
    var id := s.rings[ring][UserIndex(n)];
    assert id in ids;
    var i :| 0 <= i < |ids| && ids[i] == id;
    ShownMember(s, ids, Keyctl.AfterLastSemicolon(n));
  }

  lemma ShownNameIsLinked(s: Keyrings, ring: Serial, ids: seq<Serial>, m: bytes) returns (n: bytes)
    requires WellFormed(s) && ring in s.rings && Enumerates(ids, s.rings[ring])
    requires forall i | 0 <= i < |ids| :: ids[i] in s.keys
    requires m in ShownNames(s, ids)
    ensures LinkOf(s, ring, UserIndex(n)).Some? && Keyctl.AfterLastSemicolon(n) == m && SEMICOLON !in m
  {
    hide ShownNames, Keyctl.AfterLastSemicolon;
    ShownMember(s, ids, m);
    var i :| 0 <= i < |ids| && ShowsAs(s.keys[ids[i]], m);
    n := s.keys[ids[i]].index.1;
    var index := EnumeratedIsLinked(ids, s.rings[ring], i);
    assert index == UserIndex(n);
    Keyctl.AfterLastSemicolonExactly(n);
  }

  /** Without semicolons, two places of the listing never show the same name. */
  lemma {:induction false} ShownDistinct(s: Keyrings, ring: Serial, ids: seq<Serial>)
    requires WellFormed(s) && ring in s.rings && Distinct(ids)
    requires forall i | 0 <= i < |ids| :: ids[i] in s.keys && LinkOf(s, ring, s.keys[ids[i]].index) == Some(ids[i])
    requires forall n | LinkOf(s, ring, UserIndex(n)).Some? :: SEMICOLON !in n
    ensures Distinct(ShownNames(s, ids))
  {
    hide Keyctl.AfterLastSemicolon, WellFormed, LinkOf;
    if ids != [] {
      var n := |ids| - 1;
      ShownDistinct(s, ring, ids[..n]);
      var key := s.keys[ids[n]];
      if key.index.0 == UserType() {
        var shown := Keyctl.AfterLastSemicolon(key.index.1);
        ShownMember(s, ids[..n], shown);
        if shown in ShownNames(s, ids[..n]) {
          var i :| 0 <= i < n && ShowsAs(s.keys[ids[i]], shown);
          assert s.keys[ids[i]].index == UserIndex(s.keys[ids[i]].index.1) && key.index == UserIndex(key.index.1);
          Keyctl.AfterLastSemicolonExactly(s.keys[ids[i]].index.1);
          Keyctl.AfterLastSemicolonExactly(key.index.1);
        }
      }
    }
  }

  /** Keys lists exactly the linked names, each once, if and only if none of them holds a semicolon. */
  lemma KeysExactly(s: Keyrings, ring: Serial, ids: seq<Serial>)
    requires WellFormed(s) && ring in s.rings && Enumerates(ids, s.rings[ring])
    requires forall i | 0 <= i < |ids| :: ids[i] in s.keys
    ensures (&& Distinct(ShownNames(s, ids))
             && forall n :: n in ShownNames(s, ids) <==> LinkOf(s, ring, UserIndex(n)).Some?)
       <==> (forall n | LinkOf(s, ring, UserIndex(n)).Some? :: SEMICOLON !in n)
  {
    hide ShownNames, Keyctl.AfterLastSemicolon, LinkOf, WellFormed;
    forall n | LinkOf(s, ring, UserIndex(n)).Some?
      ensures SEMICOLON !in n ==> n in ShownNames(s, ids)
    {
      LinkedNameIsShown(s, ring, ids, n);
      Keyctl.AfterLastSemicolonExactly(n);
    }
    forall m | m in ShownNames(s, ids)
      ensures SEMICOLON !in m
      ensures (forall n | LinkOf(s, ring, UserIndex(n)).Some? :: SEMICOLON !in n) ==>
                LinkOf(s, ring, UserIndex(m)).Some?
    {
      var n := ShownNameIsLinked(s, ring, ids, m);
      Keyctl.AfterLastSemicolonExactly(n);
    }
    if forall n | LinkOf(s, ring, UserIndex(n)).Some? :: SEMICOLON !in n {
      forall i | 0 <= i < |ids| ensures LinkOf(s, ring, s.keys[ids[i]].index) == Some(ids[i]) {
        ListedIsLinked(s, ring, ids, i);
      }
      ShownDistinct(s, ring, ids);
    }
  }

  lemma ListedIsLinked(s: Keyrings, ring: Serial, ids: seq<Serial>, i: nat)
    requires WellFormed(s) && ring in s.rings && Enumerates(ids, s.rings[ring]) && i < |ids| && ids[i] in s.keys
    ensures LinkOf(s, ring, s.keys[ids[i]].index) == Some(ids[i])
  {
    var index := EnumeratedIsLinked(ids, s.rings[ring], i);
  }
}
