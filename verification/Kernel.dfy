/** Kernel keyrings as add_key(2) and keyctl(2) describe them.  A keyring links at most one key
    per type and description.  An oracle decides which calls fail; another process may replace
    the payload of a key just before it is read. */
module Kernel {
  import opened Bytes
  import opened Errors

  type Serial = int
  type Code = nat
  type Index = (bytes, bytes)   // type and description

  const SESSION: Serial := -3
  const ENOKEY: Code := 126
  const ENOENT: Code := 2
  const EINVAL: Code := 22
  const MAX_PAYLOAD := 32767
  const DEFAULT_PERM: bv32 := 0x3f010000

  function UserType(): bytes { Ascii("user") }
  function KeyringType(): bytes { Ascii("keyring") }

  datatype Key = Key(index: Index, payload: bytes, perm: bv32)

  // ---- serials as the kernel writes them into a buffer ----

  predicate Int32(v: int) { -0x8000_0000 <= v < 0x8000_0000 }

  /** The four bytes of an int32 in the byte order of the host. */
  function EncodeSerial(v: Serial, bigEndian: bool): (r: bytes)
    ensures |r| == 4
  {
    var u := v % 0x1_0000_0000;
    var a, b, c, d := u % 0x100, u / 0x100 % 0x100, u / 0x1_0000 % 0x100, u / 0x100_0000;
    if bigEndian then [d, c, b, a] else [a, b, c, d]
  }

  /** Two's complement, with the most significant byte last or first. */
  lemma EncodedExamples()
    ensures EncodeSerial(0x01020304, true) == [1, 2, 3, 4] && EncodeSerial(0x01020304, false) == [4, 3, 2, 1]
    ensures EncodeSerial(-2, true) == [255, 255, 255, 254]
  {
  }

  function Word(a: int, b: int, c: int, d: int): int {
    a + 0x100 * b + 0x1_0000 * c + 0x100_0000 * d
  }

  lemma WordSplits(a: byte, b: byte, c: byte, d: byte)
    ensures var u := Word(a, b, c, d);
      && 0 <= u < 0x1_0000_0000 && u % 0x100 == a && u / 0x100 % 0x100 == b
      && u / 0x1_0000 % 0x100 == c && u / 0x100_0000 == d
  {
    var u := Word(a, b, c, d);
    assert u / 0x100 == b + 0x100 * c + 0x1_0000 * d;
    assert u / 0x1_0000 == c + 0x100 * d;
  }

  lemma WordJoins(u: int)
    ensures Word(u % 0x100, u / 0x100 % 0x100, u / 0x1_0000 % 0x100, u / 0x100_0000) == u
  {
    assert u / 0x100 / 0x100 == u / 0x1_0000;
    assert u / 0x1_0000 / 0x100 == u / 0x100_0000;
  }

  function EncodeSerials(s: seq<Serial>, bigEndian: bool): (r: bytes)
    ensures |r| == 4 * |s|
  {
    if s == [] then [] else EncodeSerials(s[..|s| - 1], bigEndian) + EncodeSerial(s[|s| - 1], bigEndian)
  }

  /** The sequence names each linked key once. */
  ghost predicate Enumerates(s: seq<Serial>, links: map<Index, Serial>) {
    && Distinct(s)
    && (forall i: Index | i in links :: links[i] in s)
    && (forall j | 0 <= j < |s| :: exists i: Index :: i in links && links[i] == s[j])
  }

  lemma EnumeratedIsLinked(s: seq<Serial>, links: map<Index, Serial>, j: nat) returns (i: Index)
    requires Enumerates(s, links) && j < |s|
    ensures i in links && links[i] == s[j]
  {
    var v := s[j];
    i :| i in links && links[i] == v;
  }

  // ---- keyrings as values ----

  datatype Keyrings = Keyrings(keys: map<Serial, Key>, rings: map<Serial, map<Index, Serial>>, next: Serial)

  ghost predicate WellFormed(s: Keyrings) {
    && 0 < s.next <= 0x7fff_ffff && (forall id | id in s.keys :: 0 < id < s.next)
    && (forall id | id in s.keys :: SEMICOLON !in s.keys[id].index.0)
    && (forall r | r in s.rings :: r in s.keys && s.keys[r].index.0 == KeyringType())
    && (forall r, i | r in s.rings && i in s.rings[r] :: s.rings[r][i] in s.keys && s.keys[s.rings[r][i]].index == i)
  }

  /** The serial a keyring links under a type and description. */
  function LinkOf(s: Keyrings, ring: Serial, index: Index): Option<Serial> {
    if ring in s.rings && index in s.rings[ring] then Some(s.rings[ring][index]) else None
  }

  /** The key behind that link. */
  function At(s: Keyrings, ring: Serial, index: Index): Option<Key> {
    match LinkOf(s, ring, index)
    case Some(id) => if id in s.keys then Some(s.keys[id]) else None
    case None => None
  }

  function WithKey(s: Keyrings, id: Serial, key: Key): Keyrings {
    s.(keys := s.keys[id := key])
  }

  function WithLink(s: Keyrings, ring: Serial, index: Index, id: Serial): Keyrings
    requires ring in s.rings
  {
    s.(rings := s.rings[ring := s.rings[ring][index := id]])
  }

  /** add_key(2): a matching "user" key is updated in place; otherwise a new key is linked,
      displacing a link of the same type and description. */
  function Added(s: Keyrings, ring: Serial, index: Index, payload: bytes): (r: (Keyrings, Serial))
    requires ring in s.rings
  {
    var found := LinkOf(s, ring, index);
    if index.0 == UserType() && found.Some? && found.value in s.keys then
      (WithKey(s, found.value, s.keys[found.value].(payload := payload)), found.value)
    else
      var id := s.next;
      var s1 := WithLink(WithKey(s, id, Key(index, payload, DEFAULT_PERM)), ring, index, id);
      (Keyrings(s1.keys, if index.0 == KeyringType() then s1.rings[id := map[]] else s1.rings, id + 1), id)
  }

  function PermSet(s: Keyrings, id: Serial, perm: bv32): Keyrings
    requires id in s.keys
  {
    WithKey(s, id, s.keys[id].(perm := perm))
  }

  function Linked(s: Keyrings, ring: Serial, id: Serial): Keyrings
    requires ring in s.rings && id in s.keys
  {
    WithLink(s, ring, s.keys[id].index, id)
  }

  function Unlinked(s: Keyrings, ring: Serial, index: Index): Keyrings
    requires ring in s.rings
  {
    s.(rings := s.rings[ring := s.rings[ring] - {index}])
  }

  /** Every keyring still shows, under every other type and description, the same key. */
  ghost predicate OthersKept(s: Keyrings, s': Keyrings, index: Index) {
    && s.rings.Keys <= s'.rings.Keys
    && forall r, i | r in s.rings && i != index :: At(s', r, i) == At(s, r, i)
  }

  /** The payload limits of add_key(2): a "user" key is neither empty nor too long. */
  predicate Fits(keyType: bytes, payload: bytes) {
    keyType == UserType() ==> 0 < |payload| <= MAX_PAYLOAD
  }

  /** No serial is left for a new key. */
  predicate Full(s: Keyrings) { s.next >= 0x7fff_ffff }

  lemma AddedWellFormed(s: Keyrings, ring: Serial, index: Index, payload: bytes)
    requires WellFormed(s) && ring in s.rings && s.next < 0x7fff_ffff && SEMICOLON !in index.0
    ensures WellFormed(Added(s, ring, index, payload).0)
  {
    hide WellFormed;
    var found := LinkOf(s, ring, index);
    if index.0 == UserType() && found.Some? && found.value in s.keys {
      PayloadWritten(s, found.value, payload);
    } else {
      var t := Keyrings(s.keys[s.next := Key(index, payload, DEFAULT_PERM)], s.rings, s.next + 1);
      FreshKeyWellFormed(s, index, payload);
      LinkedKeeps(t, ring, s.next);
      var u := Linked(t, ring, s.next);
      if index.0 == KeyringType() {
        EmptyRingWellFormed(u, s.next);
        assert Added(s, ring, index, payload).0 == u.(rings := u.rings[s.next := map[]]);
      } else {
        assert Added(s, ring, index, payload).0 == u;
      }
    }
  }

  lemma FreshKeyWellFormed(s: Keyrings, index: Index, payload: bytes)
    requires WellFormed(s) && s.next < 0x7fff_ffff && SEMICOLON !in index.0
    ensures WellFormed(Keyrings(s.keys[s.next := Key(index, payload, DEFAULT_PERM)], s.rings, s.next + 1))
  {
    var t := Keyrings(s.keys[s.next := Key(index, payload, DEFAULT_PERM)], s.rings, s.next + 1);
    assert forall id | id in s.keys :: id in t.keys && t.keys[id] == s.keys[id];
  }

  lemma EmptyRingWellFormed(s: Keyrings, id: Serial)
    requires WellFormed(s) && id in s.keys && s.keys[id].index.0 == KeyringType()
    ensures WellFormed(s.(rings := s.rings[id := map[]]))
  {
  }

  lemma AddedKeeps(s: Keyrings, ring: Serial, index: Index, payload: bytes)
    requires WellFormed(s) && ring in s.rings
    ensures var (s', id) := Added(s, ring, index, payload);
      && OthersKept(s, s', index)
      && id in s'.keys && s'.keys[id].index == index && s'.keys[id].payload == payload
      && LinkOf(s', ring, index) == Some(id) && s'.next >= s.next
  {
    var (s', id) := Added(s, ring, index, payload);
    assert id in s'.keys;
    forall r, i | r in s.rings && i != index ensures At(s', r, i) == At(s, r, i) {
      assert LinkOf(s', r, i) == LinkOf(s, r, i);
    }
  }

  /** A keyring that is added is a new one, and empty. */
  lemma AddedRingIsEmpty(s: Keyrings, ring: Serial, name: bytes)
    requires WellFormed(s) && ring in s.rings && KeyringType() != UserType()
    ensures var (s', id) := Added(s, ring, (KeyringType(), name), []);
      && id !in s.rings && id in s'.rings && s'.rings[id] == map[]
      && id in s'.keys && s'.keys[id] == Key((KeyringType(), name), [], DEFAULT_PERM)
  {
  }

  /** The payload a keyring shows under a type and description. */
  function PayloadAt(s: Keyrings, ring: Serial, index: Index): Option<bytes> {
    match At(s, ring, index)
    case Some(key) => Some(key.payload)
    case None => None
  }

  /** In any other keyring the changed index shows its old payload or, where it links the very
      key that was updated, the new one. */
  lemma AddedElsewhere(s: Keyrings, ring: Serial, index: Index, payload: bytes, other: Serial)
    requires WellFormed(s) && ring in s.rings && other != ring
    ensures var s' := Added(s, ring, index, payload).0;
            LinkOf(s', other, index) == LinkOf(s, other, index)
    ensures var s' := Added(s, ring, index, payload).0;
            PayloadAt(s', other, index) == PayloadAt(s, other, index) || PayloadAt(s', other, index) == Some(payload)
  {
  }

  lemma PermSetKeeps(s: Keyrings, id: Serial, perm: bv32)
    requires WellFormed(s) && id in s.keys
    ensures WellFormed(PermSet(s, id, perm)) && OthersKept(s, PermSet(s, id, perm), s.keys[id].index)
  {
    var s' := PermSet(s, id, perm);
    forall r, i | r in s.rings && i != s.keys[id].index ensures At(s', r, i) == At(s, r, i) {
      assert LinkOf(s', r, i) == LinkOf(s, r, i);
    }
  }

  lemma LinkedKeeps(s: Keyrings, ring: Serial, id: Serial)
    requires WellFormed(s) && ring in s.rings && id in s.keys
    ensures WellFormed(Linked(s, ring, id)) && OthersKept(s, Linked(s, ring, id), s.keys[id].index)
    ensures LinkOf(Linked(s, ring, id), ring, s.keys[id].index) == Some(id)
  {
    var s', index := Linked(s, ring, id), s.keys[id].index;
    forall r, i | r in s.rings && i != index ensures At(s', r, i) == At(s, r, i) {
      assert LinkOf(s', r, i) == LinkOf(s, r, i);
    }
  }

  lemma UnlinkedKeeps(s: Keyrings, ring: Serial, index: Index)
    requires WellFormed(s) && ring in s.rings
    ensures WellFormed(Unlinked(s, ring, index)) && OthersKept(s, Unlinked(s, ring, index), index)
    ensures LinkOf(Unlinked(s, ring, index), ring, index) == None
  {
  }

  lemma OthersKeptTransitive(s: Keyrings, t: Keyrings, u: Keyrings, index: Index)
    requires OthersKept(s, t, index) && OthersKept(t, u, index)
    ensures OthersKept(s, u, index)
  {
  }

  /** At most the payload of one key differs. */
  ghost predicate PayloadOnly(s: Keyrings, s': Keyrings, id: Serial) {
    s' == s || (id in s.keys && id in s'.keys && s' == WithKey(s, id, s.keys[id].(payload := s'.keys[id].payload)))
  }

  lemma PayloadWritten(s: Keyrings, id: Serial, payload: bytes)
    requires WellFormed(s) && id in s.keys
    ensures var s' := WithKey(s, id, s.keys[id].(payload := payload));
            WellFormed(s') && PayloadOnly(s, s', id) && s'.rings == s.rings
  {
  }

  const SEMICOLON: byte := 59

  /** Fields and a last one, separated by semicolons. */
  function JoinFields(fields: seq<bytes>, last: bytes): bytes {
    if fields == [] then last else fields[0] + [SEMICOLON] + JoinFields(fields[1..], last)
  }

  // ---- what others do ----

  /** The last payload that others wrote just before one of the calls lo to hi. */
  function LastWrite(interference: nat -> Option<bytes>, lo: nat, hi: nat): Option<bytes> {
    if hi <= lo then None
    else if interference(hi - 1).Some? then interference(hi - 1)
    else LastWrite(interference, lo, hi - 1)
  }

  lemma {:induction false} LastWriteIsWrite(interference: nat -> Option<bytes>, lo: nat, hi: nat)
    ensures LastWrite(interference, lo, hi).Some? ==>
              exists n: nat :: lo <= n < hi && interference(n) == LastWrite(interference, lo, hi)
    ensures LastWrite(interference, lo, hi).None? <==> forall n: nat | lo <= n < hi :: interference(n).None?
  {
    if lo < hi { LastWriteIsWrite(interference, lo, hi - 1); }
  }

  /** The keyrings after others may have written the payload of one key. */
  function Rewritten(s: Keyrings, id: Serial, payload: Option<bytes>): Keyrings {
    if payload.Some? && id in s.keys && id !in s.rings
    then WithKey(s, id, s.keys[id].(payload := payload.value)) else s
  }

  /** One more write on top of those of the earlier calls. */
  lemma RewrittenAgain(s: Keyrings, id: Serial, interference: nat -> Option<bytes>, lo: nat, hi: nat)
    requires lo <= hi
    ensures Rewritten(Rewritten(s, id, LastWrite(interference, lo, hi)), id, interference(hi))
         == Rewritten(s, id, LastWrite(interference, lo, hi + 1))
    ensures PayloadOnly(s, Rewritten(s, id, LastWrite(interference, lo, hi + 1)), id)
  {
  }

  // ---- the system calls ----

  /** Keyrings read out what they link, the special ids stand for keyrings, and descriptions have
      the fields keyctl(2) names. */
  ghost predicate Environment(state: Keyrings, special: Serial -> Serial, listing: map<Index, Serial> -> seq<Serial>,
                              middle: Serial -> seq<bytes>) {
    && WellFormed(state)
    && (forall m: map<Index, Serial> :: Enumerates(listing(m), m))
    && (forall ref: Serial | ref < 0 :: special(ref) in state.rings)
    && (forall id :: |middle(id)| >= 3 && forall f | f in middle(id) :: SEMICOLON !in f)
  }

  /** Every keyring can be read out. */
  lemma {:induction false} EnumerationExists(links: map<Index, Serial>)
    ensures exists s: seq<Serial> :: Enumerates(s, links)
    decreases |links|
  {
    if links == map[] {
      assert Enumerates([], links);
    } else {
      var i: Index :| i in links;
      var rest := links - {i};
      EnumerationExists(rest);
      var r: seq<Serial> :| Enumerates(r, rest);
      EnumerationGrows(links, i, r);
    }
  }

  lemma EnumerationGrows(links: map<Index, Serial>, i: Index, r: seq<Serial>)
    requires i in links && Enumerates(r, links - {i})
    ensures Enumerates(if links[i] in r then r else r + [links[i]], links)
  {
    var s := if links[i] in r then r else r + [links[i]];
    forall j | 0 <= j < |s| ensures exists k: Index :: k in links && links[k] == s[j] {
      if j < |r| {
        var k := EnumeratedIsLinked(r, links - {i}, j);
        assert links[k] == s[j];
      } else {
        assert links[i] == s[j];
      }
    }
    forall k: Index | k in links ensures links[k] in s {
      if k != i { assert k in links - {i}; }
    }
  }

  ghost function Listing(m: map<Index, Serial>): (s: seq<Serial>)
    ensures Enumerates(s, m)
  {
    EnumerationExists(m);
    var s: seq<Serial> :| Enumerates(s, m);
    s
  }

  /** There are such environments: one keyring, empty, that all special ids stand for. */
  lemma EnvironmentExists()
    ensures exists state, special, listing, middle :: Environment(state, special, listing, middle)
  {
    hide Enumerates;
    assert SEMICOLON !in KeyringType();
    var key := Key((KeyringType(), []), [], DEFAULT_PERM);
    var state := Keyrings(map[1 := key], map[1 := map[]], 2);
    assert WellFormed(state);
    var special: Serial -> Serial := ref => 1;
    var middle: Serial -> seq<bytes> := id => [[], [], []];
    forall m: map<Index, Serial> ensures Enumerates(Listing(m), m) {
    }
    assert Environment(state, special, Listing, middle);
  }

  class Kernel {
    const status: nat -> Code                          // errno forced on the n-th call; 0 lets it proceed
    const special: Serial -> Serial                    // what the negative keyring ids stand for
    const listing: map<Index, Serial> -> seq<Serial>   // the order in which a keyring reads out
    const interference: nat -> Option<bytes>           // payload others write just before the n-th call
    const middle: Serial -> seq<bytes>                 // uid, gid, perm and any newer fields of a description
    const bigEndian: bool
    var state: Keyrings
    var calls: nat
    var faults: nat

    constructor (status: nat -> Code, special: Serial -> Serial, listing: map<Index, Serial> -> seq<Serial>,
                 interference: nat -> Option<bytes>, middle: Serial -> seq<bytes>, bigEndian: bool, state: Keyrings)
      requires Environment(state, special, listing, middle)
      ensures Valid() && this.state == state
    {
      this.status, this.special, this.listing, this.interference := status, special, listing, interference;
      this.middle, this.bigEndian, this.state, calls, faults := middle, bigEndian, state, 0, 0;
    }

    ghost predicate Valid()
      reads this
    {
      Environment(state, special, listing, middle)
    }

    function Resolve(ref: Serial): Serial {
      if ref < 0 then special(ref) else ref
    }

    function Session(): Serial { special(SESSION) }

    /** The code a call gets when its arguments are otherwise as given. */
    function Outcome(ok: bool, otherwise: Code): Code
      reads this
    {
      if status(calls) != 0 then status(calls) else if ok then 0 else otherwise
    }

    twostate predicate Counted()
      reads this
    {
      calls == old(calls) + 1 && faults == old(faults) + if status(old(calls)) != 0 then 1 else 0
    }

    method Count()
      modifies this`calls, this`faults
      ensures Counted()
    {
      faults := faults + if status(calls) != 0 then 1 else 0;
      calls := calls + 1;
    }

    /** The payload fits, the keyring exists, and serials are left. */
    predicate CanAdd(ring: Serial, keyType: bytes, payload: bytes)
      reads this
    {
      Fits(keyType, payload) && ring in state.rings && !Full(state)
    }

    method AddKey(keyType: bytes, desc: bytes, payload: bytes, ref: Serial) returns (code: Code, id: Serial)
      requires Valid() && SEMICOLON !in keyType
      modifies this
      ensures Valid() && Counted()
      ensures code == old(Outcome(CanAdd(Resolve(ref), keyType, payload),
                                  if Fits(keyType, payload) then ENOKEY else EINVAL))
      ensures code != 0 ==> state == old(state)
      ensures code == 0 ==> old(CanAdd(Resolve(ref), keyType, payload))
      ensures code == 0 ==> (state, id) == Added(old(state), Resolve(ref), (keyType, desc), payload)
    {
      hide LinkOf;
      code, id := Outcome(CanAdd(Resolve(ref), keyType, payload), if Fits(keyType, payload) then ENOKEY else EINVAL), 0;
      if code == 0 {
        AddedWellFormed(state, Resolve(ref), (keyType, desc), payload);
        AddedKeeps(state, Resolve(ref), (keyType, desc), payload);
        var added := Added(state, Resolve(ref), (keyType, desc), payload);
        state, id := added.0, added.1;
      }
      Count();
    }

    method Setperm(id: Serial, perm: bv32) returns (code: Code)
      requires Valid()
      modifies this
      ensures Valid() && Counted()
      ensures code == old(Outcome(id in state.keys, ENOKEY))
      ensures code != 0 ==> state == old(state)
      ensures code == 0 ==> id in old(state).keys && state == PermSet(old(state), id, perm)
    {
      code := Outcome(id in state.keys, ENOKEY);
      if code == 0 {
        PermSetKeeps(state, id, perm);
        state := PermSet(state, id, perm);
      }
      Count();
    }

    method Link(ref: Serial, id: Serial) returns (code: Code)
      requires Valid()
      modifies this
      ensures Valid() && Counted()
      ensures code == old(Outcome(Resolve(ref) in state.rings && id in state.keys, ENOKEY))
      ensures code != 0 ==> state == old(state)
      ensures code == 0 ==> Resolve(ref) in old(state).rings && id in old(state).keys
      ensures code == 0 ==> state == Linked(old(state), Resolve(ref), id)
    {
      code := Outcome(Resolve(ref) in state.rings && id in state.keys, ENOKEY);
      if code == 0 {
        LinkedKeeps(state, Resolve(ref), id);
        state := Linked(state, Resolve(ref), id);
      }
      Count();
    }

    predicate IsLinked(ring: Serial, id: Serial)
      reads this
    {
      id in state.keys && LinkOf(state, ring, state.keys[id].index) == Some(id)
    }

    method Unlink(ref: Serial, id: Serial) returns (code: Code)
      requires Valid()
      modifies this
      ensures Valid() && Counted()
      ensures code == old(Outcome(IsLinked(Resolve(ref), id), ENOENT))
      ensures code != 0 ==> state == old(state)
      ensures code == 0 ==> old(IsLinked(Resolve(ref), id))
      ensures code == 0 ==> state == Unlinked(old(state), Resolve(ref), old(state).keys[id].index)
    {
      code := Outcome(IsLinked(Resolve(ref), id), ENOENT);
      if code == 0 {
        UnlinkedKeeps(state, Resolve(ref), state.keys[id].index);
        state := Unlinked(state, Resolve(ref), state.keys[id].index);
      }
      Count();
    }

    /** keyctl_search(3) in a keyring that nests no other. */
    method Search(ref: Serial, keyType: bytes, desc: bytes) returns (code: Code, id: Serial)
      requires Valid()
      modifies this
      ensures Valid() && Counted() && state == old(state)
      ensures code == old(Outcome(LinkOf(state, Resolve(ref), (keyType, desc)).Some?, ENOKEY))
      ensures code == 0 ==> LinkOf(state, Resolve(ref), (keyType, desc)) == Some(id)
    {
      code := Outcome(LinkOf(state, Resolve(ref), (keyType, desc)).Some?, ENOKEY);
      id := if code == 0 then LinkOf(state, Resolve(ref), (keyType, desc)).value else 0;
      Count();
    }

    /** What reading a key or keyring yields in full. */
    function Contents(id: Serial): bytes
      reads this
    {
      if id in state.rings then EncodeSerials(listing(state.rings[id]), bigEndian)
      else if id in state.keys then state.keys[id].payload
      else []
    }

    /** KEYCTL_READ: the full length comes back; the data only if the buffer holds all of it. */
    method ReadBuffer(id: Serial, buffer: array<byte>) returns (code: Code, length: nat)
      requires Valid()
      modifies this, buffer
      ensures Valid() && Counted() && PayloadOnly(old(state), state, id)
      ensures state == Rewritten(old(state), id, interference(old(calls)))
      ensures code == old(Outcome(id in state.keys, ENOKEY))
      ensures code == 0 ==> length == |Contents(id)|
      ensures code == 0 && length <= buffer.Length ==> buffer[..length] == Contents(id)
    {
      var now := interference(calls);
      if now.Some? && id in state.keys && id !in state.rings {
        PayloadWritten(state, id, now.value);
        state := WithKey(state, id, state.keys[id].(payload := now.value));
      }
      code := Outcome(id in state.keys, ENOKEY);
      length := |Contents(id)|;
      if code == 0 && length <= buffer.Length {
        forall i | 0 <= i < length { buffer[i] := Contents(id)[i]; }
        assert buffer[..length] == Contents(id);
      }
      Count();
    }

    /** The record KEYCTL_DESCRIBE returns: type, other fields, description. */
    function Description(id: Serial): bytes
      reads this
      requires id in state.keys
    {
      JoinFields([state.keys[id].index.0] + middle(id), state.keys[id].index.1)
    }

    method Describe(id: Serial) returns (code: Code, text: bytes)
      requires Valid()
      modifies this
      ensures Valid() && Counted() && state == old(state)
      ensures code == old(Outcome(id in state.keys, ENOKEY))
      ensures code == 0 ==> id in state.keys && text == Description(id)
    {
      code := Outcome(id in state.keys, ENOKEY);
      text := if code == 0 then Description(id) else [];
      Count();
    }
  }
}
