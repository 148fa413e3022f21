/** The calls made to the NCrypt layer, and a monitor automaton that accepts exactly the
    disciplined call sequences: handles are used only while live, freed once, keys before
    their provider; a decrypt happens only behind a gesture; a key is created only after a
    probe that did not find it. */
module Trace {
  import opened Bytes
  import opened Errors
  import opened Library

  type Handle = nat
  type Code = nat

  datatype Property =
    | KeyLength | KeyUsage | NgcCacheType | NgcCacheTypeLegacy
    | GestureRequired | UseContext | WindowHandle

  datatype Value = UInt(n: nat) | Str(s: bytes) | Window(hwnd: nat)

  /** What a private-key decrypt was asked with: its flags, and the use context its handle shows. */
  datatype Prompt = Prompt(flags: bv32, shown: bytes)

  /** A handle is named by the position of the call that acquired it, plus one. */
  datatype Event =
    | OpenProvider(h: Handle)
    | OpenProviderFailed(code: Code)
    | OpenKey(h: Handle, provider: Handle, name: bytes, material: Material)
    | OpenKeyFailed(provider: Handle, name: bytes, code: Code)
    | CreateKey(h: Handle, provider: Handle, name: bytes, material: Material)
    | CreateKeyFailed(provider: Handle, name: bytes, code: Code)
    | SetProperty(h: Handle, property: Property, value: Value, code: Code)
    | Finalize(h: Handle, code: Code)
    | Encrypt(h: Handle, code: Code)
    | Decrypt(h: Handle, prompt: Prompt, code: Code)
    | Free(h: Handle, code: Code)

  datatype Object =
    | Provider
    | Key(provider: Handle, name: bytes, material: Material, props: map<Property, Value>)

  datatype Monitor = Monitor(live: map<Handle, Object>, missing: set<bytes>)

  /** isWinHelloNCryptKeyNotFound */
  predicate NotFound(code: Code) {
    code == 0x80090016 || code == 0x8009000d || code == 0x80090011
  }

  predicate IsProvider(m: Monitor, h: Handle) { h in m.live && m.live[h].Provider? }
  predicate IsKey(m: Monitor, h: Handle) { h in m.live && m.live[h].Key? }

  /** A use context is shown and the gesture cannot be skipped. */
  predicate Gated(props: map<Property, Value>) {
    && UseContext in props && props[UseContext].Str? && props[UseContext].s != []
    && GestureRequired in props && props[GestureRequired] == UInt(1)
  }

  /** The monitor after call number n; None when the call breaks the discipline. */
  function Step(m: Monitor, n: nat, e: Event): Option<Monitor> {
    match e
    case OpenProvider(h) =>
      if h == n + 1 then Some(m.(live := m.live[h := Provider])) else None
    case OpenProviderFailed(_) => Some(m)
    case OpenKey(h, p, name, material) =>
      if h == n + 1 && IsProvider(m, p)
      then Some(Monitor(m.live[h := Key(p, name, material, map[])], m.missing - {name})) else None
    case OpenKeyFailed(p, name, code) =>
      if IsProvider(m, p)
      then Some(m.(missing := if NotFound(code) then m.missing + {name} else m.missing - {name})) else None
    case CreateKey(h, p, name, material) =>
      if h == n + 1 && IsProvider(m, p) && name in m.missing
      then Some(Monitor(m.live[h := Key(p, name, material, map[])], m.missing - {name})) else None
    case CreateKeyFailed(p, name, _) =>
      if IsProvider(m, p) && name in m.missing then Some(m) else None
    case SetProperty(h, p, v, code) =>
      if h !in m.live then None
      else if code == 0 && m.live[h].Key?
      then Some(m.(live := m.live[h := m.live[h].(props := m.live[h].props[p := v])]))
      else Some(m)
    case Finalize(h, _) => if IsKey(m, h) then Some(m) else None
    case Encrypt(h, _) => if IsKey(m, h) then Some(m) else None
    case Decrypt(h, prompt, _) =>
      if IsKey(m, h) && Gated(m.live[h].props) && m.live[h].props[UseContext] == Str(prompt.shown)
      then Some(m) else None
    case Free(h, _) =>
      if h in m.live && forall k | k in m.live :: m.live[k].Key? ==> m.live[k].provider != h
      then Some(m.(live := m.live - {h})) else None
  }

  const START := Monitor(map[], {})

  function After(m: Option<Monitor>, n: nat, e: Event): Option<Monitor> {
    if m.None? then None else Step(m.value, n, e)
  }

  function Replay(t: seq<Event>): Option<Monitor> {
    if t == [] then Some(START) else After(Replay(t[..|t| - 1]), |t| - 1, t[|t| - 1])
  }

  ghost predicate Accepted(t: seq<Event>) { Replay(t).Some? }

  lemma ReplayPush(t: seq<Event>, e: Event)
    ensures Replay(t + [e]) == After(Replay(t), |t|, e)
  {
    assert (t + [e])[..|t|] == t;
  }

  /** Handles in use were acquired by earlier calls, and every open key's provider is open. */
  ghost predicate WellFormed(m: Monitor, n: nat) {
    forall h | h in m.live :: 1 <= h <= n && (m.live[h].Key? ==> IsProvider(m, m.live[h].provider))
  }

  lemma StepKeepsForm(m: Monitor, n: nat, e: Event)
    requires WellFormed(m, n)
    ensures Step(m, n, e).Some? ==> WellFormed(Step(m, n, e).value, n + 1)
  {
  }

  lemma {:induction false} ReplayIsWellFormed(t: seq<Event>)
    ensures Accepted(t) ==> WellFormed(Replay(t).value, |t|)
  {
    if t != [] && Accepted(t) {
      ReplayIsWellFormed(t[..|t| - 1]);
      StepKeepsForm(Replay(t[..|t| - 1]).value, |t| - 1, t[|t| - 1]);
    }
  }

  // ---- the shapes an operation passes through ----

  ghost predicate Closed(base: map<Handle, Object>) {
    forall h | h in base :: base[h].Key? ==> base[h].provider in base
  }

  /** One provider is open on top of `base`. */
  ghost predicate ProviderOpen(m: Monitor, base: map<Handle, Object>, p: Handle) {
    Closed(base) && p !in base && m.live == base[p := Provider]
  }

  /** A provider and one of its keys are open on top of `base`. */
  ghost predicate KeyOpen(m: Monitor, base: map<Handle, Object>, p: Handle, k: Handle) {
    && Closed(base) && p !in base && k !in base && p != k
    && IsKey(m, k) && m.live[k].provider == p
    && m.live == base[p := Provider][k := m.live[k]]
  }

  /** Two states of one key handle: the same key, perhaps with other properties. */
  predicate SameKey(a: Object, b: Object) {
    a.Key? && b.Key? && b == a.(props := b.props)
  }

  lemma OpenProviderStep(m: Monitor, n: nat)
    requires WellFormed(m, n)
    ensures Step(m, n, OpenProvider(n + 1)).Some?
    ensures var m' := Step(m, n, OpenProvider(n + 1)).value;
            ProviderOpen(m', m.live, n + 1) && m'.missing == m.missing
    ensures forall code :: Step(m, n, OpenProviderFailed(code)) == Some(m)
  {
  }

  lemma ProbeStep(m: Monitor, n: nat, base: map<Handle, Object>, p: Handle, name: bytes, material: Material, code: Code)
    requires WellFormed(m, n) && ProviderOpen(m, base, p)
    ensures Step(m, n, OpenKey(n + 1, p, name, material)).Some?
    ensures var m' := Step(m, n, OpenKey(n + 1, p, name, material)).value;
            KeyOpen(m', base, p, n + 1) && m'.live[n + 1] == Key(p, name, material, map[])
    ensures Step(m, n, OpenKeyFailed(p, name, code)).Some?
    ensures var m' := Step(m, n, OpenKeyFailed(p, name, code)).value;
            m'.live == m.live && (name in m'.missing <==> NotFound(code))
  {
    var m' := Step(m, n, OpenKey(n + 1, p, name, material)).value;
    assert forall x | x in base :: x in m.live;
    assert m'.live == base[p := Provider][n + 1 := m'.live[n + 1]];
  }

  lemma CreateStep(m: Monitor, n: nat, base: map<Handle, Object>, p: Handle, name: bytes, material: Material,
                   code: Code)
    requires WellFormed(m, n) && ProviderOpen(m, base, p) && name in m.missing
    ensures Step(m, n, CreateKey(n + 1, p, name, material)).Some?
    ensures var m' := Step(m, n, CreateKey(n + 1, p, name, material)).value;
            KeyOpen(m', base, p, n + 1) && m'.live[n + 1] == Key(p, name, material, map[])
    ensures Step(m, n, CreateKeyFailed(p, name, code)) == Some(m)
  {
    var m' := Step(m, n, CreateKey(n + 1, p, name, material)).value;
    assert forall x | x in base :: x in m.live;
    assert m'.live == base[p := Provider][n + 1 := m'.live[n + 1]];
  }

  lemma PropertyStep(m: Monitor, n: nat, base: map<Handle, Object>, p: Handle, k: Handle, property: Property,
                     v: Value, code: Code)
    requires KeyOpen(m, base, p, k)
    ensures Step(m, n, SetProperty(k, property, v, code)).Some?
    ensures var m' := Step(m, n, SetProperty(k, property, v, code)).value;
      && KeyOpen(m', base, p, k) && m'.missing == m.missing
      && m'.live[k] == m.live[k].(props := if code == 0 then m.live[k].props[property := v] else m.live[k].props)
  {
    var m' := Step(m, n, SetProperty(k, property, v, code)).value;
    assert m'.live == base[p := Provider][k := m'.live[k]];
  }

  lemma KeyUseStep(m: Monitor, n: nat, base: map<Handle, Object>, p: Handle, k: Handle, prompt: Prompt, code: Code)
    requires KeyOpen(m, base, p, k)
    ensures Step(m, n, Finalize(k, code)) == Some(m)
    ensures Step(m, n, Encrypt(k, code)) == Some(m)
    ensures Gated(m.live[k].props) && m.live[k].props[UseContext] == Str(prompt.shown) ==>
              Step(m, n, Decrypt(k, prompt, code)) == Some(m)
  {
  }

  lemma FreeKeyStep(m: Monitor, n: nat, base: map<Handle, Object>, p: Handle, k: Handle, code: Code)
    requires KeyOpen(m, base, p, k)
    ensures Step(m, n, Free(k, code)).Some?
    ensures ProviderOpen(Step(m, n, Free(k, code)).value, base, p)
    ensures Step(m, n, Free(k, code)).value.missing == m.missing
  {
    assert m.live - {k} == base[p := Provider];
  }

  lemma FreeProviderStep(m: Monitor, n: nat, base: map<Handle, Object>, p: Handle, code: Code)
    requires ProviderOpen(m, base, p)
    ensures Step(m, n, Free(p, code)).Some?
    ensures Step(m, n, Free(p, code)).value == Monitor(base, m.missing)
  {
    assert m.live - {p} == base;
  }

  // ---- what acceptance means, in terms of the calls alone ----

  predicate Acquires(e: Event) { e.OpenProvider? || e.OpenKey? || e.CreateKey? }

  /** The call passes handle h to the provider, to free it or for anything else. */
  predicate Uses(e: Event, h: Handle) {
    match e
    case OpenProvider(_) => false
    case OpenProviderFailed(_) => false
    case OpenKey(_, p, _, _) => p == h
    case OpenKeyFailed(p, _, _) => p == h
    case CreateKey(_, p, _, _) => p == h
    case CreateKeyFailed(p, _, _) => p == h
    case SetProperty(k, _, _, _) => k == h
    case Finalize(k, _) => k == h
    case Encrypt(k, _) => k == h
    case Decrypt(k, _, _) => k == h
    case Free(k, _) => k == h
  }

  predicate AcquiredBy(t: seq<Event>, h: Handle, i: nat) {
    i < |t| && Acquires(t[i]) && t[i].h == h
  }

  predicate FreedBy(t: seq<Event>, h: Handle, i: nat) {
    i < |t| && t[i].Free? && t[i].h == h
  }

  lemma {:induction false} AcceptedPrefix(t: seq<Event>, i: nat)
    requires Accepted(t) && i <= |t|
    ensures Accepted(t[..i])
    ensures i < |t| ==> Step(Replay(t[..i]).value, i, t[i]) == Replay(t[..i + 1]) && Replay(t[..i + 1]).Some?
    decreases |t|
  {
    if i < |t| {
      var init := t[..|t| - 1];
      AcceptedPrefix(init, if i < |init| then i else |init|);
      assert init[..i] == t[..i];
      if i + 1 <= |init| {
        assert init[..i + 1] == t[..i + 1];
        if i < |init| { assert init[i] == t[i]; }
      } else {
        assert t[..i + 1] == t && init == t[..i];
      }
    } else {
      assert t[..i] == t;
    }
  }

  /** In an accepted run the live handles are exactly those acquired and not yet freed. */
  lemma {:induction false} LiveMeansAcquiredAndNotFreed(t: seq<Event>, h: Handle)
    requires Accepted(t)
    ensures h in Replay(t).value.live
       <==> (exists i: nat :: AcquiredBy(t, h, i)) && !(exists j: nat :: FreedBy(t, h, j))
    ensures forall i: nat | AcquiredBy(t, h, i) :: h == i + 1
    ensures forall j: nat | FreedBy(t, h, j) :: h <= j
  {
    if t != [] {
      var n := |t| - 1;
      var init := t[..n];
      AcceptedPrefix(t, n);
      LiveMeansAcquiredAndNotFreed(init, h);
      assert t[..n + 1] == t;
      ReplayIsWellFormed(init);
      assert forall i: nat | i < n :: init[i] == t[i];
      assert forall i: nat | i < n :: AcquiredBy(init, h, i) == AcquiredBy(t, h, i);
      assert forall i: nat | i < n :: FreedBy(init, h, i) == FreedBy(t, h, i);
      if i: nat :| AcquiredBy(init, h, i) { assert AcquiredBy(t, h, i); }
      if j: nat :| FreedBy(init, h, j) { assert FreedBy(t, h, j); }
      if Acquires(t[n]) && t[n].h == h { assert AcquiredBy(t, h, n); }
      if t[n].Free? && t[n].h == h { assert FreedBy(t, h, n); }
    }
  }

  lemma UsedWhileLive(t: seq<Event>, h: Handle, k: nat)
    requires Accepted(t) && k < |t| && Uses(t[k], h)
    ensures Accepted(t[..k]) && h in Replay(t[..k]).value.live
  {
    AcceptedPrefix(t, k);
  }

  /** Every use of a handle lies after its acquisition and before its release: no handle is
      used before it was acquired, after it was freed, or freed twice. */
  lemma UsesLieBetweenAcquisitionAndRelease(t: seq<Event>, h: Handle, k: nat, j: nat)
    requires Accepted(t) && k < |t| && Uses(t[k], h)
    ensures exists i: nat :: i < k && AcquiredBy(t, h, i)
    ensures FreedBy(t, h, j) ==> k <= j
  {
    UsedWhileLive(t, h, k);
    AcceptedPrefix(t, k);
    LiveMeansAcquiredAndNotFreed(t[..k], h);
    var i: nat :| AcquiredBy(t[..k], h, i);
    assert AcquiredBy(t, h, i);
    assert j < k ==> t[..k][j] == t[j];
    assert !FreedBy(t[..k], h, j);
  }

  /** A run that ends with nothing live freed each handle it acquired exactly once. */
  lemma EveryHandleFreedExactlyOnce(t: seq<Event>, h: Handle, i: nat)
    requires Accepted(t) && Replay(t).value.live == map[] && AcquiredBy(t, h, i)
    ensures exists j: nat :: i < j && FreedBy(t, h, j)
    ensures forall j: nat, k: nat | FreedBy(t, h, j) && FreedBy(t, h, k) :: j == k
  {
    LiveMeansAcquiredAndNotFreed(t, h);
    var j: nat :| FreedBy(t, h, j);
    assert i < j && FreedBy(t, h, j);
    forall j: nat, k: nat | FreedBy(t, h, j) && FreedBy(t, h, k) ensures j == k {
      UsesLieBetweenAcquisitionAndRelease(t, h, j, k);
      UsesLieBetweenAcquisitionAndRelease(t, h, k, j);
    }
  }

  /** When a provider is freed, every key opened or created under it was freed before. */
  lemma KeysFreedBeforeTheirProvider(t: seq<Event>, i: nat, j: nat)
    requires Accepted(t) && i < |t| && (t[i].OpenKey? || t[i].CreateKey?)
    requires FreedBy(t, t[i].provider, j)
    ensures exists k: nat :: k < j && FreedBy(t, t[i].h, k)
  {
    var h, p := t[i].h, t[i].provider;
    UsesLieBetweenAcquisitionAndRelease(t, p, i, j);
    AcceptedPrefix(t, j);
    AcceptedPrefix(t, i);
    assert AcquiredBy(t[..j], h, i);
    LiveMeansAcquiredAndNotFreed(t[..j], h);
    if h in Replay(t[..j]).value.live {
      KeyRemembersProvider(t[..j], h, i);
    }
    var k: nat :| FreedBy(t[..j], h, k);
    assert FreedBy(t, h, k);
  }

  lemma {:induction false} KeyRemembersProvider(t: seq<Event>, h: Handle, i: nat)
    requires Accepted(t) && AcquiredBy(t, h, i) && !t[i].OpenProvider? && h in Replay(t).value.live
    ensures Replay(t).value.live[h].Key?
    ensures Replay(t).value.live[h].provider == t[i].provider && Replay(t).value.live[h].name == t[i].name
  {
    var n := |t| - 1;
    AcceptedPrefix(t, n);
    assert t[..n + 1] == t;
    LiveMeansAcquiredAndNotFreed(t, h);
    if i < n {
      KeyRemembersProvider(t[..n], h, i);
    }
  }

  predicate Probes(e: Event) { e.OpenKey? || e.OpenKeyFailed? }
  predicate Creates(e: Event) { e.CreateKey? || e.CreateKeyFailed? }

  ghost predicate NoProbe(t: seq<Event>, from: nat) {
    forall i | from <= i < |t| :: !Probes(t[i])
  }

  ghost predicate NoCreation(t: seq<Event>, from: nat) {
    forall i | from <= i < |t| :: !Creates(t[i])
  }

  /** The record ends with a probed key, its release without an error, and one more call. */
  ghost predicate EndsProbed(t: seq<Event>) {
    |t| >= 3 && t[|t| - 3].OpenKey? && t[|t| - 2] == Free(t[|t| - 3].h, 0)
  }

  /** The last call released a handle without an error. */
  ghost predicate EndsReleased(t: seq<Event>) {
    t != [] && t[|t| - 1].Free? && t[|t| - 1].code == 0
  }

  // ---- the gesture ----

  predicate Sets(e: Event, h: Handle, p: Property) {
    e.SetProperty? && e.h == h && e.property == p && e.code == 0
  }

  /** At call k the property has value v: call j set it, and no call in between succeeded in
      setting it again. */
  ghost predicate InForce(t: seq<Event>, h: Handle, p: Property, v: Value, j: nat, k: nat) {
    j < k <= |t| && t[j] == SetProperty(h, p, v, 0) && forall m | j < m < k :: !Sets(t[m], h, p)
  }

  lemma {:induction false} PropertyInForce(t: seq<Event>, h: Handle, p: Property)
    requires Accepted(t) && IsKey(Replay(t).value, h) && p in Replay(t).value.live[h].props
    ensures exists j: nat :: InForce(t, h, p, Replay(t).value.live[h].props[p], j, |t|)
  {
    var n := |t| - 1;
    AcceptedPrefix(t, n);
    assert t[..n + 1] == t;
    var v := Replay(t).value.live[h].props[p];
    if Sets(t[n], h, p) {
      assert InForce(t, h, p, v, n, |t|);
    } else {
      PropertyInForce(t[..n], h, p);
      var j: nat :| InForce(t[..n], h, p, v, j, n);
      assert InForce(t, h, p, v, j, |t|);
    }
  }

  /** The handle of decrypt k was acquired by call i; after that, calls c and g set the use
      context that it shows and gesture-required = 1, and both settings still hold. */
  ghost predicate GatedBy(t: seq<Event>, k: nat, i: nat, c: nat, g: nat)
    requires k < |t| && t[k].Decrypt?
  {
    && AcquiredBy(t, t[k].h, i) && i < c && i < g
    && t[k].prompt.shown != [] && InForce(t, t[k].h, UseContext, Str(t[k].prompt.shown), c, k)
    && InForce(t, t[k].h, GestureRequired, UInt(1), g, k)
  }

  /** Every private-key decrypt of an accepted run is gated in that way, and its handle is not
      freed before. */
  lemma DecryptsAreGated(t: seq<Event>, k: nat)
    requires Accepted(t) && k < |t| && t[k].Decrypt?
    ensures exists i: nat, c: nat, g: nat :: GatedBy(t, k, i, c, g)
    ensures forall j: nat | FreedBy(t, t[k].h, j) :: k < j
  {
    var h, front := t[k].h, t[..k];
    AcceptedPrefix(t, k);
    PropertyInForce(front, h, UseContext);
    PropertyInForce(front, h, GestureRequired);
    var c: nat :| InForce(front, h, UseContext, Str(t[k].prompt.shown), c, k);
    var g: nat :| InForce(front, h, GestureRequired, UInt(1), g, k);
    UsesLieBetweenAcquisitionAndRelease(t, h, c, 0);
    UsesLieBetweenAcquisitionAndRelease(t, h, g, 0);
    var i: nat :| i < c && AcquiredBy(t, h, i);
    LiveMeansAcquiredAndNotFreed(t, h);
    assert GatedBy(t, k, i, c, g);
    forall j: nat | FreedBy(t, h, j) ensures k < j {
      UsesLieBetweenAcquisitionAndRelease(t, h, k, j);
    }
  }

  // ---- creation ----

  /** The call shows that the name is taken, or at least leaves it open. */
  predicate Unsettles(e: Event, name: bytes) {
    match e
    case OpenKey(_, _, n, _) => n == name
    case CreateKey(_, _, n, _) => n == name
    case OpenKeyFailed(_, n, code) => n == name && code != 0x80090016 && code != 0x8009000d && code != 0x80090011
    case _ => false
  }

  /** Call j probed the name with one of the three not-found codes, and no call since then up to k
      found it, created it, or probed it with another code. */
  ghost predicate MissingSince(t: seq<Event>, name: bytes, j: nat, k: nat) {
    && j < k <= |t| && t[j].OpenKeyFailed? && t[j].name == name
    && (t[j].code == 0x80090016 || t[j].code == 0x8009000d || t[j].code == 0x80090011)
    && forall m | j < m < k :: !Unsettles(t[m], name)
  }

  lemma {:induction false} MissingWasProbed(t: seq<Event>, name: bytes)
    requires Accepted(t) && name in Replay(t).value.missing
    ensures exists j: nat :: MissingSince(t, name, j, |t|)
  {
    var n := |t| - 1;
    AcceptedPrefix(t, n);
    assert t[..n + 1] == t;
    if t[n].OpenKeyFailed? && t[n].name == name {
      assert MissingSince(t, name, n, |t|);
    } else {
      MissingWasProbed(t[..n], name);
      var j: nat :| MissingSince(t[..n], name, j, n);
      assert MissingSince(t, name, j, |t|);
    }
  }

  /** A key is created, or its creation attempted, only while the name is missing in that sense. */
  lemma CreationFollowsProbe(t: seq<Event>, k: nat)
    requires Accepted(t) && k < |t| && (t[k].CreateKey? || t[k].CreateKeyFailed?)
    ensures exists j: nat :: MissingSince(t, t[k].name, j, k)
  {
    AcceptedPrefix(t, k);
    MissingWasProbed(t[..k], t[k].name);
    var j: nat :| MissingSince(t[..k], t[k].name, j, k);
    assert MissingSince(t, t[k].name, j, k);
  }
}
