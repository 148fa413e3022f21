/** Whole runs of one backend, and two backends side by side: the backend refines a map, also
    when its Passport key is lost on the way. */
module BackendRuns {
  import opened Bytes
  import opened Errors
  import opened Json
  import opened Naming
  import Envelopes
  import opened Library
  import Trace
  import opened NCrypt
  import opened Passport
  import opened Sealing
  import opened Runs
  import opened Backend

  /** The abstract keyring: the items that can be read, all names that are listed, whether the
      Passport key exists, and whether a wrapper is cached. */
  datatype Ring = Ring(items: map<bytes, bytes>, names: set<bytes>, keyed: bool, cached: bool)

  /** What can happen: an operation, or the loss of the Passport key. */
  datatype Action = Call(op: Op<Entry>) | LoseKey

  type Result = Outcome<bytes>

  /** What can be read is listed, and nothing can be read without the key. */
  ghost predicate Sound(s: Ring) {
    s.items.Keys <= s.names && (!s.keyed ==> s.items == map[])
  }

  /** A Set reads like one on a map: no other item changes. */
  ghost predicate QuietSet(s: Ring, e: Entry, out: Result, s': Ring) {
    s'.items == if out.Done? then s.items[e.key := e.data] else s.items
  }

  /** A Set stores its entry, or fails and changes no credential.  It may create the key, and only
      then can anything be readable that was not; it cannot succeed through a stale wrapper. */
  ghost predicate SetStep(s: Ring, e: Entry, out: Result, s': Ring) {
    && (out.Done? || out.Failed?) && Sound(s')
    && s'.names == (if out.Done? then s.names + {e.key} else s.names)
    && (s.keyed ==> s'.keyed) && (s.cached ==> s'.cached && s'.keyed == s.keyed)
    && (s'.cached && !s.cached ==> s'.keyed)
    && (out.Done? ==> s'.cached && s'.keyed && e.key in s'.items && s'.items[e.key] == e.data)
    && (s'.keyed == s.keyed ==> QuietSet(s, e, out, s'))
  }

  /** One action on the abstract keyring: an operation acts as on a map, or fails and changes no
      item; losing the key leaves the names. */
  ghost predicate Step(s: Ring, a: Action, out: Result, s': Ring) {
    match a
    case LoseKey => out.Done? && s' == s.(items := map[], keyed := false)
    case Call(SetOp(e)) => SetStep(s, e, out, s')
    case Call(GetOp(k)) =>
      && s' == s.(cached := s'.cached) && (s.cached ==> s'.cached) && (s'.cached && !s.cached ==> s.keyed)
      && (out.Failed? || (k in s.items && out == Data(s.items[k])))
    case Call(RemoveOp(k)) =>
      if out.Done? then k in s.names && s' == s.(items := s.items - {k}, names := s.names - {k})
      else out.Failed? && s' == s
    case Call(KeysOp) =>
      && s' == s
      && (out.Failed? || (out.Names? && StrictlySorted(out.names) && forall k :: k in out.names <==> k in s.names))
  }

  /** Nothing was readable after the action that was neither readable before nor just set. */
  ghost predicate Quiet(s: Ring, a: Action, out: Result, s': Ring) {
    match a
    case Call(SetOp(e)) => QuietSet(s, e, out, s')
    case _ => true
  }

  /** Exactly when an action fails that meets no fault: a Get of a key that cannot be read, a
      Remove of a name that is not there, and a Set through a wrapper whose key is gone. */
  ghost predicate FaultFree(s: Ring, a: Action, out: Result) {
    match a
    case LoseKey => !out.Failed?
    case Call(SetOp(_)) => out.Failed? <==> s.cached && !s.keyed
    case Call(GetOp(k)) => out.Failed? <==> k !in s.items
    case Call(RemoveOp(k)) => out.Failed? <==> k !in s.names
    case Call(KeysOp) => !out.Failed?
  }

  // ---- the abstract keyring of a state ----

  function StoredNames(blobs: map<bytes, bytes>, service: bytes): set<bytes> {
    set n | n in blobs && HasPrefix(n, NamePrefix(service)) :: TrimPrefix(n, NamePrefix(service))
  }

  lemma StoredNamesMember(blobs: map<bytes, bytes>, service: bytes, k: bytes)
    ensures k in StoredNames(blobs, service) <==> CredentialName(service, k) in blobs
  {
    var p := NamePrefix(service);
    PrefixOfConcat(p, k);
    assert CredentialName(service, k) == p + k;
    if k in StoredNames(blobs, service) {
      var n :| n in blobs && HasPrefix(n, p) && TrimPrefix(n, p) == k;
      PrefixSplit(n, p);
    }
  }

  ghost function ItemsOf(c: Scope, persisted: map<bytes, Persisted>, blobs: map<bytes, bytes>): map<bytes, bytes> {
    map k | k in StoredNames(blobs, c.service) && ViewOf(c, persisted, blobs, k).Some? ::
      ViewOf(c, persisted, blobs, k).value
  }

  lemma ItemsMember(c: Scope, persisted: map<bytes, Persisted>, blobs: map<bytes, bytes>, k: bytes)
    ensures k in ItemsOf(c, persisted, blobs) <==> ViewOf(c, persisted, blobs, k).Some?
    ensures k in ItemsOf(c, persisted, blobs) ==>
              && k in StoredNames(blobs, c.service)
              && ViewOf(c, persisted, blobs, k) == Some(ItemsOf(c, persisted, blobs)[k])
  {
    hide Opened, CredentialName;
    StoredNamesMember(blobs, c.service, k);
  }

  /** Two states that show the same under every key hold the same items. */
  lemma ItemsFromViews(c: Scope, persisted: map<bytes, Persisted>, blobs: map<bytes, bytes>, items: map<bytes, bytes>)
    requires forall k: bytes ::
      ViewOf(c, persisted, blobs, k) == if k in items then Some(items[k]) else None
    ensures ItemsOf(c, persisted, blobs) == items
  {
    hide ViewOf, ItemsOf;
    var all := ItemsOf(c, persisted, blobs);
    forall k: bytes ensures (k in all <==> k in items) && (k in all ==> all[k] == items[k]) {
      ItemsMember(c, persisted, blobs, k);
    }
  }

  /** Other keys of the service keep their view when one credential changes. */
  lemma OtherKeysUntouched(c: Scope, persisted: map<bytes, Persisted>, before: map<bytes, bytes>,
                           after: map<bytes, bytes>, k: bytes, j: bytes)
    requires k != j && after - {CredentialName(c.service, k)} == before - {CredentialName(c.service, k)}
    ensures ViewOf(c, persisted, after, j) == ViewOf(c, persisted, before, j)
    ensures j in StoredNames(after, c.service) <==> j in StoredNames(before, c.service)
  {
    hide Opened;
    var n := CredentialName(c.service, k);
    if n == CredentialName(c.service, j) {
      CancelPrefix(NamePrefix(c.service), k, j);
    }
    assert forall m | m != n :: m in after <==> m in after - {n};
    assert forall m | m != n :: m in before <==> m in before - {n};
    assert forall m | m != n && m in after :: after[m] == (after - {n})[m] == (before - {n})[m] == before[m];
    StoredNamesMember(before, c.service, j);
    StoredNamesMember(after, c.service, j);
  }

  lemma AfterWrite(c: Scope, persisted: map<bytes, Persisted>, before: map<bytes, bytes>, after: map<bytes, bytes>,
                   k: bytes, d: bytes)
    requires CredentialName(c.service, k) in after
    requires after == before[CredentialName(c.service, k) := after[CredentialName(c.service, k)]]
    requires ViewOf(c, persisted, after, k) == Some(d)
    ensures ItemsOf(c, persisted, after) == ItemsOf(c, persisted, before)[k := d]
    ensures StoredNames(after, c.service) == StoredNames(before, c.service) + {k}
  {
    hide ViewOf, ItemsOf, CredentialName, StoredNames;
    assert after - {CredentialName(c.service, k)} == before - {CredentialName(c.service, k)};
    StoredNamesMember(after, c.service, k);
    forall j: bytes
      ensures j != k ==> ViewOf(c, persisted, after, j) == ViewOf(c, persisted, before, j)
      ensures j != k ==> (j in StoredNames(after, c.service) <==> j in StoredNames(before, c.service))
      ensures j in ItemsOf(c, persisted, before) <==> ViewOf(c, persisted, before, j).Some?
      ensures j in ItemsOf(c, persisted, before) ==>
                ViewOf(c, persisted, before, j) == Some(ItemsOf(c, persisted, before)[j])
    {
      if j != k { OtherKeysUntouched(c, persisted, before, after, k, j); }
      ItemsMember(c, persisted, before, j);
    }
    ItemsFromViews(c, persisted, after, ItemsOf(c, persisted, before)[k := d]);
  }

  lemma AfterRemove(c: Scope, persisted: map<bytes, Persisted>, before: map<bytes, bytes>, after: map<bytes, bytes>,
                    k: bytes)
    requires after == before - {CredentialName(c.service, k)}
    ensures ItemsOf(c, persisted, after) == ItemsOf(c, persisted, before) - {k}
    ensures StoredNames(after, c.service) == StoredNames(before, c.service) - {k}
  {
    hide Opened, ItemsOf, CredentialName, StoredNames;
    StoredNamesMember(after, c.service, k);
    forall j: bytes
      ensures j != k ==> ViewOf(c, persisted, after, j) == ViewOf(c, persisted, before, j)
      ensures j != k ==> (j in StoredNames(after, c.service) <==> j in StoredNames(before, c.service))
      ensures j in ItemsOf(c, persisted, before) <==> ViewOf(c, persisted, before, j).Some?
      ensures j in ItemsOf(c, persisted, before) ==>
                ViewOf(c, persisted, before, j) == Some(ItemsOf(c, persisted, before)[j])
    {
      if j != k { OtherKeysUntouched(c, persisted, before, after, k, j); }
      ItemsMember(c, persisted, before, j);
    }
    ItemsFromViews(c, persisted, after, ItemsOf(c, persisted, before) - {k});
  }

  lemma NothingWithoutKey(c: Scope, persisted: map<bytes, Persisted>, blobs: map<bytes, bytes>)
    requires c.keyName !in persisted
    ensures ItemsOf(c, persisted, blobs) == map[]
  {
  }

  /** Creating the Passport key changes no item, if the new key pair opens none of what was stored
      under a lost one. */
  lemma ItemsAfterCreation(c: Scope, keygen: nat -> Material, lo: nat, hi: nat, before: map<bytes, Persisted>,
                           after: map<bytes, Persisted>, blobs: map<bytes, bytes>)
    requires CreatedAtMost(before, after, c.keyName)
    requires after != before ==>
               Generated(after[c.keyName].material, keygen, lo, hi) && Unopenable(c, keygen, lo, blobs)
    ensures ItemsOf(c, after, blobs) == ItemsOf(c, before, blobs)
  {
    hide Opened, CredentialName, ItemsOf, StoredNames, CreationShape;
    if after != before {
      NothingWithoutKey(c, before, blobs);
      ItemsFromViews(c, after, blobs, map[]);
    }
  }

  ghost function RingAt(c: Scope, persisted: map<bytes, Persisted>, blobs: map<bytes, bytes>, cached: bool): Ring {
    Ring(ItemsOf(c, persisted, blobs), StoredNames(blobs, c.service), c.keyName in persisted, cached)
  }

  ghost function Abs(b: Backend): Ring
    reads b, b.nc, b.dir
  {
    RingAt(b.Here(), b.nc.persisted, b.dir.blobs, b.wrapper.Some?)
  }

  lemma RingIsSound(c: Scope, persisted: map<bytes, Persisted>, blobs: map<bytes, bytes>, cached: bool)
    ensures Sound(RingAt(c, persisted, blobs, cached))
  {
    hide ViewOf, StoredNames, ItemsOf;
    if c.keyName !in persisted { NothingWithoutKey(c, persisted, blobs); }
    forall k | k in ItemsOf(c, persisted, blobs) ensures k in StoredNames(blobs, c.service) {
      ItemsMember(c, persisted, blobs, k);
    }
  }

  // ---- lost keys ----

  /** No text opens under two key pairs. */
  lemma OpenedBinds(c: Scope, m: Material, n: Material, key: bytes, text: bytes)
    requires KeysBind(c.lib) && Opened(c, m, key, text).Some? && Opened(c, n, key, text).Some?
    ensures m == n
  {
    hide Aad;
    var wrapped := Envelopes.Parse(c.lib.unmarshal, text).value.wrappedCek;
    assert c.lib.unwrap(m, wrapped).Some? && c.lib.unwrap(n, wrapped).Some?;
  }

  ghost predicate Injective(keygen: nat -> Material) {
    forall m: nat, n: nat | m != n :: keygen(m) != keygen(n)
  }

  /** No key pair that call number `from` or a later one generates is the present one, or opens
      anything that is stored. */
  ghost predicate GuardedAt(c: Scope, keygen: nat -> Material, from: nat, persisted: map<bytes, Persisted>,
                            blobs: map<bytes, bytes>) {
    && KeysBind(c.lib) && Injective(keygen) && Unopenable(c, keygen, from, blobs)
    && (c.keyName in persisted ==> Unused(persisted[c.keyName].material, keygen, from))
  }

  ghost predicate Unused(m: Material, keygen: nat -> Material, from: nat) {
    forall n: nat | n >= from :: m != keygen(n)
  }

  ghost predicate Guarded(b: Backend)
    reads b.nc, b.dir
  {
    GuardedAt(b.Here(), b.nc.keygen, |b.nc.trace|, b.nc.persisted, b.dir.blobs)
  }

  /** A text that opens under the present key keeps the directory unopenable for later ones. */
  lemma WriteStaysUnopenable(c: Scope, keygen: nat -> Material, from: nat, before: map<bytes, bytes>,
                             after: map<bytes, bytes>, m: Material, k: bytes)
    requires KeysBind(c.lib) && Unopenable(c, keygen, from, before) && CredentialName(c.service, k) in after
    requires after == before[CredentialName(c.service, k) := after[CredentialName(c.service, k)]]
    requires Opened(c, m, k, after[CredentialName(c.service, k)]).Some? && Unused(m, keygen, from)
    ensures Unopenable(c, keygen, from, after)
  {
    hide Opened, CredentialName;
    forall j: bytes, n: nat | from <= n && CredentialName(c.service, j) in after
      ensures Opened(c, keygen(n), j, after[CredentialName(c.service, j)]) == None
    {
      if CredentialName(c.service, j) == CredentialName(c.service, k) {
        NameDeterminesKey(c.service, j, k);
        if Opened(c, keygen(n), k, after[CredentialName(c.service, k)]).Some? {
          OpenedBinds(c, m, keygen(n), k, after[CredentialName(c.service, k)]);
        }
      }
    }
  }

  lemma NameDeterminesKey(service: bytes, j: bytes, k: bytes)
    requires CredentialName(service, j) == CredentialName(service, k)
    ensures j == k
  {
    CancelPrefix(NamePrefix(service), j, k);
  }

  // ---- single actions ----

  /** Only credentials under the service's own prefix differ. */
  ghost predicate OutsideUntouched(before: map<bytes, bytes>, after: map<bytes, bytes>, service: bytes) {
    forall n: bytes | !HasPrefix(n, NamePrefix(service)) ::
      (n in after <==> n in before) && (n in before ==> after[n] == before[n])
  }

  /** Of the persisted keys only this one differs, and if it is there it is the old one or has the
      creation shape. */
  ghost predicate OnlyKeyTouched(before: map<bytes, Persisted>, after: map<bytes, Persisted>, name: bytes) {
    && after - {name} == before - {name}
    && (name in after ==> (name in before && after[name] == before[name]) || CreationShape(after[name].props))
  }

  twostate predicate Faulted(b: Backend)
    reads b.nc, b.dir, b.rng
  {
    b.nc.faults > old(b.nc.faults) || b.dir.faults > old(b.dir.faults) || b.rng.faults > old(b.rng.faults)
  }

  /** Interactive prompts that name a key of the service. */
  ghost function PromptsOf(service: bytes): iset<Trace.Prompt> {
    iset k: bytes :: Trace.Prompt(PAD_PKCS1, PromptText(service, k))
  }

  /** What an action, and so any run, leaves as it was. */
  twostate predicate Contained(b: Backend)
    reads b, b.nc, b.dir, b.rng
  {
    && b.Valid() && (old(b.wrapper).Some? ==> b.wrapper == old(b.wrapper)) && b.nc.SettledWith(PromptsOf(b.serviceName))
    && OnlyKeyTouched(old(b.nc.persisted), b.nc.persisted, b.keyName)
    && OutsideUntouched(old(b.dir.blobs), b.dir.blobs, b.serviceName)
    && b.dir.faults >= old(b.dir.faults) && b.rng.faults >= old(b.rng.faults)
  }

  /** What Backend.Set guarantees, on values. */
  ghost predicate SetEffect(c: Scope, before: map<bytes, Persisted>, after: map<bytes, Persisted>,
                            blobs: map<bytes, bytes>, blobs': map<bytes, bytes>, e: Entry,
                            out: Result, cached: bool, cached': bool) {
    var n := CredentialName(c.service, e.key);
    && (out.Done? || out.Failed?) && CreatedAtMost(before, after, c.keyName)
    && (cached ==> cached' && after == before) && (cached' && !cached ==> c.keyName in after)
    && (out.Failed? ==> blobs' == blobs)
    && (out.Done? ==> && cached' && c.keyName in after && ViewOf(c, after, blobs', e.key) == Some(e.data)
                      && n in blobs' && blobs' == blobs[n := blobs'[n]])
  }

  lemma SetEffectSteps(c: Scope, before: map<bytes, Persisted>, after: map<bytes, Persisted>, blobs: map<bytes, bytes>,
                       blobs': map<bytes, bytes>, e: Entry, out: Result, cached: bool, cached': bool)
    requires SetEffect(c, before, after, blobs, blobs', e, out, cached, cached')
    ensures SetStep(RingAt(c, before, blobs, cached), e, out, RingAt(c, after, blobs', cached'))
  {
    hide ViewOf, ItemsOf, StoredNames, CreationShape, CredentialName;
    RingIsSound(c, after, blobs', cached');
    if out.Done? {
      AfterWrite(c, after, blobs, blobs', e.key, e.data);
    }
  }

  lemma SetEffectGuards(c: Scope, keygen: nat -> Material, lo: nat, hi: nat, before: map<bytes, Persisted>,
                        after: map<bytes, Persisted>, blobs: map<bytes, bytes>, blobs': map<bytes, bytes>, e: Entry,
                        out: Result, cached: bool, cached': bool)
    requires SetEffect(c, before, after, blobs, blobs', e, out, cached, cached') && lo <= hi
    requires after != before ==> Generated(after[c.keyName].material, keygen, lo, hi)
    requires GuardedAt(c, keygen, lo, before, blobs)
    ensures GuardedAt(c, keygen, hi, after, blobs')
    ensures QuietSet(RingAt(c, before, blobs, cached), e, out, RingAt(c, after, blobs', cached'))
  {
    hide Opened, ItemsOf, StoredNames, CreationShape, CredentialName, Unopenable, KeysBind;
    UnopenableLater(c, keygen, lo, hi, blobs);
    ItemsAfterCreation(c, keygen, lo, hi, before, after, blobs);
    if out.Done? {
      AfterWrite(c, after, blobs, blobs', e.key, e.data);
      WriteStaysUnopenable(c, keygen, hi, blobs, blobs', after[c.keyName].material, e.key);
    }
  }

  lemma UnopenableLater(c: Scope, keygen: nat -> Material, lo: nat, hi: nat, blobs: map<bytes, bytes>)
    requires Unopenable(c, keygen, lo, blobs) && lo <= hi
    ensures Unopenable(c, keygen, hi, blobs)
  {
  }

  lemma GuardedLater(c: Scope, keygen: nat -> Material, lo: nat, hi: nat, persisted: map<bytes, Persisted>,
                     blobs: map<bytes, bytes>)
    requires GuardedAt(c, keygen, lo, persisted, blobs) && lo <= hi
    ensures GuardedAt(c, keygen, hi, persisted, blobs)
  {
  }

  method ApplySet(b: Backend, e: Entry) returns (out: Result)
    requires b.Valid()
    modifies b, b.nc, b.dir, b.rng
    ensures Contained(b) && Ensured(b.nc, b.keyName)
    ensures SetStep(old(Abs(b)), e, out, Abs(b))
    ensures Faulted(b) || (out.Failed? <==> old(b.Stale()))
    ensures old(Guarded(b)) ==> Guarded(b) && QuietSet(old(Abs(b)), e, out, Abs(b))
  {
    hide Trace.Step, Trace.Replay, Lawful, ValidUtf8, ViewOf, RingAt, GuardedAt, CreationShape, CredentialName,
      SetStep, QuietSet;
    ghost var blobs, persisted, lo, cached := b.dir.blobs, b.nc.persisted, |b.nc.trace|, b.wrapper.Some?;
    var data := new byte[|e.data|](i requires 0 <= i < |e.data| => e.data[i]);
    assert data[..] == e.data;
    var r := b.Set(e.key, data);
    out := if r.Ok? then Done else Failed;
    SetEffectSteps(b.Here(), persisted, b.nc.persisted, blobs, b.dir.blobs, e, out, cached, b.wrapper.Some?);
    if old(Guarded(b)) {
      SetEffectGuards(b.Here(), b.nc.keygen, lo, |b.nc.trace|, persisted, b.nc.persisted, blobs, b.dir.blobs, e, out,
                      cached, b.wrapper.Some?);
    }
    NameIsInside(b.serviceName, e.key);
  }

  lemma NameIsInside(service: bytes, k: bytes)
    ensures HasPrefix(CredentialName(service, k), NamePrefix(service))
  {
    PrefixOfConcat(NamePrefix(service), k);
  }

  method ApplyRemove(b: Backend, k: bytes) returns (out: Result)
    requires b.Valid()
    modifies b.dir
    ensures Contained(b) && b.nc.persisted == old(b.nc.persisted)
    ensures Step(old(Abs(b)), Call(RemoveOp(k)), out, Abs(b))
    ensures Faulted(b) || (out.Failed? <==> k !in old(Abs(b)).names)
    ensures old(Guarded(b)) ==> Guarded(b)
  {
    hide Trace.Step, Trace.Replay, Lawful, ValidUtf8, Opened, ItemsOf, StoredNames, CreationShape, CredentialName;
    ghost var blobs := b.dir.blobs;
    var r := b.Remove(k);
    out := if r.Ok? then Done else Failed;
    StoredNamesMember(blobs, b.serviceName, k);
    NameIsInside(b.serviceName, k);
    if r.Ok? { AfterRemove(b.Here(), b.nc.persisted, blobs, b.dir.blobs, k); }
  }

  method ApplyGet(b: Backend, k: bytes) returns (out: Result)
    requires b.Valid()
    modifies b, b.nc, b.dir
    ensures Contained(b) && b.nc.persisted == old(b.nc.persisted)
    ensures Step(old(Abs(b)), Call(GetOp(k)), out, Abs(b))
    ensures Faulted(b) || (out.Failed? <==> k !in old(Abs(b)).items)
    ensures old(Guarded(b)) ==> Guarded(b)
  {
    hide Trace.Step, Trace.Replay, Lawful, ValidUtf8, ViewOf, ItemsOf, StoredNames, CreationShape, CredentialName,
      GuardedAt, PromptText, Addressed, Aad;
    ghost var lo := |b.nc.trace|;
    var r := b.Get(k);
    out := if r.Ok? then Data(r.value) else Failed;
    ItemsMember(b.Here(), b.nc.persisted, b.dir.blobs, k);
    if old(Guarded(b)) { GuardedLater(b.Here(), b.nc.keygen, lo, |b.nc.trace|, b.nc.persisted, b.dir.blobs); }
  }

  method ApplyKeys(b: Backend) returns (out: Result)
    requires b.Valid()
    modifies b.dir
    ensures Contained(b) && b.nc.persisted == old(b.nc.persisted)
    ensures Step(old(Abs(b)), Call(KeysOp), out, Abs(b))
    ensures Faulted(b) || !out.Failed?
    ensures old(Guarded(b)) ==> Guarded(b)
  {
    hide Trace.Step, Trace.Replay, Lawful, ValidUtf8, ViewOf, ItemsOf, StoredNames, CreationShape, CredentialName,
      StrictlySorted;
    var r := b.Keys();
    out := if r.Ok? then Names(r.value) else Failed;
    forall k: bytes
      ensures k in StoredNames(b.dir.blobs, b.serviceName) <==> CredentialName(b.serviceName, k) in b.dir.blobs
    {
      StoredNamesMember(b.dir.blobs, b.serviceName, k);
    }
  }

  /** Somebody else deletes the Passport key. */
  method ApplyLoss(b: Backend) returns (out: Result)
    requires b.Valid()
    modifies b.nc
    ensures Contained(b) && Step(old(Abs(b)), LoseKey, out, Abs(b)) && out.Done? && !b.Keyed()
    ensures old(Guarded(b)) ==> Guarded(b)
  {
    hide Trace.Step, Trace.Replay, Lawful, ValidUtf8, ViewOf, ItemsOf, StoredNames, CreationShape, CredentialName;
    b.nc.LoseKey(b.keyName);
    NothingWithoutKey(b.Here(), b.nc.persisted, b.dir.blobs);
    out := Done;
  }

  /** One action. */
  method Apply(b: Backend, a: Action) returns (out: Result)
    requires b.Valid()
    modifies b, b.nc, b.dir, b.rng
    ensures Contained(b) && if a.Call? then Ensured(b.nc, b.keyName) else !b.Keyed()
    ensures Step(old(Abs(b)), a, out, Abs(b))
    ensures Faulted(b) || FaultFree(old(Abs(b)), a, out)
    ensures old(Guarded(b)) ==> Guarded(b) && Quiet(old(Abs(b)), a, out, Abs(b))
  {
    hide Trace.Step, Trace.Replay, Lawful, ValidUtf8, ItemsOf, StoredNames, CreationShape, SetStep, QuietSet, GuardedAt;
    match a {
      case LoseKey => out := ApplyLoss(b);
      case Call(SetOp(e)) => out := ApplySet(b, e);
      case Call(GetOp(k)) => out := ApplyGet(b, k);
      case Call(RemoveOp(k)) => out := ApplyRemove(b, k);
      case Call(KeysOp) => out := ApplyKeys(b);
    }
  }

  ghost predicate AllQuiet(states: seq<Ring>, acts: seq<Action>, outs: seq<Result>)
    requires |states| == |acts| + 1 && |outs| == |acts|
  {
    forall i | 0 <= i < |acts| :: Quiet(states[i], acts[i], outs[i], states[i + 1])
  }

  /** Every run of operations, whatever fails and whenever the key is lost, is a run of the map:
      this is the refinement. */
  method Run(b: Backend, acts: seq<Action>) returns (outs: seq<Result>, ghost states: seq<Ring>)
    requires b.Valid()
    modifies b, b.nc, b.dir, b.rng
    ensures Contained(b) && b.acquisitions <= 1
    ensures IsRun(Step, states, acts, outs) && states[0] == old(Abs(b)) && states[|acts|] == Abs(b)
    ensures Faulted(b) || forall i | 0 <= i < |acts| :: FaultFree(states[i], acts[i], outs[i])
    ensures old(Guarded(b)) || (old(Established(Abs(b))) && LoseKey !in acts) ==> AllQuiet(states, acts, outs)
    ensures LoseKey !in acts ==> Ensured(b.nc, b.keyName)
  {
    hide Trace.Step, Trace.Replay, Lawful, ValidUtf8, RingAt, GuardedAt, Established, Step, Quiet, FaultFree,
      CreationShape, HasPrefix, IsRun;
    outs, states := [], [Abs(b)];
    EmptyRun<Ring, Action, Result>(Step, Abs(b));
    var i := 0;
    while i < |acts|
      invariant 0 <= i <= |acts| && |states| == i + 1 && |outs| == i
      invariant Contained(b)
      invariant IsRun(Step, states, acts[..i], outs) && states[0] == old(Abs(b)) && states[i] == Abs(b)
      invariant Faulted(b) || forall j | 0 <= j < i :: FaultFree(states[j], acts[j], outs[j])
      invariant old(Guarded(b)) ==>
                Guarded(b) && forall j | 0 <= j < i :: Quiet(states[j], acts[j], outs[j], states[j + 1])
      invariant LoseKey !in acts[..i] ==> Ensured(b.nc, b.keyName)
    {
      var out := Apply(b, acts[i]);
      RunExtends(Step, states, acts[..i], outs, acts[i], out, Abs(b));
      assert acts[..i + 1] == acts[..i] + [acts[i]];
      outs, states := outs + [out], states + [Abs(b)];
      i := i + 1;
    }
    assert acts[..i] == acts;
    if old(Established(Abs(b))) && LoseKey !in acts { EstablishedRunIsQuiet(states, acts, outs, |acts|); }
  }

  // ---- what a run of the map means ----

  /** The action settles what can be read under the key. */
  predicate Settles(a: Action, out: Result, k: bytes) {
    match a
    case LoseKey => true
    case Call(SetOp(e)) => out.Done? && e.key == k
    case Call(RemoveOp(j)) => out.Done? && j == k
    case _ => false
  }

  ghost predicate UnsettledBetween(acts: seq<Action>, outs: seq<Result>, from: nat, to: nat, k: bytes)
    requires to <= |acts| == |outs|
  {
    forall m | from <= m < to :: !Settles(acts[m], outs[m], k)
  }

  ghost predicate LastSetAt(acts: seq<Action>, outs: seq<Result>, j: nat, to: nat, k: bytes, d: bytes)
    requires to <= |acts| == |outs|
  {
    j < to && acts[j] == Call(SetOp(Entry(k, d))) && outs[j].Done? && UnsettledBetween(acts, outs, j + 1, to, k)
  }

  /** The item was set last with this data, or was there at the start. */
  ghost predicate Sourced(states: seq<Ring>, acts: seq<Action>, outs: seq<Result>, i: nat, k: bytes, d: bytes)
    requires i <= |acts| == |outs| && |states| == |acts| + 1
  {
    || (exists j: nat :: LastSetAt(acts, outs, j, i, k, d))
    || (UnsettledBetween(acts, outs, 0, i, k) && k in states[0].items && states[0].items[k] == d)
  }

  lemma {:induction false} ItemIsSourced(states: seq<Ring>, acts: seq<Action>, outs: seq<Result>, i: nat, k: bytes)
    requires IsRun(Step, states, acts, outs) && AllQuiet(states, acts, outs)
    requires i <= |acts| && k in states[i].items
    ensures Sourced(states, acts, outs, i, k, states[i].items[k])
  {
    hide Sound, SetStep;
    if i > 0 {
      var d := states[i].items[k];
      assert Step(states[i - 1], acts[i - 1], outs[i - 1], states[i]);
      assert Quiet(states[i - 1], acts[i - 1], outs[i - 1], states[i]);
      if Settles(acts[i - 1], outs[i - 1], k) {
        assert LastSetAt(acts, outs, i - 1, i, k, d);
      } else {
        ItemIsSourced(states, acts, outs, i - 1, k);
        var n: nat := i - 1;
        if j: nat :| LastSetAt(acts, outs, j, n, k, d) {
          assert LastSetAt(acts, outs, j, i, k, d);
        }
      }
    }
  }

  /** A successful Get returns what the last successful Set of its key stored, with no successful
      Set or Remove of it and no loss of the key in between; or, before any, what was there at the
      start. */
  lemma GetReturnsLastSet(states: seq<Ring>, acts: seq<Action>, outs: seq<Result>, i: nat)
    requires IsRun(Step, states, acts, outs) && AllQuiet(states, acts, outs)
    requires i < |acts| && acts[i].Call? && acts[i].op.GetOp? && outs[i].Data?
    ensures Sourced(states, acts, outs, i, acts[i].op.key, outs[i].data)
  {
    assert Step(states[i], acts[i], outs[i], states[i + 1]);
    ItemIsSourced(states, acts, outs, i, acts[i].op.key);
  }

  /** The ring is sound, and without the key nothing is listed. */
  ghost predicate Established(s: Ring) {
    Sound(s) && (s.keyed || s.names == {})
  }

  /** A run in which the key is not lost, and that starts with the key or with nothing stored, is
      quiet: this takes no assumption on the libraries. */
  lemma {:induction false} EstablishedRunIsQuiet(states: seq<Ring>, acts: seq<Action>, outs: seq<Result>, i: nat)
    requires IsRun(Step, states, acts, outs) && Established(states[0]) && LoseKey !in acts && i <= |acts|
    ensures Established(states[i])
    ensures forall j | 0 <= j < i :: Quiet(states[j], acts[j], outs[j], states[j + 1])
  {
    if i > 0 {
      EstablishedRunIsQuiet(states, acts, outs, i - 1);
      assert acts[i - 1] in acts;
      assert Step(states[i - 1], acts[i - 1], outs[i - 1], states[i]);
      if acts[i - 1].op.SetOp? {
        EstablishedSetIsQuiet(states[i - 1], acts[i - 1].op.item, outs[i - 1], states[i]);
      }
    }
  }

  lemma EstablishedSetIsQuiet(s: Ring, e: Entry, out: Result, s': Ring)
    requires Established(s) && SetStep(s, e, out, s')
    ensures QuietSet(s, e, out, s') && Established(s')
  {
    if s'.keyed && !s.keyed {
      assert s'.items.Keys <= s'.names && s.items == map[];
    }
  }

  // ---- two services in one directory ----

  /** Neither service name with its colon begins the other. */
  predicate Apart(s: bytes, t: bytes) {
    !HasPrefix(s + Ascii(":"), t + Ascii(":")) && !HasPrefix(t + Ascii(":"), s + Ascii(":"))
  }

  lemma ApartPrefixes(s: bytes, t: bytes, k: bytes)
    requires Apart(s, t)
    ensures !HasPrefix(CredentialName(t, k), NamePrefix(s))
  {
    if HasPrefix(CredentialName(t, k), NamePrefix(s)) {
      var j := TrimPrefix(CredentialName(t, k), NamePrefix(s));
      PrefixSplit(CredentialName(t, k), NamePrefix(s));
      assert CredentialName(s, j) == CredentialName(t, k);
      ServicesDisjointExactly(s, t);
      assert false;
    }
  }

  /** The key has the same key pair, or is missing, in both. */
  predicate SameMaterial(before: map<bytes, Persisted>, after: map<bytes, Persisted>, name: bytes) {
    (name in after <==> name in before) && (name in before ==> after[name].material == before[name].material)
  }

  /** What happens under one service's prefix changes nothing for a service apart from it. */
  lemma ApartServicesUnaffected(c: Scope, persisted: map<bytes, Persisted>, persisted': map<bytes, Persisted>,
                                before: map<bytes, bytes>, after: map<bytes, bytes>, s: bytes)
    requires Apart(s, c.service) && OutsideUntouched(before, after, s)
    ensures StoredNames(after, c.service) == StoredNames(before, c.service)
    ensures SameMaterial(persisted, persisted', c.keyName) ==>
              ItemsOf(c, persisted', after) == ItemsOf(c, persisted, before)
  {
    hide ItemsOf, Opened, CredentialName, StoredNames;
    forall k: bytes
      ensures k in StoredNames(after, c.service) <==> k in StoredNames(before, c.service)
      ensures CredentialName(c.service, k) in after <==> CredentialName(c.service, k) in before
      ensures CredentialName(c.service, k) in before ==>
                after[CredentialName(c.service, k)] == before[CredentialName(c.service, k)]
    {
      ApartPrefixes(s, c.service, k);
      StoredNamesMember(before, c.service, k);
      StoredNamesMember(after, c.service, k);
    }
    if SameMaterial(persisted, persisted', c.keyName) {
      var items := ItemsOf(c, persisted, before);
      forall k: bytes ensures ViewOf(c, persisted', after, k) == if k in items then Some(items[k]) else None {
        ItemsMember(c, persisted, before, k);
      }
      ItemsFromViews(c, persisted', after, items);
    }
  }

  lemma ApartStaysUnopenable(c: Scope, keygen: nat -> Material, from: nat, before: map<bytes, bytes>,
                             after: map<bytes, bytes>, s: bytes)
    requires Apart(s, c.service) && OutsideUntouched(before, after, s) && Unopenable(c, keygen, from, before)
    ensures Unopenable(c, keygen, from, after)
  {
    hide Opened, CredentialName;
    forall k: bytes, n: nat | from <= n && CredentialName(c.service, k) in after
      ensures Opened(c, keygen(n), k, after[CredentialName(c.service, k)]) == None
    {
      ApartPrefixes(s, c.service, k);
    }
  }

  /** A whole run of one backend leaves every name of the other as it was, and every item too if
      the key was there and was not lost, or at most created and opens none of the stored texts. */
  method RunBeside(a: Backend, b: Backend, acts: seq<Action>) returns (outs: seq<Result>)
    requires a != b && a.nc == b.nc && a.dir == b.dir && a.rng == b.rng && a.keyName == b.keyName
    requires a.Valid() && b.Valid() && Apart(a.serviceName, b.serviceName)
    modifies a, a.nc, a.dir, a.rng
    ensures b.Valid() && Abs(b).names == old(Abs(b)).names
    ensures SameMaterial(old(b.nc.persisted), b.nc.persisted, b.keyName) ==> Abs(b) == old(Abs(b))
    ensures old(b.Keyed()) && LoseKey !in acts ==> Abs(b) == old(Abs(b))
    ensures old(Unopenable(b.Here(), b.nc.keygen, |b.nc.trace|, b.dir.blobs)) && LoseKey !in acts ==>
              Abs(b).items == old(Abs(b)).items
  {
    hide Trace.Step, Trace.Replay, Lawful, ItemsOf, StoredNames, CredentialName, IsRun, FaultFree, CreationShape,
      ValidUtf8;
    ghost var persisted, blobs, lo := a.nc.persisted, a.dir.blobs, |a.nc.trace|;
    ghost var states;
    outs, states := Run(a, acts);
    ApartServicesUnaffected(b.Here(), persisted, a.nc.persisted, blobs, a.dir.blobs, a.serviceName);
    ApartServicesUnaffected(b.Here(), persisted, persisted, blobs, a.dir.blobs, a.serviceName);
    if LoseKey !in acts && old(Unopenable(b.Here(), b.nc.keygen, |b.nc.trace|, b.dir.blobs)) {
      ApartStaysUnopenable(b.Here(), b.nc.keygen, lo, blobs, a.dir.blobs, a.serviceName);
      ItemsAfterCreation(b.Here(), b.nc.keygen, lo, |a.nc.trace|, persisted, a.nc.persisted, a.dir.blobs);
    }
  }

  /** Where two different pairs do share a credential name, what was sealed for the one is
      never returned for the other. */
  lemma SharedNameReadsNothing(nc: NCrypt, w: KeyWrapper, plaintext: bytes, s: bytes, k: bytes, keyName: bytes,
                               text: bytes, blobs: map<bytes, bytes>, t: bytes, j: bytes, otherName: bytes)
    requires Lawful(nc.lib) && Sealed(nc, w, plaintext, Aad(s, k), keyName, text)
    requires CredentialName(s, k) == CredentialName(t, j) && (s, k) != (t, j)
    requires CredentialName(s, k) in blobs && blobs[CredentialName(s, k)] == text
    ensures ViewOf(Scope(nc.lib, t, otherName), nc.persisted, blobs, j) == None
  {
    hide CredentialName, Aad, Units, Sealed, Lawful;
    AddressedExactly(nc, w, plaintext, s, k, keyName, text, t, j, otherName);
    AadEqualExactly(s, k, t, j);
    if Aad(s, k) == Aad(t, j) {
      SameNameAndAadIsSamePair(s, k, t, j);
    }
  }
}
