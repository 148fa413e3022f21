/** The Passport key of winhello/passport.go and winhello/wrap.go: opening, creating and using
    the persisted key through handles that live for one operation only. */
module Passport {
  import opened Bytes
  import opened Errors
  import opened Library
  import opened Trace
  import opened NCrypt

  /** winHelloPassportKey: metadata to reopen the key; it owns no handle. */
  datatype PassportKey = PassportKey(keyName: bytes, hwnd: nat)

  const KEY_BITS := 2048
  const ALLOW_DECRYPT := 1
  const AUTH_MANDATORY := 1

  function CreateContext(): bytes { Ascii("Create keyring winhello key") }
  function DefaultUnwrapContext(): bytes { Ascii("Unlock keyring secret") }

  /** The use context of an unwrap; the default stands in for an empty one. */
  function ShownContext(context: bytes): (r: bytes)
    ensures r != []
  {
    if context == [] then DefaultUnwrapContext() else context
  }

  /** The properties with which FinalizeKey may persist a new key. */
  predicate CreationShape(props: map<Property, Value>) {
    && KeyLength in props && props[KeyLength] == UInt(2048)
    && KeyUsage in props && props[KeyUsage] == UInt(1)
    && ((NgcCacheType in props && props[NgcCacheType] == UInt(1))
        || (NgcCacheTypeLegacy in props && props[NgcCacheTypeLegacy] == UInt(1)))
    && UseContext in props && props[UseContext] == Str(Ascii("Create keyring winhello key"))
  }

  /** winHelloSetWindowHandleIfPresent: best effort, every caller ignores the result. */
  method SetWindowHandleIfPresent(nc: NCrypt, h: Handle, hwnd: nat, ghost base: map<Handle, Object>, ghost p: Handle)
    requires nc.Clean()
    requires ProviderOpen(nc.monitor.value, base, h) || KeyOpen(nc.monitor.value, base, p, h)
    modifies nc
    ensures NoProbe(nc.trace, |old(nc.trace)|) && NoCreation(nc.trace, |old(nc.trace)|)
    ensures nc.Advanced() && nc.persisted == old(nc.persisted)
    ensures nc.monitor.value.missing == old(nc.monitor.value.missing)
    ensures var w := if hwnd == 0 then nc.foreground(|old(nc.trace)|) else hwnd;
      if w == 0 then nc.trace == old(nc.trace)
      else exists code :: nc.trace == old(nc.trace) + [SetProperty(h, WindowHandle, Window(w), code)]
    ensures old(ProviderOpen(nc.monitor.value, base, h)) ==> nc.monitor == old(nc.monitor)
    ensures old(KeyOpen(nc.monitor.value, base, p, h)) ==>
              && KeyOpen(nc.monitor.value, base, p, h)
              && SameKey(old(nc.KeyOf(h)), nc.KeyOf(h))
              && nc.KeyOf(h).props - {WindowHandle} == old(nc.KeyOf(h)).props - {WindowHandle}
  {
    var w := if hwnd == 0 then nc.foreground(|nc.trace|) else hwnd;
    if w != 0 {
      ghost var m, n := nc.monitor.value, |nc.trace|;
      var code := nc.Set(h, WindowHandle, Window(w));
      if KeyOpen(m, base, p, h) {
        PropertyStep(m, n, base, p, h, WindowHandle, Window(w), code);
      }
    }
  }

  /** winHelloOpenPassportProvider */
  method OpenPassportProvider(nc: NCrypt, logicalName: bytes, hwnd: nat) returns (r: Result<(Handle, bytes)>)
    requires nc.Clean()
    modifies nc
    ensures NoProbe(nc.trace, |old(nc.trace)|) && NoCreation(nc.trace, |old(nc.trace)|)
    ensures nc.Advanced() && nc.persisted == old(nc.persisted)
    ensures nc.monitor.value.missing == old(nc.monitor.value.missing)
    ensures r.Ok? ==> nc.passportName(logicalName) == Ok(r.value.1)
    ensures r.Ok? ==> ProviderOpen(nc.monitor.value, old(nc.monitor.value.live), r.value.0)
    ensures r.Err? ==> nc.Settled() && KeyNotFound !in r.error && PassportKeyNotFound !in r.error
    ensures r.Err? ==> nc.passportName(logicalName).Err? || nc.faults > old(nc.faults)
  {
    hide Step, Replay, Lawful;
    if nc.passportName(logicalName).Err? {
      assert SoundName(nc.passportName(logicalName));
      return Err(nc.passportName(logicalName).error);
    }
    ghost var m := nc.monitor.value;
    OpenProviderStep(m, |nc.trace|);
    var code, provider := nc.OpenStorageProvider();
    if code != 0 {
      return Err({Status(code)});
    }
    SetWindowHandleIfPresent(nc, provider, hwnd, m.live, provider);
    return Ok((provider, nc.passportName(logicalName).value));
  }

  /** A failed probe is reported: three codes as a missing key, any other one as it is. */
  ghost predicate ReportsProbes<T>(t: seq<Event>, from: nat, name: Result<bytes>, r: Result<T>) {
    forall i | from <= i < |t| && t[i].OpenKeyFailed? ::
      Ok(t[i].name) == name && r == Err(if t[i].code == 0x80090016 || t[i].code == 0x8009000d || t[i].code == 0x80090011
               then {PassportKeyNotFound} else {Status(t[i].code)})
  }

  /** The probe with a not-found code was the last call but one. */
  ghost predicate ProbedLast(t: seq<Event>, from: nat, name: Result<bytes>) {
    && |t| >= from + 2 && t[|t| - 2].OpenKeyFailed? && Ok(t[|t| - 2].name) == name
    && (t[|t| - 2].code == 0x80090016 || t[|t| - 2].code == 0x8009000d || t[|t| - 2].code == 0x80090011)
  }

  ghost predicate CreatesAt(t: seq<Event>, i: nat, name: bytes) {
    i < |t| && t[i].CreateKey? && t[i].name == name
  }

  /** A probe that fails with any other code is what the caller learns, and nothing is created. */
  ghost predicate StopsAtOtherCodes(t: seq<Event>, from: nat, r: Result<PassportKey>) {
    forall i | from <= i < |t| && t[i].OpenKeyFailed? ::
      t[i].code == 0x80090016 || t[i].code == 0x8009000d || t[i].code == 0x80090011
      || (r == Err({Status(t[i].code)}) && NoCreation(t, from))
  }

  /** A probe that fails with one of the three codes leads to a new key, if the name is free and no
      later call meets a fault. */
  ghost predicate CreatesAfterNotFound(nc: NCrypt, t: seq<Event>, from: nat, before: map<bytes, Persisted>,
                                       r: Result<PassportKey>)
    reads nc
  {
    forall i | from <= i < |t| && t[i].OpenKeyFailed? ::
      && (t[i].code == 0x80090016 || t[i].code == 0x8009000d || t[i].code == 0x80090011)
      && (forall j: nat | i < j < |t| :: nc.status(j) == 0) && t[i].name !in before ==>
        && r.Ok? && r.value.keyName == t[i].name && t[i].name in nc.persisted
        && exists k: nat :: i < k && CreatesAt(t, k, t[i].name)
  }

  /** The probe of openWinHelloPassportKey: opens the key and frees it. */
  method ProbeKey(nc: NCrypt, provider: Handle, keyName: bytes, ghost base: map<Handle, Object>)
    returns (r: Result<()>)
    requires nc.Clean() && ProviderOpen(nc.monitor.value, base, provider)
    modifies nc
    ensures nc.Advanced() && nc.persisted == old(nc.persisted) && ProviderOpen(nc.monitor.value, base, provider)
    ensures ProbesOnce(nc.trace, |old(nc.trace)|, keyName, r)
    ensures r.Ok? ==> keyName in nc.persisted
    ensures r.Err? && PassportKeyNotFound in r.error ==> keyName in nc.monitor.value.missing
    ensures r.Err? && nc.faults == old(nc.faults) ==> r.error == {PassportKeyNotFound} && keyName !in nc.persisted
  {
    hide Step, Replay, Lawful, WellFormed, SoundName;
    ghost var m, n := nc.monitor.value, |nc.trace|;
    var code, keyHandle := nc.OpenKeyByName(provider, keyName);
    ProbeStep(m, n, base, provider, keyName, if code == 0 then nc.persisted[keyName].material else 0, code);
    if code != 0 {
      return Err(if NotFound(code) then {PassportKeyNotFound} else {Status(code)});
    }
    m, n := nc.monitor.value, |nc.trace|;
    var freed := nc.FreeObject(keyHandle);
    FreeKeyStep(m, n, base, provider, keyHandle, freed);
    r := if freed != 0 then Err({Status(freed)}) else Ok(());
  }

  /** The record goes on with a failed probe, which is reported, or with a probe and the release of
      its handle, which must succeed. */
  ghost predicate ProbesOnce(t: seq<Event>, from: nat, name: bytes, r: Result<()>) {
    || (|t| == from + 1 && t[from].OpenKeyFailed? && t[from].name == name
        && r == Err(if t[from].code == 0x80090016 || t[from].code == 0x8009000d || t[from].code == 0x80090011
                    then {PassportKeyNotFound} else {Status(t[from].code)}))
    || (|t| == from + 2 && t[from].OpenKey? && t[from + 1].Free? && t[from + 1].h == t[from].h
        && r == if t[from + 1].code == 0 then Ok(()) else Err({Status(t[from + 1].code)}))
  }

  /** openWinHelloPassportKey: a probe that leaves no handle open. */
  method OpenPassportKey(nc: NCrypt, logicalName: bytes, hwnd: nat) returns (r: Result<PassportKey>)
    requires nc.Clean()
    modifies nc
    ensures NoCreation(nc.trace, |old(nc.trace)|)
    ensures ReportsProbes(nc.trace, |old(nc.trace)|, nc.passportName(logicalName), r)
    ensures r.Err? && PassportKeyNotFound in r.error ==>
              ProbedLast(nc.trace, |old(nc.trace)|, nc.passportName(logicalName))
    ensures nc.Settled() && nc.persisted == old(nc.persisted)
    ensures r.Ok? ==> nc.passportName(logicalName) == Ok(r.value.keyName) && r.value.hwnd == hwnd
    ensures r.Ok? ==> r.value.keyName in nc.persisted && EndsProbed(nc.trace)
    ensures r.Err? ==> KeyNotFound !in r.error
    ensures r.Err? && PassportKeyNotFound in r.error ==>
              nc.passportName(logicalName).Ok? && nc.passportName(logicalName).value in nc.monitor.value.missing
    ensures r.Err? && nc.faults == old(nc.faults) && nc.passportName(logicalName).Ok? ==>
              r.error == {PassportKeyNotFound} && nc.passportName(logicalName).value !in nc.persisted
  {
    hide Step, Replay, Lawful, WellFormed, Closed;
    ghost var base := nc.monitor.value.live;
    var got := OpenPassportProvider(nc, logicalName, hwnd);
    if got.Err? {
      return Err(got.error);
    }
    var provider, keyName := got.value.0, got.value.1;
    var probe := ProbeKey(nc, provider, keyName, base);
    ghost var m, n := nc.monitor.value, |nc.trace|;
    var last := nc.FreeObject(provider);
    FreeProviderStep(m, n, base, provider, last);
    r := if probe.Err? then Err(probe.error) else Ok(PassportKey(keyName, hwnd));
  }

  /** One property of the key under construction. */
  method SetKeyProperty(nc: NCrypt, k: Handle, property: Property, value: Value,
                        ghost base: map<Handle, Object>, ghost p: Handle) returns (code: Code)
    requires nc.Clean() && KeyOpen(nc.monitor.value, base, p, k)
    modifies nc
    ensures NoProbe(nc.trace, |old(nc.trace)|) && NoCreation(nc.trace, |old(nc.trace)|)
    ensures nc.Advanced() && nc.persisted == old(nc.persisted)
    ensures nc.monitor.value.missing == old(nc.monitor.value.missing)
    ensures KeyOpen(nc.monitor.value, base, p, k) && SameKey(old(nc.KeyOf(k)), nc.KeyOf(k))
    ensures nc.KeyOf(k).props == if code == 0 then old(nc.KeyOf(k)).props[property := value] else old(nc.KeyOf(k)).props
    ensures code != 0 ==> nc.faults > old(nc.faults)
  {
    hide Step, Replay, Lawful;
    ghost var m, n := nc.monitor.value, |nc.trace|;
    code := nc.Set(k, property, value);
    PropertyStep(m, n, base, p, k, property, value, code);
  }

  /** winHelloSetPassportNgcCacheType: the current property name, or else the older one. */
  method SetPassportNgcCacheType(nc: NCrypt, k: Handle, ghost base: map<Handle, Object>, ghost p: Handle)
    returns (code: Code)
    requires nc.Clean() && KeyOpen(nc.monitor.value, base, p, k)
    modifies nc
    ensures NoProbe(nc.trace, |old(nc.trace)|) && NoCreation(nc.trace, |old(nc.trace)|)
    ensures nc.Advanced() && nc.persisted == old(nc.persisted)
    ensures KeyOpen(nc.monitor.value, base, p, k) && SameKey(old(nc.KeyOf(k)), nc.KeyOf(k))
    ensures code != 0 ==> nc.faults >= old(nc.faults) + 2
    ensures nc.faults == old(nc.faults) ==>
              nc.KeyOf(k).props == old(nc.KeyOf(k)).props[NgcCacheType := UInt(AUTH_MANDATORY)]
    ensures code == 0 ==>
              || nc.KeyOf(k).props == old(nc.KeyOf(k)).props[NgcCacheType := UInt(AUTH_MANDATORY)]
              || nc.KeyOf(k).props == old(nc.KeyOf(k)).props[NgcCacheTypeLegacy := UInt(AUTH_MANDATORY)]
  {
    code := SetKeyProperty(nc, k, NgcCacheType, UInt(AUTH_MANDATORY), base, p);
    if code != 0 {
      code := SetKeyProperty(nc, k, NgcCacheTypeLegacy, UInt(AUTH_MANDATORY), base, p);
    }
  }

  /** The first two properties of winHelloInitializePassportKey. */
  method SetLengthAndUsage(nc: NCrypt, k: Handle, ghost base: map<Handle, Object>, ghost p: Handle)
    returns (code: Code)
    requires nc.Clean() && KeyOpen(nc.monitor.value, base, p, k)
    modifies nc
    ensures NoProbe(nc.trace, |old(nc.trace)|) && NoCreation(nc.trace, |old(nc.trace)|)
    ensures nc.Advanced() && nc.persisted == old(nc.persisted)
    ensures KeyOpen(nc.monitor.value, base, p, k) && SameKey(old(nc.KeyOf(k)), nc.KeyOf(k))
    ensures code != 0 ==> nc.faults > old(nc.faults)
    ensures code == 0 ==>
              nc.KeyOf(k).props == old(nc.KeyOf(k)).props[KeyLength := UInt(KEY_BITS)][KeyUsage := UInt(ALLOW_DECRYPT)]
  {
    hide Step, Replay, Lawful, Ascii, WellFormed, SoundName, Closed;
    code := SetKeyProperty(nc, k, KeyLength, UInt(KEY_BITS), base, p);
    if code != 0 { return; }
    code := SetKeyProperty(nc, k, KeyUsage, UInt(ALLOW_DECRYPT), base, p);
  }

  /** The part of winHelloInitializePassportKey behind the window handle. */
  method SetCreationShape(nc: NCrypt, k: Handle, ghost base: map<Handle, Object>, ghost p: Handle) returns (code: Code)
    requires nc.Clean() && KeyOpen(nc.monitor.value, base, p, k)
    modifies nc
    ensures NoProbe(nc.trace, |old(nc.trace)|) && NoCreation(nc.trace, |old(nc.trace)|)
    ensures nc.Advanced() && nc.persisted == old(nc.persisted)
    ensures KeyOpen(nc.monitor.value, base, p, k) && SameKey(old(nc.KeyOf(k)), nc.KeyOf(k))
    ensures code != 0 ==> nc.faults > old(nc.faults)
    ensures code == 0 ==> CreationShape(nc.KeyOf(k).props)
  {
    hide Step, Replay, Lawful, Ascii, WellFormed, SoundName, Closed;
    code := SetLengthAndUsage(nc, k, base, p);
    if code != 0 { return; }
    code := SetPassportNgcCacheType(nc, k, base, p);
    if code != 0 { return; }
    code := SetKeyProperty(nc, k, UseContext, Str(CreateContext()), base, p);
  }

  /** winHelloInitializePassportKey */
  method InitializePassportKey(nc: NCrypt, k: Handle, hwnd: nat, ghost base: map<Handle, Object>, ghost p: Handle)
    returns (code: Code)
    requires nc.Clean() && KeyOpen(nc.monitor.value, base, p, k)
    modifies nc
    ensures NoProbe(nc.trace, |old(nc.trace)|) && NoCreation(nc.trace, |old(nc.trace)|)
    ensures nc.Advanced() && nc.persisted == old(nc.persisted)
    ensures KeyOpen(nc.monitor.value, base, p, k) && SameKey(old(nc.KeyOf(k)), nc.KeyOf(k))
    ensures code != 0 ==> nc.faults > old(nc.faults)
    ensures code == 0 ==> CreationShape(nc.KeyOf(k).props)
  {
    hide Step, Replay, Lawful, CreationShape, WellFormed, SoundName;
    SetWindowHandleIfPresent(nc, k, hwnd, base, p);
    code := SetCreationShape(nc, k, base, p);
  }

  /** The state an ensure leaves: nothing persisted, or one new key of the creation shape
      under a name that was free. */
  ghost predicate CreatedAtMost(before: map<bytes, Persisted>, after: map<bytes, Persisted>, name: bytes) {
    || after == before
    || (name !in before && name in after && after == before[name := after[name]] && CreationShape(after[name].props))
  }

  /** The key pair that one of the calls lo to hi generates. */
  ghost predicate Generated(m: Material, keygen: nat -> Material, lo: nat, hi: nat) {
    exists n: nat :: lo <= n < hi && m == keygen(n)
  }

  /** At most one new key, with a key pair the provider generated for it. */
  twostate predicate Ensured(nc: NCrypt, name: bytes)
    reads nc
  {
    && CreatedAtMost(old(nc.persisted), nc.persisted, name)
    && (nc.persisted != old(nc.persisted) ==>
          Generated(nc.persisted[name].material, nc.keygen, |old(nc.trace)|, |nc.trace|))
  }

  /** The part of ensureWinHelloPassportKey on the handle of the new key. */
  method FinishPassportKey(nc: NCrypt, key: Handle, hwnd: nat, ghost base: map<Handle, Object>, ghost p: Handle)
    returns (code: Code)
    requires nc.Clean() && KeyOpen(nc.monitor.value, base, p, key)
    modifies nc
    ensures NoProbe(nc.trace, |old(nc.trace)|) && nc.Advanced()
    ensures KeyOpen(nc.monitor.value, base, p, key)
    ensures var k := old(nc.KeyOf(key));
      && (code != 0 ==> nc.persisted == old(nc.persisted) && (nc.faults > old(nc.faults) || k.name in nc.persisted))
      && (code == 0 ==>
            && k.name !in old(nc.persisted) && k.name in nc.persisted
            && nc.persisted == old(nc.persisted)[k.name := nc.persisted[k.name]]
            && nc.persisted[k.name].material == k.material && CreationShape(nc.persisted[k.name].props))
  {
    hide Step, Replay, Lawful, CreationShape, WellFormed, SoundName, Closed;
    code := InitializePassportKey(nc, key, hwnd, base, p);
    if code == 0 {
      ghost var m, n := nc.monitor.value, |nc.trace|;
      code := nc.FinalizeKey(key);
      KeyUseStep(m, n, base, p, key, Prompt(0, []), code);
    }
  }

  /** The part of ensureWinHelloPassportKey between opening and freeing the provider. */
  method CreatePassportKey(nc: NCrypt, provider: Handle, keyName: bytes, hwnd: nat, ghost base: map<Handle, Object>)
    returns (code: Code)
    requires nc.Clean() && ProviderOpen(nc.monitor.value, base, provider) && keyName in nc.monitor.value.missing
    modifies nc
    ensures NoProbe(nc.trace, |old(nc.trace)|) && |nc.trace| > |old(nc.trace)|
    ensures code == 0 ==> CreatesAt(nc.trace, |old(nc.trace)|, keyName)
    ensures nc.Advanced() && ProviderOpen(nc.monitor.value, base, provider)
    ensures Ensured(nc, keyName)
    ensures code == 0 ==> keyName !in old(nc.persisted) && keyName in nc.persisted && EndsReleased(nc.trace)
    ensures code != 0 ==> nc.faults > old(nc.faults) || keyName in old(nc.persisted)
  {
    hide Step, Replay, Lawful, CreationShape, WellFormed, SoundName, Closed;
    ghost var m, n := nc.monitor.value, |nc.trace|;
    var created, key := nc.CreatePersistedKey(provider, keyName);
    CreateStep(m, n, base, provider, keyName, nc.keygen(n), created);
    if created != 0 {
      return created;
    }
    code := FinishPassportKey(nc, key, hwnd, base, provider);
    m, n := nc.monitor.value, |nc.trace|;
    var freed := nc.FreeObject(key);
    FreeKeyStep(m, n, base, provider, key, freed);
    code := if code != 0 then code else freed;
  }

  /** The part of ensureWinHelloPassportKey behind a probe that did not find the key. */
  method CreateMissingKey(nc: NCrypt, logicalName: bytes, hwnd: nat) returns (r: Result<PassportKey>)
    requires nc.Clean() && nc.passportName(logicalName).Ok?
    requires nc.passportName(logicalName).value in nc.monitor.value.missing
    modifies nc
    ensures nc.Settled() && NoProbe(nc.trace, |old(nc.trace)|)
    ensures Ensured(nc, nc.passportName(logicalName).value)
    ensures r.Ok? ==> r.value == PassportKey(nc.passportName(logicalName).value, hwnd)
    ensures r.Ok? ==> r.value.keyName in nc.persisted && r.value.keyName !in old(nc.persisted) && EndsReleased(nc.trace)
    ensures r.Ok? ==> exists k: nat :: |old(nc.trace)| <= k && CreatesAt(nc.trace, k, r.value.keyName)
    ensures r.Err? ==> KeyNotFound !in r.error && nc.faults >= old(nc.faults)
    ensures r.Err? ==> nc.faults > old(nc.faults) || nc.passportName(logicalName).value in old(nc.persisted)
  {
    hide Step, Replay, Lawful, CreationShape, WellFormed, Closed;
    ghost var base := nc.monitor.value.live;
    var got := OpenPassportProvider(nc, logicalName, hwnd);
    if got.Err? {
      return Err(got.error);
    }
    var provider, keyName := got.value.0, got.value.1;
    ghost var at := |nc.trace|;
    var code := CreatePassportKey(nc, provider, keyName, hwnd, base);
    ghost var m, n := nc.monitor.value, |nc.trace|;
    var freed := nc.FreeObject(provider);
    FreeProviderStep(m, n, base, provider, freed);
    r := if code != 0 then Err({Status(code)}) else if freed != 0 then Err({Status(freed)})
         else Ok(PassportKey(keyName, hwnd));
    assert code == 0 ==> CreatesAt(nc.trace, at, keyName);
  }

  /** ensureWinHelloPassportKey */
  method EnsurePassportKey(nc: NCrypt, logicalName: bytes, hwnd: nat) returns (r: Result<PassportKey>)
    requires nc.Clean()
    modifies nc
    ensures StopsAtOtherCodes(nc.trace, |old(nc.trace)|, r)
    ensures CreatesAfterNotFound(nc, nc.trace, |old(nc.trace)|, old(nc.persisted), r)
    ensures nc.Settled()
    ensures nc.passportName(logicalName).Err? ==> r.Err? && nc.persisted == old(nc.persisted)
    ensures nc.passportName(logicalName).Ok? ==> Ensured(nc, nc.passportName(logicalName).value)
    ensures r.Ok? ==> nc.passportName(logicalName) == Ok(r.value.keyName) && r.value.hwnd == hwnd
    ensures r.Ok? ==> r.value.keyName in nc.persisted
    ensures r.Ok? ==> if nc.persisted == old(nc.persisted) then EndsProbed(nc.trace) else EndsReleased(nc.trace)
    ensures r.Err? ==> KeyNotFound !in r.error
    ensures r.Err? && nc.passportName(logicalName).Ok? ==>
              nc.faults > old(nc.faults)
  {
    hide Step, Replay, Lawful, CreationShape, WellFormed, SoundName;
    r := OpenPassportKey(nc, logicalName, hwnd);
    if r.Ok? || PassportKeyNotFound !in r.error {
      return;
    }
    ghost var probed := nc.trace;
    r := CreateMissingKey(nc, logicalName, hwnd);
    ProbedInFront(old(nc.trace), probed, nc.trace, nc.passportName(logicalName).value);
  }

  /** The one failed probe lies in the front part of the record. */
  lemma ProbedInFront(start: seq<Event>, probed: seq<Event>, t: seq<Event>, name: bytes)
    requires start <= probed <= t && NoProbe(t, |probed|)
    requires ReportsProbes(probed, |start|, Ok(name), Result<PassportKey>.Err({PassportKeyNotFound}))
    requires ProbedLast(probed, |start|, Ok(name))
    ensures forall i | |start| <= i < |t| && t[i].OpenKeyFailed? ::
              && i < |probed| && t[i].name == name
              && (t[i].code == 0x80090016 || t[i].code == 0x8009000d || t[i].code == 0x80090011)
  {
    forall i | |start| <= i < |t| && t[i].OpenKeyFailed?
      ensures i < |probed| && t[i].name == name
      ensures t[i].code == 0x80090016 || t[i].code == 0x8009000d || t[i].code == 0x80090011
    {
      assert Probes(t[i]);
      assert t[i] == probed[i];
    }
  }

  // ---- winhello/wrap.go ----

  predicate Named(key: Option<PassportKey>) { key.Some? && key.value.keyName != [] }

  /** The part of withOperationKey behind the provider: opens the key, or frees the provider. */
  method OpenKeyOrRelease(nc: NCrypt, provider: Handle, name: bytes, ghost base: map<Handle, Object>)
    returns (r: Result<Handle>)
    requires nc.Clean() && ProviderOpen(nc.monitor.value, base, provider)
    modifies nc
    ensures nc.Advanced() && nc.persisted == old(nc.persisted)
    ensures ReportsProbes(nc.trace, |old(nc.trace)|, Ok(name), r)
    ensures r.Ok? ==> name in nc.persisted && KeyOpen(nc.monitor.value, base, provider, r.value)
    ensures r.Ok? ==> nc.KeyOf(r.value).material == nc.persisted[name].material
    ensures r.Err? ==> nc.monitor.value.live == base && KeyNotFound !in r.error
    ensures r.Err? && nc.faults == old(nc.faults) ==> r.error == {PassportKeyNotFound} && name !in nc.persisted
  {
    hide Step, Replay, Lawful, WellFormed, SoundName;
    ghost var m, n := nc.monitor.value, |nc.trace|;
    var probe, openedKey := nc.OpenKeyByName(provider, name);
    ProbeStep(m, n, base, provider, name, if probe == 0 then nc.persisted[name].material else 0, probe);
    if probe == 0 {
      return Ok(openedKey);
    }
    m, n := nc.monitor.value, |nc.trace|;
    var freed := nc.FreeObject(provider);
    FreeProviderStep(m, n, base, provider, freed);
    r := Err(if NotFound(probe) then {PassportKeyNotFound} else {Status(probe)});
  }

  /** withOperationKey up to the call of its argument: reopens the persisted key. */
  method OpenOperationKey(nc: NCrypt, key: Option<PassportKey>) returns (r: Result<(Handle, Handle)>)
    requires nc.Clean()
    modifies nc
    ensures nc.Advanced() && nc.persisted == old(nc.persisted)
    ensures key == None ==> r == Err({PassportKeyRequired})
    ensures key != None && |key.value.keyName| == 0 ==> r == Err({PassportKeyNameRequired})
    ensures Named(key) ==> ReportsProbes(nc.trace, |old(nc.trace)|, Ok(key.value.keyName), r)
    ensures r.Ok? ==> Named(key) && key.value.keyName in nc.persisted
    ensures r.Ok? ==> KeyOpen(nc.monitor.value, old(nc.monitor.value.live), r.value.0, r.value.1)
    ensures r.Ok? ==> nc.KeyOf(r.value.1).material == nc.persisted[key.value.keyName].material
    ensures r.Err? ==> nc.Settled() && KeyNotFound !in r.error
    ensures r.Err? && Named(key) && nc.faults == old(nc.faults) ==>
              r.error == {PassportKeyNotFound} && key.value.keyName !in nc.persisted
  {
    hide Step, Replay, Lawful, WellFormed, ProviderOpen, SoundName;
    if key.None? {
      return Err({PassportKeyRequired});
    }
    if key.value.keyName == [] {
      return Err({PassportKeyNameRequired});
    }
    ghost var base := nc.monitor.value.live;
    ghost var m, n := nc.monitor.value, |nc.trace|;
    var code, provider := nc.OpenStorageProvider();
    OpenProviderStep(m, n);
    if code != 0 {
      return Err({Status(code)});
    }
    SetWindowHandleIfPresent(nc, provider, key.value.hwnd, base, provider);
    var got := OpenKeyOrRelease(nc, provider, key.value.keyName, base);
    r := if got.Err? then Err(got.error) else Ok((provider, got.value));
  }

  /** The deferred cleanup of withOperationKey: key first, then provider, errors dropped. */
  method CloseOperationKey(nc: NCrypt, provider: Handle, key: Handle, ghost base: map<Handle, Object>)
    requires nc.Clean() && KeyOpen(nc.monitor.value, base, provider, key)
    modifies nc
    ensures nc.Advanced() && nc.monitor.value.live == base && nc.persisted == old(nc.persisted)
  {
    hide Step, Replay, Lawful;
    ghost var m, n := nc.monitor.value, |nc.trace|;
    var freed := nc.FreeObject(key);
    FreeKeyStep(m, n, base, provider, key, freed);
    m, n := nc.monitor.value, |nc.trace|;
    freed := nc.FreeObject(provider);
    FreeProviderStep(m, n, base, provider, freed);
  }

  /** What wrapping with the persisted key of that name can yield. */
  ghost predicate IsWrapOf(nc: NCrypt, name: bytes, cek: bytes, wrapped: bytes)
    reads nc
  {
    name in nc.persisted && exists pad: nat :: wrapped == nc.lib.wrap(nc.persisted[name].material, pad, cek)
  }

  /** WrapKey */
  method WrapKey(nc: NCrypt, key: Option<PassportKey>, cek: array<byte>) returns (r: Result<bytes>)
    requires nc.Clean()
    modifies nc
    ensures cek.Length != 32 ==> r == Err({InvalidCekSize}) && nc.trace == old(nc.trace)
    ensures cek.Length == 32 && key == None ==> r == Err({PassportKeyRequired})
    ensures nc.Settled() && nc.persisted == old(nc.persisted)
    ensures r.Ok? ==> cek.Length == CEK_SIZE && Named(key) && IsWrapOf(nc, key.value.keyName, cek[..], r.value)
    ensures r.Err? ==> KeyNotFound !in r.error
    ensures r.Err? && cek.Length == CEK_SIZE && Named(key) && nc.faults == old(nc.faults) ==>
              r.error == {PassportKeyNotFound} && key.value.keyName !in nc.persisted
  {
    hide Step, Replay, Lawful;
    if cek.Length != CEK_SIZE {
      return Err({InvalidCekSize});
    }
    ghost var base := nc.monitor.value.live;
    var got := OpenOperationKey(nc, key);
    if got.Err? {
      return Err(got.error);
    }
    var provider, handle := got.value.0, got.value.1;
    SetWindowHandleIfPresent(nc, handle, key.value.hwnd, base, provider);
    ghost var m, n := nc.monitor.value, |nc.trace|;
    var code, wrapped := nc.EncryptWith(handle, cek[..]);
    KeyUseStep(m, n, base, provider, handle, Prompt(0, []), code);
    CloseOperationKey(nc, provider, handle, base);
    r := if code != 0 then Err({Status(code)}) else Ok(wrapped);
  }

  /** winHelloPreparePassportUnwrap: the prompt text, and no skipping of the gesture. */
  method PreparePassportUnwrap(nc: NCrypt, k: Handle, hwnd: nat, context: bytes,
                               ghost base: map<Handle, Object>, ghost p: Handle) returns (code: Code)
    requires nc.Clean() && KeyOpen(nc.monitor.value, base, p, k)
    modifies nc
    ensures nc.Advanced() && nc.persisted == old(nc.persisted)
    ensures KeyOpen(nc.monitor.value, base, p, k) && SameKey(old(nc.KeyOf(k)), nc.KeyOf(k))
    ensures code == 0 ==> Gated(nc.KeyOf(k).props)
    ensures code == 0 ==> nc.KeyOf(k).props[UseContext] == Str(ShownContext(context))
    ensures code == 0 ==>
              nc.KeyOf(k).props[UseContext] == Str(if context == [] then Ascii("Unlock keyring secret") else context)
    ensures code != 0 ==> nc.faults > old(nc.faults)
  {
    hide Step, Replay, Lawful;
    SetWindowHandleIfPresent(nc, k, hwnd, base, p);
    code := SetKeyProperty(nc, k, UseContext, Str(ShownContext(context)), base, p);
    if code != 0 { return; }
    code := SetKeyProperty(nc, k, GestureRequired, UInt(1), base, p);
  }

  /** What the private key makes of a wrapped key is 32 bytes. */
  ghost predicate UnwrapsToCek(lib: Library, material: Material, wrapped: bytes) {
    wrapped != [] && lib.unwrap(material, wrapped).Some? && |lib.unwrap(material, wrapped).value| == CEK_SIZE
  }

  /** The closure of unwrapKeyWithFlags. */
  method UnwrapWithHandle(nc: NCrypt, k: Handle, hwnd: nat, wrapped: bytes, context: bytes, flags: bv32,
                          ghost base: map<Handle, Object>, ghost p: Handle) returns (r: Result<bytes>)
    requires nc.Clean() && KeyOpen(nc.monitor.value, base, p, k)
    modifies nc
    ensures nc.AdvancedWith(iset{Prompt(flags, ShownContext(context))}) && nc.persisted == old(nc.persisted)
    ensures KeyOpen(nc.monitor.value, base, p, k)
    ensures r.Ok? ==> |r.value| == CEK_SIZE && nc.lib.unwrap(old(nc.KeyOf(k).material), wrapped) == Some(r.value)
    ensures r.Err? ==> KeyNotFound !in r.error
    ensures r.Err? ==> nc.faults > old(nc.faults) || !UnwrapsToCek(nc.lib, old(nc.KeyOf(k).material), wrapped)
  {
    hide Step, Replay, Lawful;
    var code := PreparePassportUnwrap(nc, k, hwnd, context, base, p);
    if code != 0 {
      return Err({Status(code)});
    }
    if wrapped == [] {
      return Err({EmptyInput});
    }
    ghost var m, n := nc.monitor.value, |nc.trace|;
    var cek;
    code, cek := nc.DecryptWith(k, wrapped, flags);
    KeyUseStep(m, n, base, p, k, Prompt(flags, ShownContext(context)), code);
    r := if code != 0 then Err({Status(code)}) else if |cek| != CEK_SIZE then Err({InvalidCekSize}) else Ok(cek);
  }

  /** unwrapKeyWithFlags */
  method UnwrapKeyWithFlags(nc: NCrypt, key: Option<PassportKey>, wrapped: bytes, context: bytes, extraFlags: bv32)
    returns (r: Result<array<byte>>)
    requires nc.Clean()
    modifies nc
    ensures nc.SettledWith(iset{Prompt(PAD_PKCS1 | extraFlags, ShownContext(context))})
    ensures nc.persisted == old(nc.persisted)
    ensures r.Ok? ==> fresh(r.value) && r.value.Length == CEK_SIZE && Named(key) && key.value.keyName in nc.persisted
    ensures r.Ok? ==> nc.lib.unwrap(nc.persisted[key.value.keyName].material, wrapped) == Some(r.value[..])
    ensures r.Err? ==> KeyNotFound !in r.error
    ensures r.Err? && Named(key) && nc.faults == old(nc.faults) ==>
              if key.value.keyName in nc.persisted
              then !UnwrapsToCek(nc.lib, nc.persisted[key.value.keyName].material, wrapped)
              else r.error == {PassportKeyNotFound}
  {
    hide Step, Replay, Lawful, UnwrapsToCek;
    ghost var base := nc.monitor.value.live;
    var got := OpenOperationKey(nc, key);
    if got.Err? {
      return Err(got.error);
    }
    var provider, handle := got.value.0, got.value.1;
    var cek := UnwrapWithHandle(nc, handle, key.value.hwnd, wrapped, context, PAD_PKCS1 | extraFlags, base, provider);
    CloseOperationKey(nc, provider, handle, base);
    if cek.Err? {
      return Err(cek.error);
    }
    var buffer := new byte[|cek.value|](i requires 0 <= i < |cek.value| => cek.value[i]);
    assert buffer[..] == cek.value;
    return Ok(buffer);
  }

  /** UnwrapKey: never silent. */
  method UnwrapKey(nc: NCrypt, key: Option<PassportKey>, wrapped: bytes, context: bytes)
    returns (r: Result<array<byte>>)
    requires nc.Clean()
    modifies nc
    ensures nc.SettledWith(iset{Prompt(PAD_PKCS1, ShownContext(context))}) && nc.persisted == old(nc.persisted)
    ensures nc.SettledWith(iset{Prompt(0x2, ShownContext(context))})
    ensures r.Ok? ==> fresh(r.value) && r.value.Length == 32 && Named(key) && key.value.keyName in nc.persisted
    ensures r.Ok? ==> nc.lib.unwrap(nc.persisted[key.value.keyName].material, wrapped) == Some(r.value[..])
    ensures r.Err? ==> KeyNotFound !in r.error
    ensures r.Err? && Named(key) && nc.faults == old(nc.faults) ==>
              if key.value.keyName in nc.persisted
              then !UnwrapsToCek(nc.lib, nc.persisted[key.value.keyName].material, wrapped)
              else r.error == {PassportKeyNotFound}
  {
    assert PAD_PKCS1 | 0 == PAD_PKCS1;
    r := UnwrapKeyWithFlags(nc, key, wrapped, context, 0);
  }

  /** Unwrapping with the key that wrapped gives the wrapped bytes back, and nothing else. */
  lemma UnwrapAfterWrap(nc: NCrypt, name: bytes, cek: bytes, wrapped: bytes)
    requires Lawful(nc.lib) && IsWrapOf(nc, name, cek, wrapped)
    ensures nc.lib.unwrap(nc.persisted[name].material, wrapped) == Some(cek) && wrapped != []
  {
  }
}
