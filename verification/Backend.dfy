/** The Windows Hello backend of winhello/backend.go: a map from keys to data, reached through
    a lazily acquired Passport key and a credential per item. */
module Backend {
  import opened Bytes
  import opened Errors
  import opened Json
  import opened Naming
  import opened Library
  import Trace
  import opened NCrypt
  import opened Passport
  import opened Sealing
  import opened CredStore

  /** Whose items: those of one service under one Passport key. */
  datatype Scope = Scope(lib: Library, service: bytes, keyName: bytes)

  /** What a stored text opens to with the key of the given material. */
  function Opened(c: Scope, material: Material, key: bytes, text: bytes): Option<bytes> {
    Recover(c.lib, material, text, Aad(c.service, key), c.keyName)
  }

  /** What a fault-free Get of this key yields. */
  function ViewOf(c: Scope, persisted: map<bytes, Persisted>, blobs: map<bytes, bytes>, key: bytes): Option<bytes> {
    if CredentialName(c.service, key) in blobs && c.keyName in persisted
    then Opened(c, persisted[c.keyName].material, key, blobs[CredentialName(c.service, key)])
    else None
  }

  /** No key pair that call number `from` or a later one would generate opens a credential of the
      service. */
  ghost predicate Unopenable(c: Scope, keygen: nat -> Material, from: nat, blobs: map<bytes, bytes>) {
    forall k: bytes, n: nat | from <= n && CredentialName(c.service, k) in blobs ::
      Opened(c, keygen(n), k, blobs[CredentialName(c.service, k)]) == None
  }

  /** winHelloUseContext */
  function PromptText(service: bytes, key: bytes): (r: bytes)
    ensures r != []
  {
    var s := if service == [] then Ascii("default") else service;
    if key == [] then Ascii("Unlock keyring secret for ") + s
    else Ascii("Unlock keyring secret for ") + key + Ascii(" at ") + s
  }

  /** The prompt names the key and then the service; an empty service reads as "default". */
  lemma PromptTextSpelled(service: bytes, key: bytes)
    ensures service != [] && key != [] ==>
              PromptText(service, key) == Ascii("Unlock keyring secret for ") + key + (Ascii(" at ") + service)
    ensures service != [] ==> PromptText(service, []) == Ascii("Unlock keyring secret for ") + service
    ensures PromptText([], key) == PromptText(Ascii("default"), key)
  {
    hide Ascii;
    assert |Ascii("default")| == 7;
  }

  /** wrapExistingItemPassportKeyError: an item without its key is not an item not found. */
  function ExistingItemError(error: Error): Error {
    if KeyNotFound in error || PassportKeyNotFound in error then {PassportKeyNotFound} else error
  }

  lemma NeverItemNotFound(error: Error)
    ensures KeyNotFound !in ExistingItemError(error)
    ensures PassportKeyNotFound in error ==> ExistingItemError(error) == {PassportKeyNotFound}
    ensures KeyNotFound !in error && PassportKeyNotFound !in error ==> ExistingItemError(error) == error
  {
  }

  class Backend {
    const serviceName: bytes
    const logicalName: bytes
    const keyName: bytes
    const nc: NCrypt
    const dir: Directory
    const rng: Random
    var wrapper: Option<PassportKey>
    ghost var acquisitions: nat

    /** A cached wrapper names the key, which may meanwhile be gone. */
    ghost predicate Valid()
      reads this, nc
    {
      && nc.Clean()
      && nc.passportName(logicalName) == Ok(keyName) && ValidUtf8(keyName)
      && (wrapper.Some? ==> wrapper.value.keyName == keyName)
      && acquisitions == (if wrapper.Some? then 1 else 0)
    }

    function Here(): Scope { Scope(nc.lib, serviceName, keyName) }

    function View(key: bytes): Option<bytes>
      reads nc, dir
    {
      ViewOf(Here(), nc.persisted, dir.blobs, key)
    }

    predicate Keyed()
      reads nc
    {
      keyName in nc.persisted
    }

    /** A wrapper was cached, and then its key was lost. */
    predicate Stale()
      reads this, nc
    {
      wrapper.Some? && !Keyed()
    }

    /** New, once the key name is known. */
    constructor (service: bytes, logicalName: bytes, keyName: bytes, nc: NCrypt, dir: Directory, rng: Random)
      requires nc.Clean() && nc.passportName(logicalName) == Ok(keyName) && ValidUtf8(keyName)
      ensures Valid() && wrapper == None && this.nc == nc && this.dir == dir && this.rng == rng
      ensures serviceName == if service == [] then Ascii("default") else service
    {
      serviceName := if service == [] then Ascii("default") else service;
      this.logicalName, this.keyName, this.nc, this.dir, this.rng := logicalName, keyName, nc, dir, rng;
      wrapper, acquisitions := None, 0;
    }

    /** The cached wrapper stays; without one, at most one is acquired, whose key exists. */
    twostate predicate WrapperKept()
      reads this, nc
    {
      && (old(wrapper).Some? ==> wrapper == old(wrapper))
      && (wrapper != old(wrapper) ==> Keyed())
    }

    method EnsureWrapper() returns (r: Result<PassportKey>)
      requires Valid()
      modifies this, nc
      ensures Valid() && WrapperKept() && nc.Settled() && Ensured(nc, keyName)
      ensures old(wrapper).Some? ==> r.Ok? && nc.trace == old(nc.trace) && nc.persisted == old(nc.persisted)
      ensures r.Ok? ==> wrapper == Some(r.value)
      ensures r.Err? ==> wrapper == old(wrapper) && KeyNotFound !in r.error && nc.faults > old(nc.faults)
    {
      hide Trace.Step, Trace.Replay, Lawful, CreationShape, ValidUtf8;
      if wrapper.Some? {
        return Ok(wrapper.value);
      }
      r := EnsurePassportKey(nc, logicalName, nc.foreground(|nc.trace|));
      if r.Ok? {
        wrapper, acquisitions := Some(r.value), acquisitions + 1;
      }
    }

    method OpenWrapper() returns (r: Result<PassportKey>)
      requires Valid()
      modifies this, nc
      ensures Valid() && WrapperKept() && nc.Settled() && nc.persisted == old(nc.persisted)
      ensures old(wrapper).Some? ==> r.Ok? && nc.trace == old(nc.trace) && nc.faults == old(nc.faults)
      ensures r.Ok? ==> wrapper == Some(r.value)
      ensures r.Err? ==> wrapper == old(wrapper) && KeyNotFound !in r.error
      ensures r.Err? ==> nc.faults > old(nc.faults) || (!Keyed() && r.error == {PassportKeyNotFound})
    {
      hide Trace.Step, Trace.Replay, Lawful, ValidUtf8;
      if wrapper.Some? {
        return Ok(wrapper.value);
      }
      r := OpenPassportKey(nc, logicalName, nc.foreground(|nc.trace|));
      if r.Ok? {
        wrapper, acquisitions := Some(r.value), acquisitions + 1;
      }
    }

    method Get(key: bytes) returns (r: Result<bytes>)
      requires Valid()
      modifies this, nc, dir
      ensures Valid() && WrapperKept() && nc.SettledWith(iset{Trace.Prompt(PAD_PKCS1, PromptText(serviceName, key))})
      ensures dir.blobs == old(dir.blobs) && nc.persisted == old(nc.persisted) && dir.faults >= old(dir.faults)
      ensures r.Ok? ==> View(key) == Some(r.value)
      ensures r.Err? ==> View(key) == None || dir.faults > old(dir.faults) || nc.faults > old(nc.faults)
      ensures r.Err? && KeyNotFound in r.error <==>
                old(dir.Lookup(CredentialName(serviceName, key))) == ELEMENT_NOT_FOUND
      ensures old(dir.Lookup(CredentialName(serviceName, key))) == 0 && !Keyed() && nc.faults == old(nc.faults) ==>
                && r.Err?
                && (old(wrapper).None? ==> r.error == {PassportKeyNotFound})
                && (Addressed(nc.lib, dir.blobs[CredentialName(serviceName, key)], Aad(serviceName, key), keyName) ==>
                      PassportKeyNotFound in r.error)
      ensures old(dir.Lookup(CredentialName(serviceName, key))) != 0 ==>
                wrapper == old(wrapper) && acquisitions == old(acquisitions) && nc.trace == old(nc.trace)
    {
      hide Trace.Step, Trace.Replay, Lawful, ValidUtf8, Aad, Recover, CredentialName, PromptText, Addressed;
      var encoded := Read(dir, serviceName, key);
      if encoded.Err? {
        return Err(encoded.error);
      }
      var got := OpenWrapper();
      if got.Err? {
        return Err(ExistingItemError(got.error));
      }
      var log := new KeyLog();
      r := Decrypt(nc, encoded.value, Aad(serviceName, key), keyName,
                   Some(PassportWrapper(got.value)), PromptText(serviceName, key), log);
      if r.Ok? {
        OpensIsRecover(nc, got.value, encoded.value, Aad(serviceName, key), keyName, r.value);
      }
    }

    /** The encryption of Set, under a cached wrapper. */
    method SealItem(key: bytes, data: array<byte>, w: PassportKey) returns (r: Result<bytes>)
      requires Valid() && wrapper == Some(w)
      modifies nc, rng
      ensures Valid() && nc.Settled() && nc.persisted == old(nc.persisted) && rng.faults >= old(rng.faults)
      ensures r.Ok? ==> Keyed() && Opened(Here(), nc.persisted[keyName].material, key, r.value) == Some(data[..])
      ensures r.Err? ==> KeyNotFound !in r.error
      ensures nc.faults == old(nc.faults) && rng.faults == old(rng.faults) ==>
                && (r.Err? <==> !Keyed())
                && (r.Err? ==> r.error == {WrapFailed, PassportKeyNotFound})
    {
      hide Trace.Step, Trace.Replay, Lawful, ValidUtf8, Aad, Recover, Sealed, SealedByDraws;
      var log := new KeyLog();
      ghost var aad, call := Aad(serviceName, key), rng.calls;
      r := Encrypt(nc, rng, data, Aad(serviceName, key), keyName, Some(PassportWrapper(w)), log);
      if r.Ok? {
        SealedByDrawsIsSealed(nc, PassportWrapper(w), rng, call, data[..], aad, keyName, r.value);
        OpenAfterSeal(nc, w, data[..], aad, keyName, r.value);
      }
    }

    /** Set: without a fault it fails exactly when the cached wrapper's key is gone. */
    method Set(key: bytes, data: array<byte>) returns (r: Result<()>)
      requires Valid()
      modifies this, nc, dir, rng
      ensures Valid() && WrapperKept() && nc.Settled() && Ensured(nc, keyName)
      ensures dir.faults >= old(dir.faults) && rng.faults >= old(rng.faults)
      ensures old(wrapper).Some? ==> nc.persisted == old(nc.persisted)
      ensures r.Ok? ==> View(key) == Some(data[..]) && wrapper.Some? && Keyed() && !old(Stale())
      ensures var n := CredentialName(serviceName, key);
              r.Ok? ==> n in dir.blobs && dir.blobs == old(dir.blobs)[n := dir.blobs[n]]
      ensures r.Err? ==> dir.blobs == old(dir.blobs) && KeyNotFound !in r.error
      ensures nc.faults == old(nc.faults) && dir.faults == old(dir.faults) && rng.faults == old(rng.faults) ==>
                && (r.Err? <==> old(Stale()))
                && (r.Err? ==> r.error == {WrapFailed, PassportKeyNotFound})
    {
      hide Trace.Step, Trace.Replay, Lawful, CreationShape, ValidUtf8, Opened, CredentialName;
      var got := EnsureWrapper();
      if got.Err? {
        return Err(got.error);
      }
      var encoded := SealItem(key, data, got.value);
      if encoded.Err? {
        return Err(encoded.error);
      }
      var code := Write(dir, serviceName, key, encoded.value);
      r := if code != 0 then Err({Status(code)}) else Ok(());
    }

    method Remove(key: bytes) returns (r: Result<()>)
      requires Valid()
      modifies dir
      ensures Valid() && dir.faults >= old(dir.faults)
      ensures r.Ok? ==> CredentialName(serviceName, key) in old(dir.blobs)
      ensures dir.blobs == if r.Ok? then old(dir.blobs) - {CredentialName(serviceName, key)} else old(dir.blobs)
      ensures r.Err? && dir.faults == old(dir.faults) ==>
                r.error == {KeyNotFound} && CredentialName(serviceName, key) !in dir.blobs
    {
      var error := Delete(dir, serviceName, key);
      r := if error.Some? then Err(error.value) else Ok(());
    }

    method Keys() returns (r: Result<seq<bytes>>)
      requires Valid()
      modifies dir
      ensures Valid() && dir.blobs == old(dir.blobs) && dir.faults >= old(dir.faults)
      ensures r.Ok? ==> StrictlySorted(r.value)
      ensures r.Ok? ==> forall k :: k in r.value <==> CredentialName(serviceName, k) in dir.blobs
      ensures r.Err? ==> dir.faults > old(dir.faults)
    {
      r := CredStore.Keys(dir, serviceName);
    }
  }
}
