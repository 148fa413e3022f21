/** The key storage provider behind winhello/ncrypt.go as an environment: which calls fail is
    decided by an arbitrary oracle, every call is recorded, and the monitor of module Trace
    watches the record. */
module NCrypt {
  import opened Bytes
  import opened Errors
  import opened Library
  import opened Trace

  datatype Persisted = Persisted(material: Material, props: map<Property, Value>)

  const PAD_PKCS1: bv32 := 0x00000002
  const INVALID_HANDLE: Code := 0x80090026
  const BAD_KEYSET: Code := 0x80090016
  const EXISTS: Code := 0x8009000F
  const BAD_DATA: Code := 0x80090005

  /** A Passport key name is never empty, and failing to form one is no missing-key error. */
  predicate SoundName(r: Result<bytes>) {
    match r
    case Ok(name) => name != []
    case Err(error) => KeyNotFound !in error && PassportKeyNotFound !in error
  }

  class NCrypt {
    const lib: Library
    const status: nat -> Code                      // outcome forced on the n-th call; 0 lets it proceed
    const keygen: nat -> Material                  // key pair a creation by the n-th call would use
    const padding: nat -> nat                      // padding randomness of the n-th call
    const foreground: nat -> nat                   // winHelloParentHWND() before the n-th call
    const passportName: bytes -> Result<bytes>     // winHelloPassportKeyName for the current user

    var trace: seq<Event>
    var monitor: Option<Monitor>
    var persisted: map<bytes, Persisted>
    var faults: nat                                // calls the oracle made fail

    constructor (lib: Library, status: nat -> Code, keygen: nat -> Material, padding: nat -> nat,
                 foreground: nat -> nat, passportName: bytes -> Result<bytes>, persisted: map<bytes, Persisted>)
      requires Lawful(lib)
      requires forall l: bytes :: SoundName(passportName(l))
      ensures Clean() && trace == [] && monitor == Some(START) && this.persisted == persisted
    {
      this.lib, this.status, this.keygen, this.padding := lib, status, keygen, padding;
      this.foreground, this.passportName, this.persisted := foreground, passportName, persisted;
      trace, monitor, faults := [], Some(START), 0;
    }

    ghost predicate Valid()
      reads this
    {
      && monitor == Replay(trace)
      && (monitor.Some? ==> WellFormed(monitor.value, |trace|))
      && (forall l: bytes :: SoundName(passportName(l)))
      && Lawful(lib)
    }

    /** Valid, and no call so far broke the discipline. */
    ghost predicate Clean()
      reads this
    {
      Valid() && monitor.Some?
    }

    predicate Live(h: Handle)
      reads this
    {
      monitor.Some? && h in monitor.value.live
    }

    predicate LiveKey(h: Handle)
      reads this
    {
      Live(h) && monitor.value.live[h].Key?
    }

    function KeyOf(h: Handle): (o: Object)
      reads this
      requires LiveKey(h)
      ensures o.Key?
    {
      monitor.value.live[h]
    }

    function Unwrapped(h: Handle, input: bytes): Option<bytes>
      reads this
    {
      if LiveKey(h) then lib.unwrap(KeyOf(h).material, input) else None
    }

    /** The use context a prompt for this handle shows. */
    function Shown(h: Handle): bytes
      reads this
    {
      if LiveKey(h) && UseContext in KeyOf(h).props && KeyOf(h).props[UseContext].Str?
      then KeyOf(h).props[UseContext].s else []
    }

    /** The code a call with handle h gets when nothing else is wrong with it. */
    function Outcome(ok: bool, otherwise: Code): Code
      reads this
    {
      if status(|trace|) != 0 then status(|trace|) else if ok then 0 else otherwise
    }

    function DecryptOutcome(h: Handle, input: bytes): Code
      reads this
    {
      Outcome(Unwrapped(h, input).Some?, BAD_DATA)
    }

    /** What every call does: it is recorded, watched, and counted if the oracle failed it. */
    twostate predicate Recorded(e: Event)
      reads this
    {
      && Valid()
      && trace == old(trace) + [e]
      && monitor == After(old(monitor), |old(trace)|, e)
      && faults == old(faults) + (if status(|old(trace)|) != 0 then 1 else 0)
    }

    /** More calls were made, all of them disciplined; private-key decrypts among them only as
        allowed. */
    twostate predicate AdvancedWith(allowed: iset<Prompt>)
      reads this
    {
      && Clean() && old(monitor).Some?
      && old(trace) <= trace && old(faults) <= faults
      && (forall i | |old(trace)| <= i < |trace| :: trace[i].Decrypt? ==> trace[i].prompt in allowed)
      && ((forall i: nat | |old(trace)| <= i < |trace| :: status(i) == 0) ==> faults == old(faults))
    }

    twostate predicate Advanced()
      reads this
    {
      AdvancedWith(iset{})
    }

    /** An operation kept the discipline and gave back every handle it acquired. */
    twostate predicate SettledWith(allowed: iset<Prompt>)
      reads this
    {
      AdvancedWith(allowed) && monitor.value.live == old(monitor).value.live
    }

    twostate predicate Settled()
      reads this
    {
      SettledWith(iset{})
    }

    method Record(e: Event)
      requires Valid()
      modifies this
      ensures Recorded(e)
      ensures persisted == old(persisted)
    {
      ReplayPush(trace, e);
      if monitor.Some? { StepKeepsForm(monitor.value, |trace|, e); }
      monitor := After(monitor, |trace|, e);
      faults := faults + if status(|trace|) != 0 then 1 else 0;
      trace := trace + [e];
    }

    method OpenStorageProvider() returns (code: Code, h: Handle)
      requires Valid()
      modifies this
      ensures persisted == old(persisted)
      ensures code == old(status(|trace|)) && h == |old(trace)| + 1
      ensures Recorded(if code == 0 then OpenProvider(h) else OpenProviderFailed(code))
    {
      code, h := status(|trace|), |trace| + 1;
      Record(if code == 0 then OpenProvider(h) else OpenProviderFailed(code));
    }

    method OpenKeyByName(provider: Handle, name: bytes) returns (code: Code, h: Handle)
      requires Valid()
      modifies this
      ensures persisted == old(persisted)
      ensures code == old(Outcome(Live(provider) && name in persisted,
                                  if Live(provider) then BAD_KEYSET else INVALID_HANDLE))
      ensures h == |old(trace)| + 1
      ensures code == 0 ==> name in old(persisted)
      ensures code == 0 ==> Recorded(OpenKey(h, provider, name, old(persisted)[name].material))
      ensures code != 0 ==> Recorded(OpenKeyFailed(provider, name, code))
    {
      code := Outcome(Live(provider) && name in persisted, if Live(provider) then BAD_KEYSET else INVALID_HANDLE);
      h := |trace| + 1;
      if code == 0 {
        Record(OpenKey(h, provider, name, persisted[name].material));
      } else {
        Record(OpenKeyFailed(provider, name, code));
      }
    }

    /** Without the overwrite flag a name that is taken is refused. */
    method CreatePersistedKey(provider: Handle, name: bytes) returns (code: Code, h: Handle)
      requires Valid()
      modifies this
      ensures persisted == old(persisted)
      ensures code == old(Outcome(Live(provider) && name !in persisted,
                                  if Live(provider) then EXISTS else INVALID_HANDLE))
      ensures h == |old(trace)| + 1
      ensures Recorded(if code == 0 then CreateKey(h, provider, name, keygen(|old(trace)|))
                       else CreateKeyFailed(provider, name, code))
    {
      code := Outcome(Live(provider) && name !in persisted, if Live(provider) then EXISTS else INVALID_HANDLE);
      h := |trace| + 1;
      Record(if code == 0 then CreateKey(h, provider, name, keygen(|trace|))
             else CreateKeyFailed(provider, name, code));
    }

    method Set(h: Handle, property: Property, value: Value) returns (code: Code)
      requires Valid()
      modifies this
      ensures persisted == old(persisted)
      ensures code == old(Outcome(Live(h), INVALID_HANDLE))
      ensures Recorded(SetProperty(h, property, value, code))
    {
      code := Outcome(Live(h), INVALID_HANDLE);
      Record(SetProperty(h, property, value, code));
    }

    /** The key becomes persistent, with the properties set on the handle so far. */
    method FinalizeKey(h: Handle) returns (code: Code)
      requires Valid()
      modifies this
      ensures code == old(Outcome(LiveKey(h) && KeyOf(h).name !in persisted, EXISTS))
      ensures Recorded(Finalize(h, code))
      ensures code != 0 ==> persisted == old(persisted)
      ensures code == 0 ==> old(LiveKey(h))
      ensures code == 0 ==> persisted == old(persisted[KeyOf(h).name := Persisted(KeyOf(h).material, KeyOf(h).props)])
    {
      code := Outcome(LiveKey(h) && KeyOf(h).name !in persisted, EXISTS);
      var p := persisted;
      if code == 0 {
        var k := KeyOf(h);
        p := p[k.name := Persisted(k.material, k.props)];
      }
      Record(Finalize(h, code));
      persisted := p;
    }

    method EncryptWith(h: Handle, input: bytes) returns (code: Code, output: bytes)
      requires Valid()
      modifies this
      ensures persisted == old(persisted)
      ensures code == old(Outcome(LiveKey(h), INVALID_HANDLE))
      ensures Recorded(Encrypt(h, code))
      ensures code == 0 ==> old(LiveKey(h))
      ensures code == 0 ==> output == lib.wrap(old(KeyOf(h).material), padding(|old(trace)|), input)
    {
      code := Outcome(LiveKey(h), INVALID_HANDLE);
      output := if code == 0 then lib.wrap(KeyOf(h).material, padding(|trace|), input) else [];
      Record(Encrypt(h, code));
    }

    method DecryptWith(h: Handle, input: bytes, flags: bv32) returns (code: Code, output: bytes)
      requires Valid()
      modifies this
      ensures persisted == old(persisted)
      ensures code == old(DecryptOutcome(h, input))
      ensures Recorded(Decrypt(h, Prompt(flags, old(Shown(h))), code))
      ensures code == 0 ==> Some(output) == old(Unwrapped(h, input))
    {
      code := DecryptOutcome(h, input);
      output := if code == 0 then Unwrapped(h, input).value else [];
      Record(Decrypt(h, Prompt(flags, Shown(h)), code));
    }

    /** The call is made whatever comes back; the code is the provider's answer to it. */
    method FreeObject(h: Handle) returns (code: Code)
      requires Valid()
      modifies this
      ensures persisted == old(persisted)
      ensures code == old(Outcome(Live(h), INVALID_HANDLE))
      ensures Recorded(Free(h, code))
    {
      code := Outcome(Live(h), INVALID_HANDLE);
      Record(Free(h, code));
    }

    /** Somebody else deletes a persisted key. */
    method LoseKey(name: bytes)
      requires Clean()
      modifies this`persisted
      ensures Clean() && persisted == old(persisted) - {name}
    {
      persisted := persisted - {name};
    }
  }
}
