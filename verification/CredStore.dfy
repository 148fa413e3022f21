/** The credential store of winhello/store.go over the Windows credential directory. */
module CredStore {
  import opened Bytes
  import opened Errors
  import opened Naming

  type Code = nat
  const ELEMENT_NOT_FOUND: Code := 1168

  /** The credential directory: an exact-string map whose calls an oracle may fail. */
  class Directory {
    const status: nat -> Code
    var blobs: map<bytes, bytes>
    var calls: nat
    var faults: nat

    constructor (status: nat -> Code, blobs: map<bytes, bytes>)
      ensures this.blobs == blobs
    {
      this.status, this.blobs, calls, faults := status, blobs, 0, 0;
    }

    /** The code the next call on this target gets. */
    function Lookup(target: bytes): Code
      reads this
    {
      if status(calls) != 0 then status(calls) else if target in blobs then 0 else ELEMENT_NOT_FOUND
    }

    twostate predicate Counted()
      reads this
    {
      calls == old(calls) + 1 && faults == old(faults) + if status(old(calls)) != 0 then 1 else 0
    }

    method Get(target: bytes) returns (code: Code, blob: bytes)
      modifies this
      ensures Counted() && blobs == old(blobs)
      ensures code == old(Lookup(target))
      ensures code == 0 ==> target in blobs && blob == blobs[target]
    {
      code := Lookup(target);
      blob := if code == 0 then blobs[target] else [];
      Count();
    }

    method Write(target: bytes, blob: bytes) returns (code: Code)
      modifies this
      ensures Counted() && code == status(old(calls))
      ensures blobs == if code == 0 then old(blobs)[target := blob] else old(blobs)
    {
      code := status(calls);
      if code == 0 { blobs := blobs[target := blob]; }
      Count();
    }

    method Delete(target: bytes) returns (code: Code)
      modifies this
      ensures Counted() && code == old(Lookup(target))
      ensures blobs == if code == 0 then old(blobs) - {target} else old(blobs)
    {
      code := Lookup(target);
      if code == 0 { blobs := blobs - {target}; }
      Count();
    }

    /** Every target once, in an order of the system's choosing. */
    method List() returns (code: Code, targets: seq<bytes>)
      modifies this
      ensures Counted() && blobs == old(blobs)
      ensures code == status(old(calls))
      ensures Distinct(targets) && forall t :: t in targets <==> t in blobs
    {
      code, targets := status(calls), [];
      var rest := blobs.Keys;
      while rest != {}
        invariant forall t :: t in blobs <==> t in rest || t in targets
        invariant forall t | t in targets :: t !in rest
        invariant Distinct(targets)
        invariant unchanged(this)
      {
        var t :| t in rest;
        targets, rest := targets + [t], rest - {t};
      }
      Count();
    }

    method Count()
      modifies this`calls, this`faults
      ensures Counted()
    {
      faults := faults + if status(calls) != 0 then 1 else 0;
      calls := calls + 1;
    }
  }

  function StoreError(code: Code): Error {
    if code == ELEMENT_NOT_FOUND then {KeyNotFound} else {Status(code)}
  }

  method Read(dir: Directory, service: bytes, key: bytes) returns (r: Result<bytes>)
    modifies dir
    ensures dir.Counted() && dir.blobs == old(dir.blobs)
    ensures var code := old(dir.Lookup(CredentialName(service, key)));
            r == if code == 0 then Ok(dir.blobs[CredentialName(service, key)]) else Err(StoreError(code))
    ensures r.Err? && KeyNotFound in r.error <==> old(dir.Lookup(CredentialName(service, key))) == 1168
  {
    var code, blob := dir.Get(CredentialName(service, key));
    r := if code != 0 then Err(StoreError(code)) else Ok(blob);
  }

  method Write(dir: Directory, service: bytes, key: bytes, data: bytes) returns (code: Code)
    modifies dir
    ensures dir.Counted() && code == dir.status(old(dir.calls))
    ensures dir.blobs == if code == 0 then old(dir.blobs)[CredentialName(service, key) := data] else old(dir.blobs)
  {
    code := dir.Write(CredentialName(service, key), data);
  }

  /** Looks the credential up and then deletes it; either call may report it missing. */
  method Delete(dir: Directory, service: bytes, key: bytes) returns (r: Option<Error>)
    modifies dir
    ensures dir.faults >= old(dir.faults)
    ensures r.None? ==> CredentialName(service, key) in old(dir.blobs)
    ensures dir.blobs == if r.None? then old(dir.blobs) - {CredentialName(service, key)} else old(dir.blobs)
    ensures r.Some? && dir.faults == old(dir.faults) ==>
              r == Some({KeyNotFound}) && CredentialName(service, key) !in dir.blobs
    ensures var code := old(dir.Lookup(CredentialName(service, key)));
            var again := dir.status(old(dir.calls) + 1);
      && r == (if code != 0 then Some(StoreError(code)) else if again != 0 then Some(StoreError(again)) else None)
      && (r.Some? && KeyNotFound in r.value <==> code == 1168 || (code == 0 && again == 1168))
  {
    var target := CredentialName(service, key);
    var code, _ := dir.Get(target);
    if code != 0 {
      return Some(StoreError(code));
    }
    code := dir.Delete(target);
    r := if code != 0 then Some(StoreError(code)) else None;
  }

  /** The part of each listed target behind the prefix, for the targets that carry it. */
  function KeysUnder(targets: seq<bytes>, prefix: bytes): seq<bytes> {
    if targets == [] then []
    else
      var n := |targets| - 1;
      KeysUnder(targets[..n], prefix) + if HasPrefix(targets[n], prefix) then [TrimPrefix(targets[n], prefix)] else []
  }

  lemma {:induction false} KeysUnderMembers(targets: seq<bytes>, prefix: bytes, k: bytes)
    ensures k in KeysUnder(targets, prefix) <==> prefix + k in targets
  {
    if targets != [] {
      var n := |targets| - 1;
      KeysUnderMembers(targets[..n], prefix, k);
      PrefixOfConcat(prefix, k);
      if HasPrefix(targets[n], prefix) { PrefixSplit(targets[n], prefix); }
      assert targets == targets[..n] + [targets[n]];
    }
  }

  lemma {:induction false} KeysUnderDistinct(targets: seq<bytes>, prefix: bytes)
    requires Distinct(targets)
    ensures Distinct(KeysUnder(targets, prefix))
  {
    if targets != [] {
      var n := |targets| - 1;
      KeysUnderDistinct(targets[..n], prefix);
      if HasPrefix(targets[n], prefix) {
        var k := TrimPrefix(targets[n], prefix);
        PrefixSplit(targets[n], prefix);
        KeysUnderMembers(targets[..n], prefix, k);
      }
    }
  }

  /** Keys: in ascending order, each once, exactly the keys whose credentials exist. */
  method Keys(dir: Directory, service: bytes) returns (r: Result<seq<bytes>>)
    modifies dir
    ensures dir.Counted() && dir.blobs == old(dir.blobs)
    ensures r.Ok? ==> StrictlySorted(r.value)
    ensures r.Ok? ==> forall k :: k in r.value <==> CredentialName(service, k) in dir.blobs
    ensures r.Err? ==> dir.faults > old(dir.faults)
  {
    var code, targets := dir.List();
    if code != 0 {
      return Err({Status(code)});
    }
    var prefix := NamePrefix(service);
    var results: seq<bytes> := [];
    for i := 0 to |targets|
      invariant results == KeysUnder(targets[..i], prefix)
    {
      if HasPrefix(targets[i], prefix) {
        results := results + [TrimPrefix(targets[i], prefix)];
      }
      assert targets[..i + 1][..i] == targets[..i];
    }
    assert targets[..|targets|] == targets;
    KeysUnderDistinct(targets, prefix);
    SortedIsStrict(results);
    SortedMembers(results);
    forall k ensures k in results <==> CredentialName(service, k) in dir.blobs {
      KeysUnderMembers(targets, prefix, k);
    }
    r := Ok(Sorted(results));
  }
}
