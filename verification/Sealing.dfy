/** Sealing and opening envelopes, winhello/crypto.go: byte buffers that hold content keys are
    arrays, so that overwriting and zeroing them is visible. */
module Sealing {
  import opened Bytes
  import opened Errors
  import opened Json
  import opened Naming
  import opened Envelopes
  import opened Library
  import Trace
  import opened NCrypt
  import opened Passport

  /** The buffers through which content keys and nonces went: those the random reader filled, one
      per draw, and those handed to a key wrapper or received from it.  Only contracts look at it. */
  class KeyLog {
    ghost var draws: seq<array<byte>>
    ghost var wrapped: set<array<byte>>

    constructor ()
      ensures draws == [] && wrapped == {}
    {
      draws, wrapped := [], {};
    }
  }

  /** crypto/rand.Reader; a failing read may leave anything in the buffer. */
  class Random {
    const stream: (nat, nat) -> byte   // byte i of the n-th draw
    const noise: (nat, nat) -> byte    // what a failing draw leaves behind
    const fails: nat -> bool
    var calls: nat
    var faults: nat

    constructor (stream: (nat, nat) -> byte, noise: (nat, nat) -> byte, fails: nat -> bool)
      ensures this.stream == stream && this.noise == noise && this.fails == fails && calls == 0
    {
      this.stream, this.noise, this.fails, calls, faults := stream, noise, fails, 0, 0;
    }

    /** The first bytes of a draw. */
    function Draw(call: nat, length: nat): (r: bytes)
      ensures |r| == length
    {
      seq(length, i requires 0 <= i < length => stream(call, i))
    }

    method ReadFull(buffer: array<byte>, log: KeyLog) returns (ok: bool)
      modifies this, buffer, log
      ensures calls == old(calls) + 1 && ok == !fails(old(calls))
      ensures faults == old(faults) + if ok then 0 else 1
      ensures ok ==> buffer[..] == Draw(old(calls), buffer.Length)
      ensures log.draws == old(log.draws) + [buffer] && log.wrapped == old(log.wrapped)
    {
      log.draws := log.draws + [buffer];
      ok := !fails(calls);
      for i := 0 to buffer.Length
        modifies buffer
        invariant ok ==> forall j | 0 <= j < i :: buffer[j] == stream(calls, j)
      {
        buffer[i] := if ok then stream(calls, i) else noise(calls, i);
      }
      faults := faults + if ok then 0 else 1;
      calls := calls + 1;
    }
  }

  /** The winHelloKeyWrapper interface: the Passport key, or any other implementation, which
      may also overwrite the buffer it is given. */
  datatype KeyWrapper =
    | PassportWrapper(key: PassportKey)
    | OtherWrapper(wrap: bytes -> Result<bytes>, unwrap: bytes -> Result<bytes>, scribble: nat -> byte)

  ghost predicate WrapsTo(nc: NCrypt, w: KeyWrapper, cek: bytes, wrapped: bytes)
    reads nc
  {
    match w
    case PassportWrapper(key) => Named(Some(key)) && IsWrapOf(nc, key.keyName, cek, wrapped)
    case OtherWrapper(wrap, _, _) => wrap(cek) == Ok(wrapped)
  }

  ghost predicate UnwrapsTo(nc: NCrypt, w: KeyWrapper, wrapped: bytes, cek: bytes)
    reads nc
  {
    match w
    case PassportWrapper(key) =>
      && |cek| == CEK_SIZE && key.keyName in nc.persisted
      && nc.lib.unwrap(nc.persisted[key.keyName].material, wrapped) == Some(cek)
    case OtherWrapper(_, unwrap, _) => unwrap(wrapped) == Ok(cek)
  }

  /** A Passport key descriptor, as the backend caches it. */
  predicate Working(w: KeyWrapper) {
    w.PassportWrapper? && Named(Some(w.key))
  }

  /** Its key is persisted. */
  ghost predicate Ready(nc: NCrypt, w: KeyWrapper)
    reads nc
  {
    Working(w) && w.key.keyName in nc.persisted
  }

  ghost predicate Zeroed(a: array<byte>)
    reads a
  {
    forall i | 0 <= i < a.Length :: a[i] == 0
  }

  method ZeroBytes(buffer: array<byte>)
    modifies buffer
    ensures Zeroed(buffer)
  {
    for i := 0 to buffer.Length
      invariant forall j | 0 <= j < i :: buffer[j] == 0
    {
      buffer[i] := 0;
    }
  }

  /** wrapper.WrapKey: nothing is promised about the buffer afterwards. */
  method WrapThrough(nc: NCrypt, w: KeyWrapper, buffer: array<byte>, log: KeyLog) returns (r: Result<bytes>)
    requires nc.Clean()
    modifies nc, buffer, log
    ensures log.wrapped == old(log.wrapped) + {buffer} && log.draws == old(log.draws)
    ensures nc.Settled() && nc.persisted == old(nc.persisted)
    ensures r.Ok? ==> WrapsTo(nc, w, old(buffer[..]), r.value)
    ensures r.Err? && w.PassportWrapper? ==> KeyNotFound !in r.error
    ensures r.Err? && Working(w) && buffer.Length == CEK_SIZE && nc.faults == old(nc.faults) ==>
              r.error == {PassportKeyNotFound} && !Ready(nc, w)
    ensures r.Ok? && w.PassportWrapper? ==> r.value != []
  {
    hide Trace.Step, Trace.Replay;
    log.wrapped := log.wrapped + {buffer};
    match w
    case PassportWrapper(key) =>
      r := WrapKey(nc, Some(key), buffer);
    case OtherWrapper(wrap, _, scribble) =>
      r := wrap(buffer[..]);
      for i := 0 to buffer.Length
        modifies buffer
      {
        buffer[i] := scribble(i);
      }
  }

  /** wrapper.UnwrapKey: the caller gets a buffer of its own. */
  method UnwrapThrough(nc: NCrypt, w: KeyWrapper, wrapped: bytes, context: bytes, log: KeyLog)
    returns (r: Result<array<byte>>)
    requires nc.Clean()
    modifies nc, log
    ensures log.wrapped == old(log.wrapped) + (if r.Ok? then {r.value} else {}) && log.draws == old(log.draws)
    ensures nc.SettledWith(iset{Trace.Prompt(PAD_PKCS1, ShownContext(context))}) && nc.persisted == old(nc.persisted)
    ensures r.Ok? ==> fresh(r.value) && UnwrapsTo(nc, w, wrapped, r.value[..])
    ensures w.OtherWrapper? ==>
              (r.Err? <==> w.unwrap(wrapped).Err?) && (r.Err? ==> r.error == w.unwrap(wrapped).error)
    ensures r.Err? && w.PassportWrapper? ==> KeyNotFound !in r.error
    ensures r.Err? && Working(w) && nc.faults == old(nc.faults) ==>
              if Ready(nc, w) then !UnwrapsToCek(nc.lib, nc.persisted[w.key.keyName].material, wrapped)
              else r.error == {PassportKeyNotFound}
  {
    hide Trace.Step, Trace.Replay;
    match w
    case PassportWrapper(key) =>
      r := UnwrapKey(nc, Some(key), wrapped, context);
      if r.Ok? {
        log.wrapped := log.wrapped + {r.value};
      }
    case OtherWrapper(_, unwrap, _) =>
      var got := unwrap(wrapped);
      if got.Err? {
        return Err(got.error);
      }
      var buffer := new byte[|got.value|](i requires 0 <= i < |got.value| => got.value[i]);
      assert buffer[..] == got.value;
      log.wrapped := log.wrapped + {buffer};
      r := Ok(buffer);
  }

  // ---- encryption ----

  function NewEnvelope(keyName: bytes, nonce: bytes, wrappedCek: bytes, ciphertext: bytes, aad: bytes): Envelope {
    Envelope(VERSION, PassportProvider(), keyName, Aes256Gcm(), RsaPkcs1(), nonce, wrappedCek, ciphertext, aad)
  }

  lemma NewEnvelopeIsValid(l: Library, keyName: bytes, cek: bytes, nonce: bytes, wrapped: bytes, plaintext: bytes,
                           aad: bytes)
    requires Lawful(l) && |cek| == CEK_SIZE && |nonce| == NONCE_SIZE && keyName != [] && wrapped != [] && aad != []
    ensures Marshal(NewEnvelope(keyName, nonce, wrapped, l.seal(cek, nonce, plaintext, aad), aad)).Ok?
  {
    assert |l.seal(cek, nonce, plaintext, aad)| == |plaintext| + 16;
  }

  /** The text stores this plaintext, sealed under one 32-byte key that the wrapper wrapped. */
  ghost predicate SealedWith(nc: NCrypt, w: KeyWrapper, plaintext: bytes, aad: bytes, keyName: bytes, text: bytes,
                             cek: bytes, nonce: bytes, wrapped: bytes)
    reads nc
  {
    && |cek| == 32 && |nonce| == 12 && WrapsTo(nc, w, cek, wrapped)
    && Marshal(NewEnvelope(keyName, nonce, wrapped, nc.lib.seal(cek, nonce, plaintext, aad), aad)) == Ok(text)
  }

  ghost predicate Sealed(nc: NCrypt, w: KeyWrapper, plaintext: bytes, aad: bytes, keyName: bytes, text: bytes)
    reads nc
  {
    exists cek: bytes, nonce: bytes, wrapped: bytes ::
      SealedWith(nc, w, plaintext, aad, keyName, text, cek, nonce, wrapped)
  }

  /** The same, with the content key and the nonce of two particular draws. */
  ghost predicate SealedByDraws(nc: NCrypt, w: KeyWrapper, rng: Random, call: nat, plaintext: bytes, aad: bytes,
                                keyName: bytes, text: bytes)
    reads nc
  {
    var cek, nonce := rng.Draw(call, CEK_SIZE), rng.Draw(call + 1, NONCE_SIZE);
    exists wrapped: bytes :: SealedWith(nc, w, plaintext, aad, keyName, text, cek, nonce, wrapped)
  }

  lemma SealedByDrawsIsSealed(nc: NCrypt, w: KeyWrapper, rng: Random, call: nat, plaintext: bytes, aad: bytes,
                              keyName: bytes, text: bytes)
    requires SealedByDraws(nc, w, rng, call, plaintext, aad, keyName, text)
    ensures Sealed(nc, w, plaintext, aad, keyName, text)
  {
    hide SealedWith;
  }

  /** The part of encryptWinHelloEnvelope behind the two draws: the wrapper gets a clone of the
      key, which is zero on every exit. */
  method SealAndWrap(nc: NCrypt, w: KeyWrapper, cek: array<byte>, nonce: array<byte>, plaintext: array<byte>,
                     aad: bytes, keyName: bytes, log: KeyLog) returns (r: Result<bytes>)
    requires nc.Clean() && cek.Length == CEK_SIZE && nonce.Length == NONCE_SIZE && aad != [] && keyName != []
    modifies nc, log
    ensures nc.Settled() && nc.persisted == old(nc.persisted) && log.draws == old(log.draws)
    ensures forall b | b in log.wrapped - old(log.wrapped) :: fresh(b) && Zeroed(b)
    ensures r.Ok? ==> exists wrapped: bytes ::
              SealedWith(nc, w, plaintext[..], aad, keyName, r.value, cek[..], nonce[..], wrapped)
    ensures r.Err? && w.PassportWrapper? ==> KeyNotFound !in r.error
    ensures r.Err? && Working(w) && nc.faults == old(nc.faults) ==>
              r.error == {WrapFailed, PassportKeyNotFound} && !Ready(nc, w)
  {
    hide Trace.Step, Trace.Replay, Trace.WellFormed, Marshal, Lawful, WrapsTo, NewEnvelope, SoundName;
    var ciphertext := nc.lib.seal(cek[..], nonce[..], plaintext[..], aad);
    var wrapInput := new byte[CEK_SIZE](i requires 0 <= i < CEK_SIZE reads cek => cek[i]);
    ghost var key, once, text := cek[..], nonce[..], plaintext[..];
    assert wrapInput[..] == key;
    var wrapped := WrapThrough(nc, w, wrapInput, log);
    if wrapped.Err? {
      r := Err({WrapFailed} + wrapped.error);
    } else {
      if wrapped.value != [] {
        NewEnvelopeIsValid(nc.lib, keyName, key, once, wrapped.value, text, aad);
      }
      r := Marshal(NewEnvelope(keyName, nonce[..], wrapped.value, ciphertext, aad));
      assert r.Ok? ==> SealedWith(nc, w, text, aad, keyName, r.value, key, once, wrapped.value);
    }
    ZeroBytes(wrapInput);
    assert cek[..] == key && nonce[..] == once && plaintext[..] == text;
    if r.Ok? {
      assert SealedWith(nc, w, plaintext[..], aad, keyName, r.value, cek[..], nonce[..], wrapped.value);
    }
  }

  /** encryptWinHelloEnvelope: seals under a new content key, the first draw, and a new nonce, the
      second.  On every exit the drawn key is zero and so is whatever the wrapper was given; no
      buffer of the caller is in the frame. */
  method Encrypt(nc: NCrypt, rng: Random, plaintext: array<byte>, aad: bytes, keyName: bytes,
                 wrapper: Option<KeyWrapper>, log: KeyLog)
    returns (r: Result<bytes>)
    requires nc.Clean()
    modifies nc, rng, log
    ensures nc.Settled() && nc.persisted == old(nc.persisted) && rng.faults >= old(rng.faults)
    ensures old(log.draws) <= log.draws && rng.calls - old(rng.calls) == |log.draws| - |old(log.draws)| <= 2
    ensures forall b | b in log.wrapped - old(log.wrapped) :: fresh(b) && Zeroed(b)
    ensures rng.calls > old(rng.calls) ==> fresh(log.draws[|old(log.draws)|]) && Zeroed(log.draws[|old(log.draws)|])
    ensures wrapper == None ==> r == Err({KeyWrapperMissing})
    ensures wrapper != None && |aad| == 0 ==> r == Err({MissingAad})
    ensures wrapper != None && |aad| > 0 && |keyName| == 0 ==> r == Err({NoKeyName})
    ensures (wrapper != None && |aad| > 0 && |keyName| > 0
             && (rng.fails(old(rng.calls)) || rng.fails(old(rng.calls) + 1))) ==> r == Err({RandomFailed})
    ensures r.Ok? ==> wrapper.Some?
    ensures r.Ok? ==> SealedByDraws(nc, wrapper.value, rng, old(rng.calls), plaintext[..], aad, keyName, r.value)
    ensures r.Err? && wrapper.Some? && wrapper.value.PassportWrapper? ==> KeyNotFound !in r.error
    ensures r.Err? && wrapper.Some? && Working(wrapper.value) && aad != [] && keyName != []
            && nc.faults == old(nc.faults) && rng.faults == old(rng.faults) ==>
              r.error == {WrapFailed, PassportKeyNotFound} && !Ready(nc, wrapper.value)
  {
    hide Trace.Step, Trace.Replay, Trace.WellFormed, Lawful, SealedWith, SoundName;
    if wrapper.None? { return Err({KeyWrapperMissing}); }
    if aad == [] { return Err({MissingAad}); }
    if keyName == [] { return Err({NoKeyName}); }

    var cek := new byte[CEK_SIZE];
    var ok := rng.ReadFull(cek, log);
    if !ok {
      ZeroBytes(cek);
      return Err({RandomFailed});
    }
    var nonce := new byte[NONCE_SIZE];
    ok := rng.ReadFull(nonce, log);
    if !ok {
      ZeroBytes(cek);
      return Err({RandomFailed});
    }
    r := SealAndWrap(nc, wrapper.value, cek, nonce, plaintext, aad, keyName, log);
    ZeroBytes(cek);
  }

  // ---- decryption ----

  predicate AesKeySize(n: int) { n == 16 || n == 24 || n == 32 }

  /** The stored envelope parses and names this key and this AAD. */
  predicate Addressed(l: Library, encoded: bytes, aad: bytes, keyName: bytes) {
    && Parse(l.unmarshal, encoded).Ok?
    && Parse(l.unmarshal, encoded).value.keyName == keyName
    && Parse(l.unmarshal, encoded).value.aad == aad
  }

  ghost predicate OpensWith(nc: NCrypt, w: KeyWrapper, encoded: bytes, aad: bytes, keyName: bytes, plaintext: bytes,
                            cek: bytes)
    reads nc
  {
    && Addressed(nc.lib, encoded, aad, keyName) && AesKeySize(|cek|)
    && var e := Parse(nc.lib.unmarshal, encoded).value;
       UnwrapsTo(nc, w, e.wrappedCek, cek) && nc.lib.open(cek, e.nonce, e.ciphertext, aad) == Some(plaintext)
  }

  /** What the provider's key of the given material makes of a stored envelope. */
  function Recover(l: Library, material: Material, encoded: bytes, aad: bytes, keyName: bytes): Option<bytes> {
    if !Addressed(l, encoded, aad, keyName) then None
    else
      var e := Parse(l.unmarshal, encoded).value;
      match l.unwrap(material, e.wrappedCek)
      case None => None
      case Some(cek) => if |cek| == CEK_SIZE then l.open(cek, e.nonce, e.ciphertext, aad) else None
  }

  /** What is refused before the wrapper is called, and why; syntax errors are left to the reader. */
  function RefusedFirst(l: Library, encoded: bytes, aad: bytes, keyName: bytes, w: Option<KeyWrapper>): Option<Sentinel>
  {
    var p := Parse(l.unmarshal, encoded);
    if w == None then Some(KeyWrapperMissing)
    else if |aad| == 0 then Some(MissingAad)
    else if |keyName| == 0 then Some(NoKeyName)
    else if p.Err? then if l.unmarshal(encoded) == None then Some(JsonSyntax) else Validate(l.unmarshal(encoded).value)
    else if p.value.keyName != keyName then Some(KeyNameMismatch)
    else if p.value.aad != aad then Some(AadMismatch)
    else None
  }

  /** What decrypting an accepted envelope yields through a wrapper that is not the Passport key. */
  function OtherOutcome(l: Library, unwrap: bytes -> Result<bytes>, e: Envelope): Result<bytes> {
    match unwrap(e.wrappedCek)
    case Err(error) => Err({UnwrapFailed} + error)
    case Ok(cek) =>
      if |cek| !in {16, 24, 32} then Err({DecryptFailed})
      else match l.open(cek, e.nonce, e.ciphertext, e.aad)
        case None => Err({DecryptFailed})
        case Some(plaintext) => Ok(plaintext)
  }

  /** decryptWinHelloEnvelope: on every exit whatever the wrapper returned is zero. */
  method Decrypt(nc: NCrypt, encoded: bytes, aad: bytes, expectedKeyName: bytes, wrapper: Option<KeyWrapper>,
                 context: bytes, log: KeyLog)
    returns (r: Result<bytes>)
    requires nc.Clean()
    modifies nc, log
    ensures nc.SettledWith(iset{Trace.Prompt(PAD_PKCS1, ShownContext(context))}) && nc.persisted == old(nc.persisted)
    ensures forall b | b in log.wrapped - old(log.wrapped) :: fresh(b) && Zeroed(b)
    ensures RefusedFirst(nc.lib, encoded, aad, expectedKeyName, wrapper).Some? ==>
              r == Err({RefusedFirst(nc.lib, encoded, aad, expectedKeyName, wrapper).value})
    ensures wrapper.Some? && wrapper.value.OtherWrapper? && aad != [] && expectedKeyName != []
            && Addressed(nc.lib, encoded, aad, expectedKeyName) ==>
              r == OtherOutcome(nc.lib, wrapper.value.unwrap, Parse(nc.lib.unmarshal, encoded).value)
    ensures r.Ok? ==> wrapper.Some?
    ensures r.Ok? ==> exists cek :: OpensWith(nc, wrapper.value, encoded, aad, expectedKeyName, r.value, cek)
    ensures !Addressed(nc.lib, encoded, aad, expectedKeyName) ==> r.Err? && nc.trace == old(nc.trace)
    ensures !Addressed(nc.lib, encoded, aad, expectedKeyName) ==> log.wrapped == old(log.wrapped)
    ensures r.Err? && wrapper.Some? && wrapper.value.PassportWrapper? ==> KeyNotFound !in r.error
    ensures wrapper.Some? && Working(wrapper.value) && !Ready(nc, wrapper.value) && aad != [] && expectedKeyName != []
            && Addressed(nc.lib, encoded, aad, expectedKeyName) && nc.faults == old(nc.faults) ==>
              r == Err({UnwrapFailed, PassportKeyNotFound})
    ensures r.Err? && wrapper.Some? && Ready(nc, wrapper.value) && aad != [] && expectedKeyName != [] ==>
              || nc.faults > old(nc.faults)
              || Recover(nc.lib, nc.persisted[wrapper.value.key.keyName].material, encoded, aad, expectedKeyName)
                 == None
  {
    hide Trace.Step, Trace.Replay, Lawful, Validate;
    if wrapper.None? { return Err({KeyWrapperMissing}); }
    if aad == [] { return Err({MissingAad}); }
    if expectedKeyName == [] { return Err({NoKeyName}); }

    var parsed := Parse(nc.lib.unmarshal, encoded);
    ParseFacts(nc.lib.unmarshal, encoded);
    if parsed.Err? {
      return Err(parsed.error);
    }
    var envelope := parsed.value;
    if envelope.keyName != expectedKeyName { return Err({KeyNameMismatch}); }
    if envelope.aad != aad { return Err({AadMismatch}); }

    var unwrapped := UnwrapThrough(nc, wrapper.value, envelope.wrappedCek, context, log);
    if unwrapped.Err? {
      return Err({UnwrapFailed} + unwrapped.error);
    }
    var cek := unwrapped.value;
    ghost var secret := cek[..];
    if !AesKeySize(cek.Length) {
      r := Err({DecryptFailed});
    } else {
      var plaintext := nc.lib.open(cek[..], envelope.nonce, envelope.ciphertext, aad);
      r := if plaintext.None? then Err({DecryptFailed}) else Ok(plaintext.value);
    }
    ZeroBytes(cek);
    assert r.Ok? ==> OpensWith(nc, wrapper.value, encoded, aad, expectedKeyName, r.value, secret);
  }

  lemma ParseFacts(unmarshal: bytes -> Option<Envelope>, data: bytes)
    ensures Parse(unmarshal, data).Err? ==> KeyNotFound !in Parse(unmarshal, data).error
    ensures Parse(unmarshal, data).Ok? ==> Parse(unmarshal, data).value.wrappedCek != []
  {
  }

  /** With the Passport key, what Decrypt may return is what Recover says. */
  lemma OpensIsRecover(nc: NCrypt, key: PassportKey, encoded: bytes, aad: bytes, keyName: bytes, plaintext: bytes)
    requires exists cek :: OpensWith(nc, PassportWrapper(key), encoded, aad, keyName, plaintext, cek)
    ensures key.keyName in nc.persisted
    ensures Recover(nc.lib, nc.persisted[key.keyName].material, encoded, aad, keyName) == Some(plaintext)
  {
  }

  // ---- round trip ----

  /** What was sealed under a Passport key opens under it to the plaintext, for every padding,
      nonce and content key, provided the key name survives JSON. */
  lemma OpenAfterSeal(nc: NCrypt, key: PassportKey, plaintext: bytes, aad: bytes, keyName: bytes, text: bytes)
    requires Lawful(nc.lib) && ValidUtf8(keyName)
    requires Sealed(nc, PassportWrapper(key), plaintext, aad, keyName, text)
    ensures key.keyName in nc.persisted
    ensures Recover(nc.lib, nc.persisted[key.keyName].material, text, aad, keyName) == Some(plaintext)
  {
    hide Text, Validate, RuneLen, Units;
    var cek: bytes, nonce: bytes, wrapped: bytes :|
      SealedWith(nc, PassportWrapper(key), plaintext, aad, keyName, text, cek, nonce, wrapped);
    var e := NewEnvelope(keyName, nonce, wrapped, nc.lib.seal(cek, nonce, plaintext, aad), aad);
    RoundTripExactly(nc.lib.unmarshal, e);
    UnwrapAfterWrap(nc, key.keyName, cek, wrapped);
  }

  /** A text sealed for one pair of names is addressed to exactly the pairs the JSON encoder
      cannot tell from it, and to the key name as JSON reads it back: elsewhere Decrypt refuses it before the
      wrapper is called. */
  lemma AddressedExactly(nc: NCrypt, w: KeyWrapper, plaintext: bytes, s: bytes, k: bytes, keyName: bytes, text: bytes,
                         t: bytes, j: bytes, otherName: bytes)
    requires Lawful(nc.lib) && Sealed(nc, w, plaintext, Aad(s, k), keyName, text)
    ensures Addressed(nc.lib, text, Aad(t, j), otherName)
       <==> otherName == Repair(Units(keyName)) && Units(s) == Units(t) && Units(k) == Units(j)
  {
    hide Text, Validate, RuneLen, Units, Aad;
    var aad := Aad(s, k);
    var cek: bytes, nonce: bytes, wrapped: bytes :|
      SealedWith(nc, w, plaintext, aad, keyName, text, cek, nonce, wrapped);
    var e := NewEnvelope(keyName, nonce, wrapped, nc.lib.seal(cek, nonce, plaintext, aad), aad);
    RoundTripExactly(nc.lib.unmarshal, e);
    AadEqualExactly(s, k, t, j);
  }
}
