/** The stored envelope of winhello/envelope.go: validation, its JSON text, and what a JSON
    reader makes of that text. */
module Envelopes {
  import opened Bytes
  import opened Errors
  import opened Json
  import opened Naming
  import opened Reading
  import Base64

  datatype Envelope = Envelope(
    version: int, provider: bytes, keyName: bytes, contentAlg: bytes, wrapAlg: bytes,
    nonce: bytes, wrappedCek: bytes, ciphertext: bytes, aad: bytes)

  const VERSION := 1
  const NONCE_SIZE := 12

  function PassportProvider(): bytes { Ascii("Microsoft Passport Key Storage Provider") }
  function Aes256Gcm(): bytes { Ascii("AES-256-GCM") }
  function RsaPkcs1(): bytes { Ascii("RSAES-PKCS1-v1_5") }

  /** The first check of `validate` that fails. */
  function Validate(e: Envelope): Option<Sentinel> {
    if e.version != VERSION then Some(BadVersion)
    else if e.provider != PassportProvider() then Some(BadProvider)
    else if e.keyName == [] then Some(NoKeyName)
    else if e.contentAlg != Aes256Gcm() then Some(BadContentAlg)
    else if e.wrapAlg != RsaPkcs1() then Some(BadWrapAlg)
    else if |e.nonce| != NONCE_SIZE then Some(BadNonce)
    else if e.wrappedCek == [] then Some(NoWrappedCek)
    else if e.ciphertext == [] then Some(NoCiphertext)
    else if e.aad == [] then Some(NoAad)
    else None
  }

  predicate Valid(e: Envelope) { Validate(e).None? }

  /** What validation accepts, written out. */
  lemma ValidExactly(e: Envelope)
    ensures Valid(e) <==>
              && e.version == 1 && e.provider == Ascii("Microsoft Passport Key Storage Provider") && |e.keyName| > 0
              && e.contentAlg == Ascii("AES-256-GCM") && e.wrapAlg == Ascii("RSAES-PKCS1-v1_5") && |e.nonce| == 12
              && |e.wrappedCek| > 0 && |e.ciphertext| > 0 && |e.aad| > 0
  {
    hide Ascii;
  }

  /** Of an envelope with one flaw, the error names it. */
  lemma FlawsAreNamed(e: Envelope)
    requires Valid(e)
    ensures forall v: int | v != 1 :: Validate(e.(version := v)) == Some(BadVersion)
    ensures forall p: bytes | p != e.provider :: Validate(e.(provider := p)) == Some(BadProvider)
    ensures Validate(e.(keyName := [])) == Some(NoKeyName)
    ensures forall a: bytes | a != e.contentAlg :: Validate(e.(contentAlg := a)) == Some(BadContentAlg)
    ensures forall a: bytes | a != e.wrapAlg :: Validate(e.(wrapAlg := a)) == Some(BadWrapAlg)
    ensures forall n: bytes | |n| != 12 :: Validate(e.(nonce := n)) == Some(BadNonce)
    ensures Validate(e.(wrappedCek := [])) == Some(NoWrappedCek)
    ensures Validate(e.(ciphertext := [])) == Some(NoCiphertext)
    ensures Validate(e.(aad := [])) == Some(NoAad)
  {
    hide Ascii;
  }

  // ---- the JSON text, one field after the other ----

  function AadField(e: Envelope): bytes {
    Ascii(",\"aad\":") + (Base64.QuotedBytes(e.aad) + Ascii("}"))
  }

  function CiphertextField(e: Envelope): bytes {
    Ascii(",\"ciphertext\":") + (Base64.QuotedBytes(e.ciphertext) + AadField(e))
  }

  function WrappedCekField(e: Envelope): bytes {
    Ascii(",\"wrapped_cek\":") + (Base64.QuotedBytes(e.wrappedCek) + CiphertextField(e))
  }

  function NonceField(e: Envelope): bytes {
    Ascii(",\"nonce\":") + (Base64.QuotedBytes(e.nonce) + WrappedCekField(e))
  }

  function AlgFields(e: Envelope): bytes {
    Ascii(",\"content_alg\":") + (Quote(e.contentAlg) + (Ascii(",\"wrap_alg\":") + (Quote(e.wrapAlg) + NonceField(e))))
  }

  /** json.Marshal of an envelope whose version is 1. */
  function Text(e: Envelope): bytes
    requires Valid(e)
  {
    Ascii("{\"version\":1,\"provider\":") + (Quote(e.provider)
    + (Ascii(",\"key_name\":") + (Quote(e.keyName) + AlgFields(e))))
  }

  /** The whole text, member by member in the order of the struct. */
  lemma TextSpelled(e: Envelope)
    requires Valid(e)
    ensures Text(e) ==
      Ascii("{\"version\":1,\"provider\":") + (Quote(e.provider) + (Ascii(",\"key_name\":") + (Quote(e.keyName)
      + (Ascii(",\"content_alg\":") + (Quote(e.contentAlg) + (Ascii(",\"wrap_alg\":") + (Quote(e.wrapAlg)
      + (Ascii(",\"nonce\":") + (Base64.QuotedBytes(e.nonce)
      + (Ascii(",\"wrapped_cek\":") + (Base64.QuotedBytes(e.wrappedCek)
      + (Ascii(",\"ciphertext\":") + (Base64.QuotedBytes(e.ciphertext)
      + (Ascii(",\"aad\":") + (Base64.QuotedBytes(e.aad) + Ascii("}"))))))))))))))))
  {
    hide Ascii, Quote, Base64.QuotedBytes, Validate;
  }

  function Marshal(e: Envelope): Result<bytes> {
    match Validate(e)
    case Some(s) => Err({s})
    case None => Ok(Text(e))
  }

  /** The envelope a reader gets back: invalid bytes of the key name became U+FFFD. */
  function Reread(e: Envelope): Envelope {
    e.(keyName := Repair(Units(e.keyName)))
  }

  lemma BytesTailUnique(e: Envelope, f: Envelope)
    requires NonceField(e) == NonceField(f)
    ensures e.nonce == f.nonce && e.wrappedCek == f.wrappedCek && e.ciphertext == f.ciphertext && e.aad == f.aad
  {
    hide Base64.QuotedBytes;
    CancelPrefix(Ascii(",\"nonce\":"), Base64.QuotedBytes(e.nonce) + WrappedCekField(e),
                 Base64.QuotedBytes(f.nonce) + WrappedCekField(f));
    Base64.QuotedBytesPrefixUnique(e.nonce, WrappedCekField(e), f.nonce, WrappedCekField(f));
    CancelPrefix(Ascii(",\"wrapped_cek\":"), Base64.QuotedBytes(e.wrappedCek) + CiphertextField(e),
                 Base64.QuotedBytes(f.wrappedCek) + CiphertextField(f));
    Base64.QuotedBytesPrefixUnique(e.wrappedCek, CiphertextField(e), f.wrappedCek, CiphertextField(f));
    CancelPrefix(Ascii(",\"ciphertext\":"), Base64.QuotedBytes(e.ciphertext) + AadField(e),
                 Base64.QuotedBytes(f.ciphertext) + AadField(f));
    Base64.QuotedBytesPrefixUnique(e.ciphertext, AadField(e), f.ciphertext, AadField(f));
    CancelPrefix(Ascii(",\"aad\":"), Base64.QuotedBytes(e.aad) + Ascii("}"), Base64.QuotedBytes(f.aad) + Ascii("}"));
    Base64.QuotedBytesPrefixUnique(e.aad, Ascii("}"), f.aad, Ascii("}"));
  }

  /** The text determines the envelope up to what the encoder cannot tell apart in the key name. */
  lemma TextDeterminesEnvelope(e: Envelope, f: Envelope)
    requires Valid(e) && Valid(f)
    ensures Text(e) == Text(f) <==> e == f.(keyName := e.keyName) && Units(e.keyName) == Units(f.keyName)
  {
    if Text(e) == Text(f) {
      hide Base64.QuotedBytes, NonceField, Ascii, Units;
      assert e.provider == f.provider && e.contentAlg == f.contentAlg && e.wrapAlg == f.wrapAlg;
      var head, mid := Ascii("{\"version\":1,\"provider\":") , Ascii(",\"key_name\":");
      CancelPrefix(head, Quote(e.provider) + (mid + (Quote(e.keyName) + AlgFields(e))),
                   Quote(f.provider) + (mid + (Quote(f.keyName) + AlgFields(f))));
      CancelPrefix(Quote(e.provider), mid + (Quote(e.keyName) + AlgFields(e)), mid + (Quote(f.keyName) + AlgFields(f)));
      CancelPrefix(mid, Quote(e.keyName) + AlgFields(e), Quote(f.keyName) + AlgFields(f));
      QuotePrefixUnique(e.keyName, AlgFields(e), f.keyName, AlgFields(f));
      CancelPrefix(Ascii(",\"content_alg\":"),
        Quote(e.contentAlg) + (Ascii(",\"wrap_alg\":") + (Quote(e.wrapAlg) + NonceField(e))),
        Quote(f.contentAlg) + (Ascii(",\"wrap_alg\":") + (Quote(f.wrapAlg) + NonceField(f))));
      CancelPrefix(Quote(e.contentAlg), Ascii(",\"wrap_alg\":") + (Quote(e.wrapAlg) + NonceField(e)),
                   Ascii(",\"wrap_alg\":") + (Quote(f.wrapAlg) + NonceField(f)));
      CancelPrefix(Ascii(",\"wrap_alg\":"), Quote(e.wrapAlg) + NonceField(e), Quote(f.wrapAlg) + NonceField(f));
      CancelPrefix(Quote(e.wrapAlg), NonceField(e), NonceField(f));
      BytesTailUnique(e, f);
    }
  }

  // ---- reading ----

  /** json.Unmarshal inverts json.Marshal, up to the repair of the key name. */
  ghost predicate ReadsBack(unmarshal: bytes -> Option<Envelope>) {
    forall e: Envelope | Valid(e) :: unmarshal(Text(e)) == Some(Reread(e))
  }

  function ReadNonceField(e: Envelope, t: bytes): Option<Envelope> {
    var nonce :- BytesField(Ascii(",\"nonce\":"), t);
    var wrappedCek :- BytesField(Ascii(",\"wrapped_cek\":"), nonce.rest);
    var ciphertext :- BytesField(Ascii(",\"ciphertext\":"), wrappedCek.rest);
    var aad :- BytesField(Ascii(",\"aad\":"), ciphertext.rest);
    if aad.rest != Ascii("}") then None
    else Some(e.(nonce := nonce.value, wrappedCek := wrappedCek.value,
                 ciphertext := ciphertext.value, aad := aad.value))
  }

  /** A reader of exactly the texts an envelope is written as. */
  function ReadText(t: bytes): Option<Envelope> {
    var provider :- StringField(Ascii("{\"version\":1,\"provider\":"), t);
    var keyName :- StringField(Ascii(",\"key_name\":"), provider.rest);
    var contentAlg :- StringField(Ascii(",\"content_alg\":"), keyName.rest);
    var wrapAlg :- StringField(Ascii(",\"wrap_alg\":"), contentAlg.rest);
    ReadNonceField(Envelope(VERSION, provider.value, keyName.value, contentAlg.value, wrapAlg.value, [], [], [], []),
                   wrapAlg.rest)
  }

  lemma ReadsNonceField(e: Envelope, f: Envelope)
    ensures ReadNonceField(f, NonceField(e))
         == Some(f.(nonce := e.nonce, wrappedCek := e.wrappedCek, ciphertext := e.ciphertext, aad := e.aad))
  {
    hide BytesField, Base64.QuotedBytes, Ascii;
    ReadsBytesField(Ascii(",\"nonce\":"), e.nonce, WrappedCekField(e));
    ReadsBytesField(Ascii(",\"wrapped_cek\":"), e.wrappedCek, CiphertextField(e));
    ReadsBytesField(Ascii(",\"ciphertext\":"), e.ciphertext, AadField(e));
    ReadsBytesField(Ascii(",\"aad\":"), e.aad, Ascii("}"));
  }

  lemma NamesAreUtf8()
    ensures ValidUtf8(PassportProvider()) && ValidUtf8(Aes256Gcm()) && ValidUtf8(RsaPkcs1())
  {
    hide ValidUtf8;
    AsciiTextIsUtf8("Microsoft Passport Key Storage Provider");
    AsciiTextIsUtf8("AES-256-GCM");
    AsciiTextIsUtf8("RSAES-PKCS1-v1_5");
  }

  /** The reader obeys the law. */
  lemma ReadTextReadsBack()
    ensures ReadsBack(ReadText)
  {
    hide Text, ReadText, Reread, Validate;
    forall e: Envelope | Valid(e) ensures ReadText(Text(e)) == Some(Reread(e)) {
      ReadsText(e);
    }
  }

  lemma ReadsText(e: Envelope)
    requires Valid(e)
    ensures ReadText(Text(e)) == Some(Reread(e))
  {
    hide StringField, Quote, Ascii, NonceField, ReadNonceField, ValidUtf8, Units, Repair;
    NamesAreUtf8();
    RepairIsIdentityExactlyOnUtf8(e.provider);
    RepairIsIdentityExactlyOnUtf8(e.contentAlg);
    RepairIsIdentityExactlyOnUtf8(e.wrapAlg);
    ReadsStringField(Ascii("{\"version\":1,\"provider\":"), e.provider,
                     Ascii(",\"key_name\":") + (Quote(e.keyName) + AlgFields(e)));
    ReadsStringField(Ascii(",\"key_name\":"), e.keyName, AlgFields(e));
    ReadsStringField(Ascii(",\"content_alg\":"), e.contentAlg,
                     Ascii(",\"wrap_alg\":") + (Quote(e.wrapAlg) + NonceField(e)));
    ReadsStringField(Ascii(",\"wrap_alg\":"), e.wrapAlg, NonceField(e));
    var f := Envelope(VERSION, e.provider, Repair(Units(e.keyName)), e.contentAlg, e.wrapAlg, [], [], [], []);
    ReadsNonceField(e, f);
  }

  /** parseWinHelloEnvelope */
  function Parse(unmarshal: bytes -> Option<Envelope>, data: bytes): Result<Envelope> {
    match unmarshal(data)
    case None => Err({JsonSyntax})
    case Some(e) =>
      match Validate(e)
      case Some(s) => Err({s})
      case None => Ok(e)
  }

  /** Parsing a marshalled envelope gives it back exactly when its key name is valid UTF-8. */
  lemma RoundTripExactly(unmarshal: bytes -> Option<Envelope>, e: Envelope)
    requires ReadsBack(unmarshal) && Valid(e)
    ensures Parse(unmarshal, Marshal(e).value) == Ok(Reread(e))
    ensures Parse(unmarshal, Marshal(e).value) == Ok(e) <==> ValidUtf8(e.keyName)
  {
    RepairIsIdentityExactlyOnUtf8(e.keyName);
    assert Validate(Reread(e)).None?;
  }
}
