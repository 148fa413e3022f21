/** The additional authenticated data of winhello/crypto.go and the credential names of
    winhello/store.go: the two encodings of a (service, key) pair. */
module Naming {
  import opened Bytes
  import opened Errors
  import opened Json
  import opened Reading

  /** winHelloAAD: the JSON object of the fixed struct, fields in order. */
  function Aad(service: bytes, key: bytes): (r: bytes)
    ensures r != []
  {
    Ascii("{\"backend\":\"winhello\",\"version\":1,\"service_name\":") + (Quote(service)
    + (Ascii(",\"item_key\":") + (Quote(key) + Ascii("}"))))
  }

  /** credentialName("") of a service. */
  function NamePrefix(service: bytes): bytes {
    Ascii("keyring-winhello:") + (service + Ascii(":"))
  }

  function CredentialName(service: bytes, key: bytes): bytes {
    NamePrefix(service) + key
  }

  lemma CancelPrefix(p: bytes, x: bytes, y: bytes)
    requires p + x == p + y
    ensures x == y
  {
    assert (p + x)[|p|..] == x && (p + y)[|p|..] == y;
  }

  /** The text holds the service under its name and the key under its own: a reader finds them. */
  lemma AadReadsBack(service: bytes, key: bytes)
    ensures var head := Ascii("{\"backend\":\"winhello\",\"version\":1,\"service_name\":");
            var first := StringField(head, Aad(service, key));
      && first.Some? && first.value.value == Repair(Units(service))
      && StringField(Ascii(",\"item_key\":"), first.value.rest) == Some(Piece(Repair(Units(key)), Ascii("}")))
  {
    hide Ascii, Quote, StringField, Units, Repair;
    var mid, end := Ascii(",\"item_key\":"), Ascii("}");
    var head := Ascii("{\"backend\":\"winhello\",\"version\":1,\"service_name\":");
    ReadsStringField(head, service, mid + (Quote(key) + end));
    ReadsStringField(mid, key, end);
  }

  lemma CredentialNameSpelled(service: bytes, key: bytes)
    ensures CredentialName(service, key) == Ascii("keyring-winhello") + [58] + service + [58] + key
  {
    assert Ascii("keyring-winhello:") == Ascii("keyring-winhello") + [58] && Ascii(":") == [58];
  }

  /** Two pairs have the same AAD exactly when the encoder reads both names alike. */
  lemma AadEqualExactly(s: bytes, k: bytes, t: bytes, j: bytes)
    ensures Aad(s, k) == Aad(t, j) <==> Units(s) == Units(t) && Units(k) == Units(j)
  {
    if Aad(s, k) == Aad(t, j) {
      var head, mid, end := Ascii("{\"backend\":\"winhello\",\"version\":1,\"service_name\":"),
                            Ascii(",\"item_key\":"), Ascii("}");
      CancelPrefix(head, Quote(s) + (mid + (Quote(k) + end)), Quote(t) + (mid + (Quote(j) + end)));
      QuotePrefixUnique(s, mid + (Quote(k) + end), t, mid + (Quote(j) + end));
      CancelPrefix(mid, Quote(k) + end, Quote(j) + end);
      QuotePrefixUnique(k, end, j, end);
    }
  }

  /** On valid UTF-8 the encoding is injective. */
  lemma AadInjectiveOnUtf8(s: bytes, k: bytes, t: bytes, j: bytes)
    requires ValidUtf8(s) && ValidUtf8(k) && ValidUtf8(t) && ValidUtf8(j)
    ensures Aad(s, k) == Aad(t, j) <==> s == t && k == j
  {
    AadEqualExactly(s, k, t, j);
    if Aad(s, k) == Aad(t, j) {
      UnitsInjectiveOnUtf8(s, t);
      UnitsInjectiveOnUtf8(k, j);
    }
  }

  /** On other byte strings it is not: two keys of one invalid byte share their AAD. */
  lemma AadCollision(s: bytes)
    ensures Aad(s, [0xFE]) == Aad(s, [0xFF])
  {
    assert Units([0xFE]) == [Bad] + Units([]) == Units([0xFF]) by {
      assert [0xFE][1..] == [] && [0xFF][1..] == [];
    }
  }

  /** Where two pairs share their credential name, their AADs tell them apart; this needs
      no assumption on the bytes, because the reading of a name determines its length. */
  lemma SameNameAndAadIsSamePair(s: bytes, k: bytes, t: bytes, j: bytes)
    requires CredentialName(s, k) == CredentialName(t, j) && Aad(s, k) == Aad(t, j)
    ensures s == t && k == j
  {
    hide Aad, Units, TotalSize;
    AadEqualExactly(s, k, t, j);
    UnitsKeepLength(s);
    UnitsKeepLength(t);
    var head := Ascii("keyring-winhello:");
    assert CredentialName(s, k) == head + (s + (Ascii(":") + k));
    assert CredentialName(t, j) == head + (t + (Ascii(":") + j));
    CancelPrefix(head, s + (Ascii(":") + k), t + (Ascii(":") + j));
    assert (s + (Ascii(":") + k))[..|s|] == s && (t + (Ascii(":") + j))[..|t|] == t;
    assert s == t;
    CancelPrefix(s, Ascii(":") + k, Ascii(":") + j);
    CancelPrefix(Ascii(":"), k, j);
  }

  /** A credential of service t falls under the prefix of service s exactly when s: begins
      t:key, so the two services stay apart exactly when neither s: nor t: begins the other. */
  lemma ServicesDisjointExactly(s: bytes, t: bytes)
    ensures HasPrefix(s + Ascii(":"), t + Ascii(":")) || HasPrefix(t + Ascii(":"), s + Ascii(":"))
       <==> exists k, j :: CredentialName(s, k) == CredentialName(t, j)
  {
    var a, b := s + Ascii(":"), t + Ascii(":");
    var head := Ascii("keyring-winhello:");
    if HasPrefix(a, b) {
      PrefixSplit(a, b);
      assert CredentialName(s, []) == CredentialName(t, TrimPrefix(a, b));
    }
    if HasPrefix(b, a) {
      PrefixSplit(b, a);
      assert CredentialName(s, TrimPrefix(b, a)) == CredentialName(t, []);
    }
    if k, j :| CredentialName(s, k) == CredentialName(t, j) {
      assert CredentialName(s, k) == head + (a + k) && CredentialName(t, j) == head + (b + j);
      CancelPrefix(head, a + k, b + j);
      assert (a + k)[..|a|] == a && (b + j)[..|b|] == b;
      if |a| <= |b| {
        assert b[..|a|] == (b + j)[..|a|] == a;
      } else {
        assert a[..|b|] == (a + k)[..|b|] == b;
      }
    }
  }
}
