/** What the backend takes from libraries it does not implement: AES-256-GCM, RSA with
    PKCS #1 v1.5 padding inside the key storage provider, and the JSON reader. */
module Library {
  import opened Bytes
  import opened Errors
  import opened Envelopes

  /** Key material held by a key storage provider. */
  type Material = nat

  datatype Library = Library(
    seal: (bytes, bytes, bytes, bytes) -> bytes,           // key, nonce, plaintext, aad
    open: (bytes, bytes, bytes, bytes) -> Option<bytes>,   // key, nonce, ciphertext, aad
    wrap: (Material, nat, bytes) -> bytes,                 // key, padding randomness, message
    unwrap: (Material, bytes) -> Option<bytes>,
    unmarshal: bytes -> Option<Envelope>)

  const CEK_SIZE := 32

  ghost predicate OpensWhatItSealed(l: Library) {
    forall k: bytes, n: bytes, p: bytes, a: bytes | |k| == CEK_SIZE && |n| == NONCE_SIZE ::
      && l.open(k, n, l.seal(k, n, p, a), a) == Some(p)
      && |l.seal(k, n, p, a)| == |p| + 16
  }

  ghost predicate UnwrapsWhatItWrapped(l: Library) {
    forall m: Material, r: nat, x: bytes ::
      l.unwrap(m, l.wrap(m, r, x)) == Some(x) && l.wrap(m, r, x) != []
  }

  /** The only facts about the libraries that any proof uses. */
  ghost predicate Lawful(l: Library) {
    OpensWhatItSealed(l) && UnwrapsWhatItWrapped(l) && ReadsBack(l.unmarshal)
  }

  /** An idealisation that only the statements about lost keys use: no text unwraps under two
      keys. */
  ghost predicate KeysBind(l: Library) {
    forall m: Material, n: Material, c: bytes :: l.unwrap(m, c).Some? && l.unwrap(n, c).Some? ==> m == n
  }

  function Tag(): bytes { [0, 0, 0, 0, 0, 0, 0, 0, 0, 0, 0, 0, 0, 0, 0, 0] }

  function OpenPlain(c: bytes): Option<bytes> {
    if |c| < 16 then None else Some(c[..|c| - 16])
  }

  function Zeros(m: nat): (r: bytes)
    ensures |r| == m && forall i | 0 <= i < m :: r[i] == 0
  {
    seq(m, i => 0)
  }

  /** A mark that tells the keys apart. */
  function Mark(m: Material): (r: bytes)
    ensures |r| == m + 1
  {
    Zeros(m) + [1]
  }

  function UnwrapMarked(m: Material, c: bytes): Option<bytes> {
    if HasPrefix(c, Mark(m)) then Some(TrimPrefix(c, Mark(m))) else None
  }

  lemma MarksBind(m: Material, n: Material, c: bytes)
    requires HasPrefix(c, Mark(m)) && HasPrefix(c, Mark(n))
    ensures m == n
  {
    assert c[m] == Mark(m)[m] == 1 && c[n] == Mark(n)[n] == 1;
  }

  ghost function MarkingLibrary(): Library {
    Library(
      (k, n, p, a) => p + Tag(),
      (k, n, c, a) => OpenPlain(c),
      (m, r, x) => Mark(m) + x,
      (m, c) => UnwrapMarked(m, c),
      ReadText)
  }

  /** The laws are consistent: one concrete library obeys all of them. */
  lemma LawfulLibraryExists()
    ensures exists l: Library :: Lawful(l) && KeysBind(l)
  {
    hide Mark, HasPrefix, TrimPrefix;
    var l := MarkingLibrary();
    ReadTextReadsBack();
    assert OpensWhatItSealed(l) by {
      forall p: bytes ensures OpenPlain(p + Tag()) == Some(p) {
        assert (p + Tag())[..|p|] == p;
      }
    }
    assert UnwrapsWhatItWrapped(l) by {
      forall m: Material, x: bytes ensures UnwrapMarked(m, Mark(m) + x) == Some(x) && Mark(m) + x != [] {
        PrefixOfConcat(Mark(m), x);
        assert |Mark(m) + x| > 0;
      }
    }
    assert KeysBind(l) by {
      forall m: Material, n: Material, c: bytes | l.unwrap(m, c).Some? && l.unwrap(n, c).Some? ensures m == n {
        MarksBind(m, n, c);
      }
    }
    assert Lawful(l);
  }
}
