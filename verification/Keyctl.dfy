/** The kernel keyring backend of keyctl.go. */
module Keyctl {
  import opened Bytes
  import opened Errors
  import opened Kernel
  import opened Splitting

  // ---- reading ----

  /** No content the reader can meet is longer than the bound. */
  ghost predicate Bounded(k: Kernel, id: Serial, bound: nat)
    reads k
  {
    |k.Contents(id)| <= bound
    && (id !in k.state.rings ==> forall n: nat :: k.interference(n).Some? ==> |k.interference(n).value| <= bound)
  }

  lemma NothingRewritten(s: Keyrings, id: Serial, interference: nat -> Option<bytes>, n: nat)
    ensures Rewritten(s, id, LastWrite(interference, n, n)) == s && PayloadOnly(s, s, id)
  {
  }

  /** keyctlRead: grows its buffer until a call fits, and returns the complete contents as of
      that last call, however often others rewrote the key in between. */
  method Read(k: Kernel, id: Serial, ghost bound: nat) returns (r: Result<bytes>)
    requires k.Valid() && Bounded(k, id, bound)
    modifies k
    ensures k.Valid() && PayloadOnly(old(k.state), k.state, id) && k.faults >= old(k.faults)
    ensures k.state == Rewritten(old(k.state), id, LastWrite(k.interference, old(k.calls), k.calls))
    ensures r.Ok? ==> id in k.state.keys && r.value == k.Contents(id)
    ensures r.Err? ==> KeyNotFound !in r.error
    ensures r.Err? ==> k.faults > old(k.faults) || id !in k.state.keys
    ensures old(k.calls) < k.calls <= old(k.calls) + bound + 1
  {
    hide Environment, EncodeSerials, LastWrite, PayloadOnly;
    NothingRewritten(k.state, id, k.interference, k.calls);
    var buffer := new byte[0];
    while true
      invariant fresh(buffer) && buffer.Length <= bound
      invariant k.Valid() && Bounded(k, id, bound) && PayloadOnly(old(k.state), k.state, id)
      invariant k.faults >= old(k.faults)
      invariant k.state == Rewritten(old(k.state), id, LastWrite(k.interference, old(k.calls), k.calls))
      invariant k.calls <= old(k.calls) + buffer.Length
      invariant old(k.calls) <= k.calls
      decreases bound - buffer.Length
    {
      RewrittenAgain(old(k.state), id, k.interference, old(k.calls), k.calls);
      var code, length := k.ReadBuffer(id, buffer);
      if code != 0 {
        return Err({Status(code)});
      }
      if length <= buffer.Length {
        return Ok(buffer[..length]);
      }
      buffer := new byte[length];
    }
  }

  // ---- the buffer of serials ----

  function DecodeSerial(b: bytes, bigEndian: bool): Serial
    requires |b| == 4
  {
    var u := if bigEndian then Word(b[3], b[2], b[1], b[0]) else Word(b[0], b[1], b[2], b[3]);
    if u >= 0x8000_0000 then u - 0x1_0000_0000 else u
  }

  lemma DecodedEncodes(b: bytes, bigEndian: bool)
    requires |b| == 4
    ensures Int32(DecodeSerial(b, bigEndian)) && EncodeSerial(DecodeSerial(b, bigEndian), bigEndian) == b
  {
    hide Word;
    if bigEndian { WordSplits(b[3], b[2], b[1], b[0]); } else { WordSplits(b[0], b[1], b[2], b[3]); }
  }

  lemma EncodedDecodes(v: Serial, bigEndian: bool)
    requires Int32(v)
    ensures DecodeSerial(EncodeSerial(v, bigEndian), bigEndian) == v
  {
    hide Word;
    WordJoins(v % 0x1_0000_0000);
  }

  /** The encoding of int32 lists is injective, so a buffer names one list. */
  lemma {:induction false} EncodingUnique(s: seq<Serial>, t: seq<Serial>, bigEndian: bool)
    requires forall v | v in s :: Int32(v)
    requires forall v | v in t :: Int32(v)
    requires EncodeSerials(s, bigEndian) == EncodeSerials(t, bigEndian)
    ensures s == t
  {
    assert |s| == |t|;
    if s != [] {
      hide EncodeSerial, DecodeSerial;
      var n := |s| - 1;
      SplitEqual(EncodeSerials(s[..n], bigEndian), EncodeSerial(s[n], bigEndian),
                 EncodeSerials(t[..n], bigEndian), EncodeSerial(t[n], bigEndian));
      EncodedDecodes(s[n], bigEndian);
      EncodedDecodes(t[n], bigEndian);
      EncodingUnique(s[..n], t[..n], bigEndian);
      assert s == s[..n] + [s[n]] && t == t[..n] + [t[n]];
    }
  }

  lemma SplitEqual(a: bytes, b: bytes, c: bytes, d: bytes)
    requires a + b == c + d && |b| == |d|
    ensures a == c && b == d
  {
    assert (a + b)[..|a|] == a && (c + d)[..|c|] == c;
    assert (a + b)[|a|..] == b && (c + d)[|c|..] == d;
  }

  /** keyctlConvertKeyBuffer */
  method ConvertKeyBuffer(buffer: bytes, bigEndian: bool) returns (r: Option<seq<Serial>>)
    ensures r.None? <==> |buffer| % 4 != 0
    ensures r.Some? ==> EncodeSerials(r.value, bigEndian) == buffer && forall v | v in r.value :: Int32(v)
  {
    if |buffer| % 4 != 0 {
      return None;
    }
    var results: seq<Serial> := [];
    var i := 0;
    while i < |buffer|
      invariant 0 <= i <= |buffer| && i % 4 == 0
      invariant EncodeSerials(results, bigEndian) == buffer[..i]
      invariant forall v | v in results :: Int32(v)
    {
      var v := DecodeSerial(buffer[i..i + 4], bigEndian);
      DecodedEncodes(buffer[i..i + 4], bigEndian);
      assert (results + [v])[..|results|] == results;
      results := results + [v];
      assert buffer[..i + 4] == buffer[..i] + buffer[i..i + 4];
      i := i + 4;
    }
    assert buffer[..i] == buffer;
    return Some(results);
  }

  // ---- the description record ----

  function Fields(s: bytes): (r: seq<bytes>)
    ensures r != []
  {
    Split(s, SEMICOLON)
  }

  function Last<T>(s: seq<T>): T
    requires s != []
  {
    s[|s| - 1]
  }

  /** What the parser takes for the description: the text behind the last semicolon. */
  function AfterLastSemicolon(s: bytes): bytes {
    Last(Fields(s))
  }

  /** The fields come apart again, whatever the last one holds. */
  lemma {:induction false} SplitJoined(fields: seq<bytes>, last: bytes)
    requires forall f | f in fields :: SEMICOLON !in f
    ensures Fields(JoinFields(fields, last)) == fields + Fields(last)
  {
    hide Split;
    if fields != [] {
      var rest := fields[1..];
      SplitWithout(fields[0], SEMICOLON);
      SplitConcat(fields[0], JoinFields(rest, last), SEMICOLON);
      SplitJoined(rest, last);
      assert fields + Fields(last) == [fields[0]] + (rest + Fields(last));
    }
  }

  /** A description is read back exactly when it holds no semicolon. */
  lemma {:induction false} AfterLastSemicolonExactly(s: bytes)
    ensures SEMICOLON !in AfterLastSemicolon(s) && |AfterLastSemicolon(s)| <= |s|
    ensures AfterLastSemicolon(s) == s <==> SEMICOLON !in s
    ensures SEMICOLON in s <==> |Fields(s)| > 1
  {
    if s != [] {
      AfterLastSemicolonExactly(s[1..]);
      var rest := Fields(s[1..]);
      if s[0] == SEMICOLON {
        assert Last(Fields(s)) == Last(rest);
      } else if |rest| > 1 {
        assert Last(Fields(s)) == Last(rest);
      } else {
        assert Last(Fields(s)) == [s[0]] + s[1..] == s;
      }
    }
  }

  /** It is the end of the text, without a semicolon, and begins the text or stands behind one. */
  lemma {:induction false} AfterLastSemicolonSpelled(s: bytes) returns (front: bytes)
    ensures s == front + AfterLastSemicolon(s) && SEMICOLON !in AfterLastSemicolon(s)
    ensures front == [] || front[|front| - 1] == 59
  {
    AfterLastSemicolonExactly(s);
    if SEMICOLON !in s {
      front := [];
    } else {
      front := AfterLastSemicolonSpelled(s[1..]);
      AfterLastSemicolonExactly(s[1..]);
      var rest := Fields(s[1..]);
      assert s == [s[0]] + s[1..];
      if s[0] == SEMICOLON {
        assert Last(Fields(s)) == Last(rest);
      } else {
        assert SEMICOLON in s[1..] && Last(Fields(s)) == Last(rest);
      }
      front := [s[0]] + front;
    }
  }

  const NAMES: seq<string> := ["type", "uid", "gid", "perm"]

  ghost predicate NamesFour(data: map<string, bytes>, f: seq<bytes>)
    requires |f| > 4
  {
    && "type" in data && "uid" in data && "gid" in data && "perm" in data
    && data["type"] == f[0] && data["uid"] == f[1] && data["gid"] == f[2] && data["perm"] == f[3]
  }

  /** The parsing half of keyctlDescribe: the first four fields by name, the last one as the
      description, and newer fields in between skipped. */
  method ParseDescription(text: bytes) returns (data: map<string, bytes>)
    ensures "description" in data && data["description"] == AfterLastSemicolon(text)
    ensures forall j | 0 <= j < |NAMES| && j < |Fields(text)| - 1 ::
              NAMES[j] in data && data[NAMES[j]] == Fields(text)[j]
    ensures forall j | |Fields(text)| - 1 <= j < |NAMES| :: NAMES[j] !in data
    ensures |Fields(text)| > 4 ==> NamesFour(data, Fields(text))
  {
    hide Fields;
    var fields := Fields(text);
    data := map["description" := fields[|fields| - 1]];
    var i := 0;
    while i < |fields| - 1 && i < |NAMES|
      invariant 0 <= i <= |NAMES| && i <= |fields| - 1
      invariant "description" in data && data["description"] == fields[|fields| - 1]
      invariant forall j | 0 <= j < i :: NAMES[j] in data && data[NAMES[j]] == fields[j]
      invariant forall j | i <= j < |NAMES| :: NAMES[j] !in data
    {
      data := data[NAMES[i] := fields[i]];
      i := i + 1;
    }
    assert NAMES[0] == "type" && NAMES[1] == "uid" && NAMES[2] == "gid" && NAMES[3] == "perm";
  }

  /** keyctlDescribe */
  method Describe(k: Kernel, id: Serial) returns (r: Result<map<string, bytes>>)
    requires k.Valid()
    modifies k
    ensures k.Valid() && k.state == old(k.state) && k.faults >= old(k.faults) && k.calls >= old(k.calls)
    ensures r.Ok? ==> id in k.state.keys && "type" in r.value && "description" in r.value
    ensures r.Ok? ==> r.value["type"] == k.state.keys[id].index.0
    ensures r.Ok? ==> r.value["description"] == AfterLastSemicolon(k.state.keys[id].index.1)
    ensures r.Err? ==> k.faults > old(k.faults) || id !in k.state.keys
  {
    hide Fields, JoinFields;
    var code, text := k.Describe(id);
    if code != 0 {
      return Err({Status(code)});
    }
    ghost var front, desc := [k.state.keys[id].index.0] + k.middle(id), k.state.keys[id].index.1;
    SplitJoined(front, desc);
    assert Last(front + Fields(desc)) == Last(Fields(desc));
    var data := ParseDescription(text);
    assert NAMES[0] == "type" && Fields(text)[0] == front[0];
    return Ok(data);
  }
}
