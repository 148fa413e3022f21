/** The Item of keyring.go and its JSON text, which the 1Password keyrings store as the value of
    a concealed field. */
module Items {
  import opened Bytes
  import opened Errors
  import opened Json
  import opened Naming
  import opened Reading
  import Base64

  /** A nil Data is not an empty one: it is written as null. */
  datatype Item = Item(
    key: bytes, data: Option<bytes>, itemLabel: bytes, description: bytes, notTrust: bool, notSync: bool)

  function BoolText(b: bool): bytes {
    if b then Ascii("true") else Ascii("false")
  }

  function DataText(d: Option<bytes>): bytes {
    match d
    case None => Ascii("null")
    case Some(b) => Base64.QuotedBytes(b)
  }

  function FlagFields(i: Item): bytes {
    Ascii(",\"KeychainNotTrustApplication\":") + (BoolText(i.notTrust)
    + (Ascii(",\"KeychainNotSynchronizable\":") + (BoolText(i.notSync) + Ascii("}"))))
  }

  function NameFields(i: Item): bytes {
    Ascii(",\"Label\":") + (Quote(i.itemLabel) + (Ascii(",\"Description\":") + (Quote(i.description) + FlagFields(i))))
  }

  /** json.Marshal of an item. */
  function Text(i: Item): bytes {
    Ascii("{\"Key\":") + (Quote(i.key) + (Ascii(",\"Data\":") + (DataText(i.data) + NameFields(i))))
  }

  /** The whole text, member by member in the order of the struct. */
  lemma TextSpelled(i: Item)
    ensures Text(i) ==
      Ascii("{\"Key\":") + (Quote(i.key)
      + (Ascii(",\"Data\":") + ((if i.data.None? then Ascii("null") else Base64.QuotedBytes(i.data.value))
      + (Ascii(",\"Label\":") + (Quote(i.itemLabel) + (Ascii(",\"Description\":") + (Quote(i.description)
      + (Ascii(",\"KeychainNotTrustApplication\":") + ((if i.notTrust then Ascii("true") else Ascii("false"))
      + (Ascii(",\"KeychainNotSynchronizable\":") + ((if i.notSync then Ascii("true") else Ascii("false"))
      + Ascii("}"))))))))))))
  {
    hide Ascii, Quote, Base64.QuotedBytes;
  }

  lemma BoolPrefixUnique(b: bool, x: bytes, c: bool, y: bytes)
    requires BoolText(b) + x == BoolText(c) + y
    ensures b == c && x == y
  {
    assert (BoolText(b) + x)[0] == BoolText(b)[0] && (BoolText(c) + y)[0] == BoolText(c)[0];
    CancelPrefix(BoolText(b), x, y);
  }

  lemma DataPrefixUnique(d: Option<bytes>, x: bytes, e: Option<bytes>, y: bytes)
    requires DataText(d) + x == DataText(e) + y
    ensures d == e && x == y
  {
    hide Base64.Encode, Base64.Decode;
    assert (DataText(d) + x)[0] == DataText(d)[0] && (DataText(e) + y)[0] == DataText(e)[0];
    if d.Some? && e.Some? {
      Base64.QuotedBytesPrefixUnique(d.value, x, e.value, y);
    } else {
      CancelPrefix(DataText(d), x, y);
    }
  }

  /** The encoder cannot tell these two texts apart. */
  ghost predicate Alike(a: Item, b: Item) {
    && b == a.(key := b.key, itemLabel := b.itemLabel, description := b.description)
    && Units(a.key) == Units(b.key) && Units(a.itemLabel) == Units(b.itemLabel)
    && Units(a.description) == Units(b.description)
  }

  lemma FlagsDetermined(a: Item, b: Item)
    requires FlagFields(a) == FlagFields(b)
    ensures a.notTrust == b.notTrust && a.notSync == b.notSync
  {
    hide BoolText;
    var p, q, end := Ascii(",\"KeychainNotTrustApplication\":"), Ascii(",\"KeychainNotSynchronizable\":"), Ascii("}");
    CancelPrefix(p, BoolText(a.notTrust) + (q + (BoolText(a.notSync) + end)),
                 BoolText(b.notTrust) + (q + (BoolText(b.notSync) + end)));
    BoolPrefixUnique(a.notTrust, q + (BoolText(a.notSync) + end), b.notTrust, q + (BoolText(b.notSync) + end));
    CancelPrefix(q, BoolText(a.notSync) + end, BoolText(b.notSync) + end);
    BoolPrefixUnique(a.notSync, end, b.notSync, end);
  }

  lemma NamesDetermined(a: Item, b: Item)
    requires NameFields(a) == NameFields(b)
    ensures Units(a.itemLabel) == Units(b.itemLabel) && Units(a.description) == Units(b.description)
    ensures FlagFields(a) == FlagFields(b)
  {
    hide Units, FlagFields;
    var p, q := Ascii(",\"Label\":"), Ascii(",\"Description\":");
    CancelPrefix(p, Quote(a.itemLabel) + (q + (Quote(a.description) + FlagFields(a))),
                 Quote(b.itemLabel) + (q + (Quote(b.description) + FlagFields(b))));
    QuotePrefixUnique(a.itemLabel, q + (Quote(a.description) + FlagFields(a)), b.itemLabel,
                      q + (Quote(b.description) + FlagFields(b)));
    CancelPrefix(q, Quote(a.description) + FlagFields(a), Quote(b.description) + FlagFields(b));
    QuotePrefixUnique(a.description, FlagFields(a), b.description, FlagFields(b));
  }

  /** Two items have the same text exactly when the encoder reads their three names alike. */
  lemma TextEqualExactly(a: Item, b: Item)
    ensures Text(a) == Text(b) <==> Alike(a, b)
  {
    if Text(a) == Text(b) {
      hide Units, DataText, NameFields;
      var p, q := Ascii("{\"Key\":"), Ascii(",\"Data\":");
      CancelPrefix(p, Quote(a.key) + (q + (DataText(a.data) + NameFields(a))),
                   Quote(b.key) + (q + (DataText(b.data) + NameFields(b))));
      QuotePrefixUnique(a.key, q + (DataText(a.data) + NameFields(a)), b.key, q + (DataText(b.data) + NameFields(b)));
      CancelPrefix(q, DataText(a.data) + NameFields(a), DataText(b.data) + NameFields(b));
      DataPrefixUnique(a.data, NameFields(a), b.data, NameFields(b));
      NamesDetermined(a, b);
      FlagsDetermined(a, b);
    }
  }

  /** What a reader gets back: invalid bytes of the names became U+FFFD. */
  function Reread(i: Item): Item {
    i.(key := Repair(Units(i.key)), itemLabel := Repair(Units(i.itemLabel)),
       description := Repair(Units(i.description)))
  }

  ghost predicate Utf8Names(i: Item) {
    ValidUtf8(i.key) && ValidUtf8(i.itemLabel) && ValidUtf8(i.description)
  }

  /** An item comes back as it was exactly when its names are valid UTF-8. */
  lemma RereadExactly(i: Item)
    ensures Reread(i) == i <==> Utf8Names(i)
  {
    hide Units, Repair;
    RepairIsIdentityExactlyOnUtf8(i.key);
    RepairIsIdentityExactlyOnUtf8(i.itemLabel);
    RepairIsIdentityExactlyOnUtf8(i.description);
  }

  /** json.Unmarshal inverts json.Marshal, up to that repair. */
  ghost predicate ReadsBack(unmarshal: bytes -> Option<Item>) {
    forall i: Item :: unmarshal(Text(i)) == Some(Reread(i))
  }

  function ReadBool(t: bytes): Option<Piece<bool>> {
    match Expect(BoolText(true), t)
    case Some(rest) => Some(Piece(true, rest))
    case None =>
      var rest :- Expect(BoolText(false), t);
      Some(Piece(false, rest))
  }

  function ReadData(t: bytes): Option<Piece<Option<bytes>>> {
    match Expect(DataText(None), t)
    case Some(rest) => Some(Piece(None, rest))
    case None =>
      var data :- ReadBytes(t);
      Some(Piece(Some(data.value), data.rest))
  }

  lemma ReadsBool(b: bool, x: bytes)
    ensures ReadBool(BoolText(b) + x) == Some(Piece(b, x))
  {
    var t := BoolText(b) + x;
    ExpectsLiteral(BoolText(b), x);
    assert t[0] == BoolText(b)[0];
  }

  lemma ReadsData(d: Option<bytes>, x: bytes)
    ensures ReadData(DataText(d) + x) == Some(Piece(d, x))
  {
    hide ReadBytes;
    var t := DataText(d) + x;
    ExpectsLiteral(DataText(None), x);
    if d.Some? {
      assert t[0] == DataText(d)[0];
      ReadsBytes(d.value, x);
    }
  }

  function ReadFlagFields(i: Item, t: bytes): Option<Item> {
    var name1 :- Expect(Ascii(",\"KeychainNotTrustApplication\":"), t);
    var notTrust :- ReadBool(name1);
    var name2 :- Expect(Ascii(",\"KeychainNotSynchronizable\":"), notTrust.rest);
    var notSync :- ReadBool(name2);
    if notSync.rest != Ascii("}") then None else Some(i.(notTrust := notTrust.value, notSync := notSync.value))
  }

  /** A reader of exactly the texts an item is written as. */
  function ReadText(t: bytes): Option<Item> {
    var key :- StringField(Ascii("{\"Key\":"), t);
    var name :- Expect(Ascii(",\"Data\":"), key.rest);
    var data :- ReadData(name);
    var itemLabel :- StringField(Ascii(",\"Label\":"), data.rest);
    var description :- StringField(Ascii(",\"Description\":"), itemLabel.rest);
    ReadFlagFields(Item(key.value, data.value, itemLabel.value, description.value, false, false), description.rest)
  }

  lemma ReadsFlagFields(i: Item, j: Item)
    ensures ReadFlagFields(j, FlagFields(i)) == Some(j.(notTrust := i.notTrust, notSync := i.notSync))
  {
    hide Expect, BoolText, ReadBool, Ascii;
    var p, q, end := Ascii(",\"KeychainNotTrustApplication\":"), Ascii(",\"KeychainNotSynchronizable\":"), Ascii("}");
    ExpectsLiteral(p, BoolText(i.notTrust) + (q + (BoolText(i.notSync) + end)));
    ReadsBool(i.notTrust, q + (BoolText(i.notSync) + end));
    ExpectsLiteral(q, BoolText(i.notSync) + end);
    ReadsBool(i.notSync, end);
  }

  lemma ReadsText(i: Item)
    ensures ReadText(Text(i)) == Some(Reread(i))
  {
    hide Expect, StringField, ReadData, DataText, ReadFlagFields, FlagFields, Quote, Ascii, Units, Repair;
    var data := DataText(i.data) + NameFields(i);
    ReadsStringField(Ascii("{\"Key\":"), i.key, Ascii(",\"Data\":") + data);
    ExpectsLiteral(Ascii(",\"Data\":"), data);
    ReadsData(i.data, NameFields(i));
    ReadsStringField(Ascii(",\"Label\":"), i.itemLabel,
                     Ascii(",\"Description\":") + (Quote(i.description) + FlagFields(i)));
    ReadsStringField(Ascii(",\"Description\":"), i.description, FlagFields(i));
    var j := Reread(i);
    ReadsFlagFields(i, Item(j.key, j.data, j.itemLabel, j.description, false, false));
  }

  /** The reader obeys the law. */
  lemma ReadTextReadsBack()
    ensures ReadsBack(ReadText)
  {
    hide Text, ReadText, Reread;
    forall i: Item ensures ReadText(Text(i)) == Some(Reread(i)) {
      ReadsText(i);
    }
  }
}
