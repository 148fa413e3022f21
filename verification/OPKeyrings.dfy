/** The keyrings of opstandard.go and opconnect.go over one vault. */
module OPKeyrings {
  import opened Bytes
  import opened Errors
  import opened Items
  import opened Vaults
  import opened OnePassword
  import opened OPMembers

  function Answer(found: Lookup): Result<VaultItem> {
    match found
    case Found(it) => Ok(it)
    case NotFound => Err({KeyNotFound})
    case Multiple => Err({MultipleItems})
  }

  function Decoded(unmarshal: bytes -> Option<Item>, found: Lookup): Result<Item> {
    match found
    case Found(it) =>
      if it.fields == [] || unmarshal(it.fields[0].value).None? then Err({JsonSyntax})
      else Ok(unmarshal(it.fields[0].value).value)
    case NotFound => Err({KeyNotFound})
    case Multiple => Err({MultipleItems})
  }

  /** The reference answer, in terms of the items themselves. */
  lemma AnswerExactly(form: Form, cfg: Config, items: seq<VaultItem>, key: bytes)
    ensures FindEffect(form, cfg, items, key, Answer(FindKey(form, cfg, items, key)))
  {
    hide FindKey, Holds, IsReturned;
    FindExactly(form, cfg, items, key);
  }

  /** The result is the item that the concealed field spells, or a syntax error. */
  ghost predicate IsSpelled(cfg: Config, unmarshal: bytes -> Option<Item>, it: VaultItem, r: Result<Item>) {
    exists f: nat :: OnlyConcealed(cfg, it.fields, f) && r == Spelled(unmarshal, it.fields[f].value)
  }

  ghost function Spelled(unmarshal: bytes -> Option<Item>, text: bytes): Result<Item> {
    if unmarshal(text) == None then Err({JsonSyntax}) else Ok(unmarshal(text).value)
  }

  /** A Get without a fault: the item that the concealed field of the one holder spells; not found
      exactly if nothing holds the key, ambiguous exactly if two do. */
  ghost predicate GetEffect(form: Form, cfg: Config, unmarshal: bytes -> Option<Item>, items: seq<VaultItem>,
                            key: bytes, r: Result<Item>) {
    && (r == Err({KeyNotFound}) <==> forall i | 0 <= i < |items| :: !Holds(form, cfg, items[i], key))
    && (r == Err({MultipleItems}) <==>
          exists i, j :: 0 <= i < j < |items| && Holds(form, cfg, items[i], key) && Holds(form, cfg, items[j], key))
    && (r.Ok? || r == Err({JsonSyntax}) ==>
          forall i | 0 <= i < |items| && Holds(form, cfg, items[i], key) :: IsSpelled(cfg, unmarshal, items[i], r))
    && (r.Ok? || r in {Err({KeyNotFound}), Err({MultipleItems}), Err({JsonSyntax})})
  }

  lemma DecodedExactly(form: Form, cfg: Config, unmarshal: bytes -> Option<Item>, items: seq<VaultItem>, key: bytes)
    ensures GetEffect(form, cfg, unmarshal, items, key, Decoded(unmarshal, FindKey(form, cfg, items, key)))
  {
    hide FindKey, Holds;
    FindExactly(form, cfg, items, key);
    var r := Decoded(unmarshal, FindKey(form, cfg, items, key));
    if r.Ok? || r == Err({JsonSyntax}) {
      forall i | 0 <= i < |items| && Holds(form, cfg, items[i], key)
        ensures IsSpelled(cfg, unmarshal, items[i], r)
      {
        var h := FindKey(form, cfg, items, key).it;
        var f: nat :| OnlyConcealed(cfg, items[i].fields, f) && h == items[i].(fields := [items[i].fields[f]]);
      }
    }
  }

  lemma ListedExactly(form: Form, cfg: Config, items: seq<VaultItem>)
    ensures ListEffect(form, cfg, items, KeysFor(cfg, TitlesOf(Selected(cfg, items, All(form)))))
  {
    hide Selected, ListEffect;
    ListsExactly(form, cfg, items, KeysFor(cfg, TitlesOf(Selected(cfg, items, All(form)))));
  }

  // ---- listing ----

  function TitlesOf(items: seq<VaultItem>): seq<bytes> {
    seq(|items|, i requires 0 <= i < |items| => items[i].title)
  }

  function KeysFor(cfg: Config, titles: seq<bytes>): seq<bytes> {
    seq(|titles|, i requires 0 <= i < |titles| => KeyFromTitle(cfg, titles[i]))
  }

  /** The loop of Keys: the keys of all titles, or an error when a title occurs twice. */
  method CollectKeys(cfg: Config, items: seq<VaultItem>) returns (r: Result<seq<bytes>>)
    ensures r == if Distinct(TitlesOf(items)) then Ok(KeysFor(cfg, TitlesOf(items))) else Err({DuplicateTitle})
  {
    var titles: seq<bytes> := [];
    var keys: seq<bytes> := [];
    for i := 0 to |items|
      invariant |titles| <= i && keys == KeysFor(cfg, titles)
      invariant forall j | 0 <= j < i :: items[j].title in titles
      invariant |titles| == i ==> titles == TitlesOf(items)[..i] && Distinct(titles)
      invariant |titles| < i ==> !Distinct(TitlesOf(items))
      invariant forall t | t in titles :: exists j :: 0 <= j < i && items[j].title == t
    {
      var title := items[i].title;
      if title !in titles {
        titles := titles + [title];
        keys := keys + [KeyFromTitle(cfg, title)];
      } else {
        var j :| 0 <= j < i && items[j].title == title;
        assert TitlesOf(items)[j] == TitlesOf(items)[i];
      }
    }
    assert TitlesOf(items)[..|items|] == TitlesOf(items);
    if |titles| != |items| {
      return Err({DuplicateTitle});
    }
    return Ok(keys);
  }

  lemma {:induction false} TitledMember(items: seq<VaultItem>, t: bytes)
    ensures Titled(items, t) != [] <==> t in TitlesOf(items)
  {
    if items != [] {
      var n := |items| - 1;
      TitledMember(items[..n], t);
      assert TitlesOf(items) == TitlesOf(items[..n]) + [items[n].title];
    }
  }

  lemma {:induction false} TitledCount(items: seq<VaultItem>, t: bytes)
    requires Distinct(TitlesOf(items))
    ensures |Titled(items, t)| == if t in TitlesOf(items) then 1 else 0
  {
    if items != [] {
      var n := |items| - 1;
      var init := TitlesOf(items[..n]);
      assert TitlesOf(items) == init + [items[n].title];
      forall i, j | 0 <= i < j < n ensures init[i] != init[j] {
        assert TitlesOf(items)[i] != TitlesOf(items)[j];
      }
      assert items[n].title !in init by {
        forall i | 0 <= i < n ensures init[i] != items[n].title { assert TitlesOf(items)[i] != TitlesOf(items)[n]; }
      }
      TitledCount(items[..n], t);
    }
  }

  /** With pairwise distinct titles, Keys is duplicate-free and names exactly the keys that are
      found, if and only if every title carries the prefix. */
  lemma KeysExactly(form: Form, cfg: Config, items: seq<VaultItem>)
    requires Distinct(TitlesOf(Selected(cfg, items, All(form))))
    ensures var titles := TitlesOf(Selected(cfg, items, All(form)));
            var keys := KeysFor(cfg, titles);
      (Distinct(keys) && forall k :: k in keys <==> FindKey(form, cfg, items, k).Found?)
      <==> (forall t | t in titles :: HasPrefix(t, TitleStart(cfg)))
  {
    hide Selected, Matches, HasPrefix, TrimPrefix, Titled;
    var sel := Selected(cfg, items, All(form));
    var titles := TitlesOf(sel);
    var keys := KeysFor(cfg, titles);
    forall k ensures FindKey(form, cfg, items, k).Found? <==> TitleFromKey(cfg, k) in titles {
      TitledSelected(cfg, items, TitleFromKey(cfg, k), All(form));
      TitledCount(sel, TitleFromKey(cfg, k));
    }
    if forall t | t in titles :: HasPrefix(t, TitleStart(cfg)) {
      PrefixedKeysComplete(cfg, titles);
    } else {
      UnprefixedKeyIsWrong(cfg, titles);
    }
  }

  lemma PrefixedKeysComplete(cfg: Config, titles: seq<bytes>)
    requires Distinct(titles) && forall t | t in titles :: HasPrefix(t, TitleStart(cfg))
    ensures Distinct(KeysFor(cfg, titles))
    ensures forall k :: k in KeysFor(cfg, titles) <==> TitleFromKey(cfg, k) in titles
  {
    hide HasPrefix, TrimPrefix;
    var keys := KeysFor(cfg, titles);
    forall i | 0 <= i < |titles| ensures TitleFromKey(cfg, keys[i]) == titles[i] {
      TitleOfKeyExactly(cfg, titles[i]);
    }
    forall k | TitleFromKey(cfg, k) in titles ensures k in keys {
      var i :| 0 <= i < |titles| && titles[i] == TitleFromKey(cfg, k);
      KeyOfTitle(cfg, k);
      assert keys[i] == k;
    }
  }

  lemma UnprefixedKeyIsWrong(cfg: Config, titles: seq<bytes>)
    requires Distinct(titles) && exists t :: t in titles && !HasPrefix(t, TitleStart(cfg))
    ensures !(&& Distinct(KeysFor(cfg, titles))
              && forall k :: k in KeysFor(cfg, titles) <==> TitleFromKey(cfg, k) in titles)
  {
    var keys := KeysFor(cfg, titles);
    var i :| 0 <= i < |titles| && !HasPrefix(titles[i], TitleStart(cfg));
    assert keys[i] == titles[i];
    if TitleFromKey(cfg, keys[i]) in titles {
      var j :| 0 <= j < |titles| && titles[j] == TitleFromKey(cfg, keys[i]);
      KeyOfTitle(cfg, keys[i]);
      assert keys[j] == keys[i];
      assert |titles[j]| > |titles[i]|;
    }
  }

  // ---- shared by both clients ----

  lemma FetchFindsOverview(items: seq<VaultItem>, ov: VaultItem)
    requires DistinctIds(items) && ov in items
    ensures IndexOf(items, ov.id).Some? && items[IndexOf(items, ov.id).value] == ov
  {
    var i :| 0 <= i < |items| && items[i] == ov;
    IndexOfDistinct(items, i);
  }

  lemma {:induction false} ListedAreItems(items: seq<VaultItem>, title: bytes)
    ensures forall o | o in Active(items) :: o in items
    ensures forall o | o in Titled(items, title) :: o in items
  {
    if items != [] {
      ListedAreItems(items[..|items| - 1], title);
    }
  }

  method KeepConcealed(fields: seq<Field>) returns (kept: seq<Field>)
    ensures kept == ConcealedFields(fields)
  {
    kept := [];
    for i := 0 to |fields|
      invariant kept == ConcealedFields(fields[..i])
    {
      if fields[i].fieldType.Concealed? {
        kept := kept + [fields[i]];
      }
      assert fields[..i + 1][..i] == fields[..i];
    }
    assert fields[..|fields|] == fields;
  }

  /** The loop of GetOPItems and of PruneAndHydrateOPItemOverviews: overviews that pass are
      fetched, and kept when their fields have the right shape.  Only the former checks the state. */
  method PruneAndHydrate(cfg: Config, vault: Vault, overviews: seq<VaultItem>, all: bool)
    returns (r: Result<seq<VaultItem>>)
    requires vault.Valid() && forall o | o in overviews :: o in vault.items
    modifies vault`calls, vault`faults
    ensures vault.faults >= old(vault.faults)
    ensures r == if vault.faults == old(vault.faults) then Ok(Selected(cfg, overviews, all)) else Err({ClientFailed})
  {
    var kept: seq<VaultItem> := [];
    for i := 0 to |overviews|
      invariant vault.faults == old(vault.faults)
      invariant kept == Selected(cfg, overviews[..i], all)
    {
      var ov := overviews[i];
      assert overviews[..i + 1][..i] == overviews[..i];
      if cfg.tag in ov.tags && (all || ov.active) && ov.category == ApiCredentials {
        var ok, it := vault.Fetch(ov.id);
        FetchFindsOverview(vault.items, ov);
        if !ok {
          return Err({ClientFailed});
        }
        var fields := KeepConcealed(it.value.fields);
        if |fields| == 1 && fields[0].title == cfg.fieldTitle {
          kept := kept + [it.value.(fields := fields)];
        }
      }
    }
    assert overviews[..|overviews|] == overviews;
    return Ok(kept);
  }

  class OPStandardKeyring {
    const cfg: Config
    const unmarshal: bytes -> Option<Item>   // json.Unmarshal
    const vault: Vault

    constructor (cfg: Config, unmarshal: bytes -> Option<Item>, vault: Vault)
      ensures this.cfg == cfg && this.unmarshal == unmarshal && this.vault == vault
    {
      this.cfg, this.unmarshal, this.vault := cfg, unmarshal, vault;
    }

    method GetOPItems() returns (r: Result<seq<VaultItem>>)
      requires vault.Valid()
      modifies vault`calls, vault`faults
      ensures vault.faults >= old(vault.faults)
      ensures r == if vault.faults == old(vault.faults) then Ok(Selected(cfg, vault.items, false))
                   else Err({ClientFailed})
    {
      var ok, overviews := vault.List(true);
      if !ok {
        return Err({ClientFailed});
      }
      ListedAreItems(vault.items, []);
      SelectedActive(cfg, vault.items);
      r := PruneAndHydrate(cfg, vault, overviews, false);
    }

    method GetOPItem(key: bytes) returns (r: Result<VaultItem>)
      requires vault.Valid()
      modifies vault`calls, vault`faults
      ensures vault.faults >= old(vault.faults)
      ensures r == if vault.faults == old(vault.faults) then Answer(FindKey(Standard, cfg, vault.items, key))
                   else Err({ClientFailed})
      ensures vault.faults == old(vault.faults) ==> FindEffect(Standard, cfg, vault.items, key, r)
    {
      hide Matches, Selected, FindEffect;
      AnswerExactly(Standard, cfg, vault.items, key);
      var all := GetOPItems();
      if all.Err? {
        return Err(all.error);
      }
      var title := TitleFromKey(cfg, key);
      var found: seq<VaultItem> := [];
      for i := 0 to |all.value|
        invariant found == Titled(all.value[..i], title)
      {
        if all.value[i].title == title {
          found := found + [all.value[i]];
        }
        assert all.value[..i + 1][..i] == all.value[..i];
      }
      assert all.value[..|all.value|] == all.value;
      TitledSelected(cfg, vault.items, title, false);
      r := if |found| == 0 then Err({KeyNotFound}) else if |found| > 1 then Err({MultipleItems}) else Ok(found[0]);
    }

    method Get(key: bytes) returns (r: Result<Item>)
      requires vault.Valid()
      modifies vault`calls, vault`faults
      ensures vault.faults >= old(vault.faults)
      ensures vault.faults == old(vault.faults) ==> GetEffect(Standard, cfg, unmarshal, vault.items, key, r)
      ensures r == if vault.faults == old(vault.faults)
                   then Decoded(unmarshal, FindKey(Standard, cfg, vault.items, key))
                   else Err({ClientFailed})
    {
      hide Matches, GetEffect;
      DecodedExactly(Standard, cfg, unmarshal, vault.items, key);
      var it := GetOPItem(key);
      if it.Err? {
        return Err(it.error);
      }
      FoundHasField(Standard, cfg, vault.items, key);
      var item := unmarshal(it.value.fields[0].value);
      r := if item.None? then Err({JsonSyntax}) else Ok(item.value);
    }

    /** Set: the vault becomes what AfterSet says, or stays as it was. */
    method Set(item: Item) returns (r: Result<()>)
      requires vault.Valid()
      modifies vault
      ensures vault.Valid() && vault.faults >= old(vault.faults)
      ensures r.Ok? ==> !FindKey(Standard, cfg, old(vault.items), item.key).Multiple?
      ensures r.Ok? ==> SetEffect(Standard, cfg, old(vault.items), old(vault.next), item.key, Text(item), vault.items)
      ensures vault.items == if r.Ok?
                             then AfterSet(Standard, cfg, old(vault.items), old(vault.next), item.key, Text(item))
                             else old(vault.items)
      ensures r.Err? ==> r.error == if vault.faults > old(vault.faults) then {ClientFailed} else {MultipleItems}
      ensures r.Err? && vault.faults == old(vault.faults) ==>
                FindKey(Standard, cfg, old(vault.items), item.key).Multiple?
    {
      hide Matches, SetEffect;
      SetTouchesOnlyOwn(Standard, cfg, vault.items, vault.next, item.key, Text(item));
      ghost var items, next := vault.items, vault.next;
      var it := GetOPItem(item.key);
      if it.Err? && KeyNotFound !in it.error {
        return Err(it.error);
      }
      var value := Text(item);
      var ok;
      if it.Err? {
        ok := vault.Create(TitleFromKey(cfg, item.key), ApiCredentials, [cfg.tag],
                           [Field([], cfg.fieldTitle, Concealed, value)]);
      } else {
        FoundHasField(Standard, cfg, items, item.key);
        ghost var p := SetConserves(Standard, cfg, items, next, item.key, value);
        ok := vault.Put(it.value.(fields := it.value.fields[0 := it.value.fields[0].(value := value)]));
      }
      r := if ok then Ok(()) else Err({ClientFailed});
    }

    method Remove(key: bytes) returns (r: Result<()>)
      requires vault.Valid()
      modifies vault
      ensures vault.Valid() && vault.faults >= old(vault.faults)
      ensures r.Ok? ==> FindKey(Standard, cfg, old(vault.items), key).Found?
      ensures r.Ok? ==> RemoveEffect(Standard, cfg, old(vault.items), key, vault.items)
      ensures vault.items == if r.Ok? then AfterRemove(Standard, cfg, old(vault.items), key) else old(vault.items)
      ensures r.Err? && vault.faults == old(vault.faults) ==>
                Err(r.error) == Answer(FindKey(Standard, cfg, old(vault.items), key))
    {
      hide Matches, RemoveEffect;
      if FindKey(Standard, cfg, vault.items, key).Found? { RemoveTouchesOnlyOwn(Standard, cfg, vault.items, key); }
      var it := GetOPItem(key);
      if it.Err? {
        return Err(it.error);
      }
      var ok := vault.Delete(it.value.id);
      r := if ok then Ok(()) else Err({ClientFailed});
    }

    method Keys() returns (r: Result<seq<bytes>>)
      requires vault.Valid()
      modifies vault`calls, vault`faults
      ensures vault.faults >= old(vault.faults)
      ensures r.Ok? ==> ListEffect(Standard, cfg, vault.items, r.value)
      ensures var titles := TitlesOf(Selected(cfg, vault.items, false));
        r == if vault.faults > old(vault.faults) then Err({ClientFailed})
             else if Distinct(titles) then Ok(KeysFor(cfg, titles)) else Err({DuplicateTitle})
    {
      hide ListEffect;
      ListedExactly(Standard, cfg, vault.items);
      var items := GetOPItems();
      if items.Err? {
        return Err(items.error);
      }
      r := CollectKeys(cfg, items.value);
    }
  }

  class OPConnectKeyring {
    const cfg: Config
    const unmarshal: bytes -> Option<Item>   // json.Unmarshal
    const vault: Vault

    constructor (cfg: Config, unmarshal: bytes -> Option<Item>, vault: Vault)
      ensures this.cfg == cfg && this.unmarshal == unmarshal && this.vault == vault
    {
      this.cfg, this.unmarshal, this.vault := cfg, unmarshal, vault;
    }

    method GetOPItem(key: bytes) returns (r: Result<VaultItem>)
      requires vault.Valid()
      modifies vault`calls, vault`faults
      ensures vault.faults >= old(vault.faults)
      ensures r == if vault.faults == old(vault.faults) then Answer(FindKey(Connect, cfg, vault.items, key))
                   else Err({ClientFailed})
      ensures vault.faults == old(vault.faults) ==> FindEffect(Connect, cfg, vault.items, key, r)
    {
      hide Matches, Selected, Titled, Pruned, FindEffect;
      AnswerExactly(Connect, cfg, vault.items, key);
      var title := TitleFromKey(cfg, key);
      var ok, overviews := vault.ListByTitle(title);
      if !ok {
        return Err({ClientFailed});
      }
      ListedAreItems(vault.items, title);
      PrunedActive(cfg, overviews);
      PrunedTitled(cfg, vault.items, title);
      var found := PruneAndHydrate(cfg, vault, overviews, true);
      if found.Err? {
        return Err(found.error);
      }
      r := if |found.value| == 0 then Err({KeyNotFound})
           else if |found.value| > 1 then Err({MultipleItems}) else Ok(found.value[0]);
    }

    method Get(key: bytes) returns (r: Result<Item>)
      requires vault.Valid()
      modifies vault`calls, vault`faults
      ensures vault.faults >= old(vault.faults)
      ensures vault.faults == old(vault.faults) ==> GetEffect(Connect, cfg, unmarshal, vault.items, key, r)
      ensures r == if vault.faults == old(vault.faults)
                   then Decoded(unmarshal, FindKey(Connect, cfg, vault.items, key))
                   else Err({ClientFailed})
    {
      hide Matches, GetEffect;
      DecodedExactly(Connect, cfg, unmarshal, vault.items, key);
      var it := GetOPItem(key);
      if it.Err? {
        return Err(it.error);
      }
      FoundHasField(Connect, cfg, vault.items, key);
      var item := unmarshal(it.value.fields[0].value);
      r := if item.None? then Err({JsonSyntax}) else Ok(item.value);
    }

    /** Set: the vault becomes what AfterSet says, or stays as it was. */
    method Set(item: Item) returns (r: Result<()>)
      requires vault.Valid()
      modifies vault
      ensures vault.Valid() && vault.faults >= old(vault.faults)
      ensures r.Ok? ==> !FindKey(Connect, cfg, old(vault.items), item.key).Multiple?
      ensures r.Ok? ==> SetEffect(Connect, cfg, old(vault.items), old(vault.next), item.key, Text(item), vault.items)
      ensures vault.items == if r.Ok?
                             then AfterSet(Connect, cfg, old(vault.items), old(vault.next), item.key, Text(item))
                             else old(vault.items)
      ensures r.Err? ==> r.error == if vault.faults > old(vault.faults) then {ClientFailed} else {MultipleItems}
      ensures r.Err? && vault.faults == old(vault.faults) ==>
                FindKey(Connect, cfg, old(vault.items), item.key).Multiple?
    {
      hide Matches, SetEffect;
      SetTouchesOnlyOwn(Connect, cfg, vault.items, vault.next, item.key, Text(item));
      ghost var items := vault.items;
      var it := GetOPItem(item.key);
      if it.Err? && KeyNotFound !in it.error {
        return Err(it.error);
      }
      var value := Text(item);
      var ok;
      if it.Err? {
        ok := vault.Create(TitleFromKey(cfg, item.key), ApiCredentials, [cfg.tag],
                           [Field([], cfg.fieldTitle, Concealed, value)]);
      } else {
        FoundHasField(Connect, cfg, items, item.key);
        ok := vault.Put(VaultItem(it.value.id, TitleFromKey(cfg, item.key), ApiCredentials, [cfg.tag], it.value.active,
                                  [Field(it.value.fields[0].id, cfg.fieldTitle, Concealed, value)]));
      }
      r := if ok then Ok(()) else Err({ClientFailed});
    }

    method Remove(key: bytes) returns (r: Result<()>)
      requires vault.Valid()
      modifies vault
      ensures vault.Valid() && vault.faults >= old(vault.faults)
      ensures r.Ok? ==> FindKey(Connect, cfg, old(vault.items), key).Found?
      ensures r.Ok? ==> RemoveEffect(Connect, cfg, old(vault.items), key, vault.items)
      ensures vault.items == if r.Ok? then AfterRemove(Connect, cfg, old(vault.items), key) else old(vault.items)
      ensures r.Err? && vault.faults == old(vault.faults) ==>
                Err(r.error) == Answer(FindKey(Connect, cfg, old(vault.items), key))
    {
      hide Matches, RemoveEffect;
      if FindKey(Connect, cfg, vault.items, key).Found? { RemoveTouchesOnlyOwn(Connect, cfg, vault.items, key); }
      var it := GetOPItem(key);
      if it.Err? {
        return Err(it.error);
      }
      var ok := vault.Delete(it.value.id);
      r := if ok then Ok(()) else Err({ClientFailed});
    }

    method Keys() returns (r: Result<seq<bytes>>)
      requires vault.Valid()
      modifies vault`calls, vault`faults
      ensures vault.faults >= old(vault.faults)
      ensures r.Ok? ==> ListEffect(Connect, cfg, vault.items, r.value)
      ensures var titles := TitlesOf(Selected(cfg, vault.items, true));
        r == if vault.faults > old(vault.faults) then Err({ClientFailed})
             else if Distinct(titles) then Ok(KeysFor(cfg, titles)) else Err({DuplicateTitle})
    {
      hide ListEffect;
      ListedExactly(Connect, cfg, vault.items);
      var ok, overviews := vault.List(false);
      if !ok {
        return Err({ClientFailed});
      }
      var items := PruneAndHydrate(cfg, vault, overviews, true);
      if items.Err? {
        return Err(items.error);
      }
      r := CollectKeys(cfg, items.value);
    }
  }

  lemma FoundHasField(form: Form, cfg: Config, items: seq<VaultItem>, key: bytes)
    ensures FindKey(form, cfg, items, key).Found? ==> |FindKey(form, cfg, items, key).it.fields| == 1
  {
    hide Matches;
    var m := Matches(cfg, items, TitleFromKey(cfg, key), All(form));
    if |m| == 1 {
      assert m == [m[0]];
      var i := MatchShape(cfg, items, TitleFromKey(cfg, key), All(form), m[0]);
    }
  }

  /** A stored item comes back with its names repaired, and so comes back as it was exactly when
      they are valid UTF-8; this holds within one form, and across both where none of the keyring's
      items is archived. */
  lemma StoredItemComesBackExactly(unmarshal: bytes -> Option<Item>, cfg: Config, items: seq<VaultItem>, next: nat,
                                   item: Item, writer: Form, reader: Form)
    requires ReadsBack(unmarshal)
    requires DistinctIds(items) && !FindKey(writer, cfg, items, item.key).Multiple?
    requires writer == reader || NoArchived(cfg, items)
    ensures var after := AfterSet(writer, cfg, items, next, item.key, Text(item));
      && Decoded(unmarshal, FindKey(reader, cfg, after, item.key)) == Ok(Reread(item))
      && (Decoded(unmarshal, FindKey(reader, cfg, after, item.key)) == Ok(item) <==> Utf8Names(item))
  {
    hide AfterSet, Matches, Text, Reread, Utf8Names;
    FormsAgreeAfterSet(cfg, items, next, item.key, Text(item), writer, reader, item.key);
    RereadExactly(item);
  }
}
