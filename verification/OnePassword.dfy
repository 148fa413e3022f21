/** The keyring view of a 1Password vault, and what storing and removing do to it. */
module OnePassword {
  import opened Bytes
  import opened Errors
  import opened Vaults

  /** The keyring's items; opstandard.go also insists on the active state, opconnect.go on none. */
  predicate Chosen(cfg: Config, it: VaultItem, all: bool) {
    Qualifies(cfg, it) && (all || it.active)
  }

  function Selected(cfg: Config, items: seq<VaultItem>, all: bool): seq<VaultItem> {
    if items == [] then [] else
      var last := items[|items| - 1];
      Selected(cfg, items[..|items| - 1], all) + (if Chosen(cfg, last, all) then [Hydrated(last)] else [])
  }

  /** The keyring's items with a given title: the reference both lookups are held against. */
  function Matches(cfg: Config, items: seq<VaultItem>, title: bytes, all: bool): seq<VaultItem> {
    if items == [] then [] else
      var last := items[|items| - 1];
      Matches(cfg, items[..|items| - 1], title, all)
      + (if Chosen(cfg, last, all) && last.title == title then [Hydrated(last)] else [])
  }

  datatype Lookup = Found(it: VaultItem) | NotFound | Multiple

  function LookupIn(matches: seq<VaultItem>): Lookup {
    if matches == [] then NotFound else if |matches| > 1 then Multiple else Found(matches[0])
  }

  /** opstandard.go: list the active items, prune them all, then compare titles. */
  function StandardMatches(cfg: Config, items: seq<VaultItem>, title: bytes): seq<VaultItem> {
    Titled(Pruned(cfg, Active(items)), title)
  }

  /** opconnect.go: let the server select by title, then prune. */
  function ConnectMatches(cfg: Config, items: seq<VaultItem>, title: bytes): seq<VaultItem> {
    Pruned(cfg, Titled(items, title))
  }

  lemma PrunedPush(cfg: Config, s: seq<VaultItem>, x: VaultItem)
    ensures Pruned(cfg, s + [x]) == Pruned(cfg, s) + (if Qualifies(cfg, x) then [Hydrated(x)] else [])
  {
    assert (s + [x])[..|s|] == s;
  }

  lemma TitledPush(s: seq<VaultItem>, x: VaultItem, title: bytes)
    ensures Titled(s + [x], title) == Titled(s, title) + (if x.title == title then [x] else [])
  {
    assert (s + [x])[..|s|] == s;
  }

  lemma {:induction false} PrunedActive(cfg: Config, items: seq<VaultItem>)
    ensures Pruned(cfg, Active(items)) == Selected(cfg, items, false)
    ensures Pruned(cfg, items) == Selected(cfg, items, true)
  {
    if items != [] {
      var init, last := items[..|items| - 1], items[|items| - 1];
      PrunedActive(cfg, init);
      PrunedPush(cfg, Active(init), last);
      assert !last.active ==> Active(items) == Active(init);
    }
  }

  lemma SelectedPush(cfg: Config, s: seq<VaultItem>, x: VaultItem, all: bool)
    ensures Selected(cfg, s + [x], all) == Selected(cfg, s, all) + (if Chosen(cfg, x, all) then [Hydrated(x)] else [])
  {
    assert (s + [x])[..|s|] == s;
  }

  /** Checking the state again on a listing of active items changes nothing. */
  lemma {:induction false} SelectedActive(cfg: Config, items: seq<VaultItem>)
    ensures Selected(cfg, Active(items), false) == Selected(cfg, items, false)
  {
    if items != [] {
      var init, last := items[..|items| - 1], items[|items| - 1];
      SelectedActive(cfg, init);
      SelectedPush(cfg, Active(init), last, false);
      assert !last.active ==> Active(items) == Active(init);
    }
  }

  lemma {:induction false} TitledSelected(cfg: Config, items: seq<VaultItem>, title: bytes, all: bool)
    ensures Titled(Selected(cfg, items, all), title) == Matches(cfg, items, title, all)
  {
    if items != [] {
      var init, last := items[..|items| - 1], items[|items| - 1];
      TitledSelected(cfg, init, title, all);
      TitledPush(Selected(cfg, init, all), Hydrated(last), title);
      assert !Chosen(cfg, last, all) ==> Selected(cfg, items, all) == Selected(cfg, init, all);
    }
  }

  lemma {:induction false} PrunedTitled(cfg: Config, items: seq<VaultItem>, title: bytes)
    ensures ConnectMatches(cfg, items, title) == Matches(cfg, items, title, true)
  {
    if items != [] {
      var init, last := items[..|items| - 1], items[|items| - 1];
      PrunedTitled(cfg, init, title);
      PrunedPush(cfg, Titled(init, title), last);
      assert last.title != title ==> Titled(items, title) == Titled(init, title);
    }
  }

  lemma LookupPaths(cfg: Config, items: seq<VaultItem>, title: bytes)
    ensures StandardMatches(cfg, items, title) == Matches(cfg, items, title, false)
    ensures ConnectMatches(cfg, items, title) == Matches(cfg, items, title, true)
  {
    PrunedActive(cfg, items);
    TitledSelected(cfg, items, title, false);
    PrunedTitled(cfg, items, title);
  }

  ghost predicate ArchivedMatch(cfg: Config, items: seq<VaultItem>, title: bytes) {
    exists i :: 0 <= i < |items| && !items[i].active && Qualifies(cfg, items[i]) && items[i].title == title
  }

  lemma {:induction false} ArchivedAddMatches(cfg: Config, items: seq<VaultItem>, title: bytes)
    ensures !ArchivedMatch(cfg, items, title) ==> Matches(cfg, items, title, true) == Matches(cfg, items, title, false)
    ensures ArchivedMatch(cfg, items, title) ==>
              |Matches(cfg, items, title, true)| > |Matches(cfg, items, title, false)|
    ensures |Matches(cfg, items, title, true)| >= |Matches(cfg, items, title, false)|
  {
    hide Qualifies, Hydrated;
    if items != [] {
      var n := |items| - 1;
      ArchivedAddMatches(cfg, items[..n], title);
      if ArchivedMatch(cfg, items[..n], title) {
        var i :| 0 <= i < n && !items[..n][i].active && Qualifies(cfg, items[..n][i]) && items[..n][i].title == title;
        assert !items[i].active && Qualifies(cfg, items[i]) && items[i].title == title;
      }
      if ArchivedMatch(cfg, items, title) {
        var i :| 0 <= i < |items| && !items[i].active && Qualifies(cfg, items[i]) && items[i].title == title;
        if i < n {
          assert items[..n][i] == items[i];
          assert ArchivedMatch(cfg, items[..n], title);
        }
      }
    }
  }

  /** The two lookups agree exactly when no archived item of the keyring carries the title, or
      the title is ambiguous among the active ones already. */
  lemma LookupsAgreeExactly(cfg: Config, items: seq<VaultItem>, title: bytes)
    ensures LookupIn(StandardMatches(cfg, items, title)) == LookupIn(ConnectMatches(cfg, items, title))
       <==> !ArchivedMatch(cfg, items, title) || |StandardMatches(cfg, items, title)| > 1
  {
    LookupPaths(cfg, items, title);
    ArchivedAddMatches(cfg, items, title);
  }

  /** They do differ: one archived item is found by the one and not by the other. */
  lemma ArchivedItemDivides(cfg: Config, id: nat, key: bytes, value: bytes)
    ensures var items := [NewItem(cfg, id, key, value).(active := false)];
      && FindKey(Standard, cfg, items, key) == NotFound
      && FindKey(Connect, cfg, items, key) == Found(items[0])
  {
    var x := NewItem(cfg, id, key, value);
    var y := x.(active := false);
    NewIsChosen(cfg, id, key, value, true);
    assert Qualifies(cfg, y) && Hydrated(y) == Hydrated(x).(active := false) == y;
    forall all: bool ensures Matches(cfg, [y], y.title, all) == if all then [y] else [] {
      assert [y][..0] == [];
    }
    assert y.title == TitleFromKey(cfg, key);
  }

  // ---- how matches move when the vault changes ----

  lemma {:induction false} MatchesConcat(cfg: Config, a: seq<VaultItem>, b: seq<VaultItem>, title: bytes, all: bool)
    ensures Matches(cfg, a + b, title, all) == Matches(cfg, a, title, all) + Matches(cfg, b, title, all)
  {
    hide Chosen, Hydrated;
    if b == [] {
      assert a + b == a;
    } else {
      var init, last := b[..|b| - 1], b[|b| - 1];
      var m := if Chosen(cfg, last, all) && last.title == title then [Hydrated(last)] else [];
      MatchesConcat(cfg, a, init, title, all);
      assert (a + b)[..|a + b| - 1] == a + init && (a + b)[|a + b| - 1] == last;
      assert Matches(cfg, b, title, all) == Matches(cfg, init, title, all) + m;
      assert Matches(cfg, a + b, title, all) == (Matches(cfg, a, title, all) + Matches(cfg, init, title, all)) + m;
    }
  }

  function MatchOne(cfg: Config, it: VaultItem, title: bytes, all: bool): seq<VaultItem> {
    if Chosen(cfg, it, all) && it.title == title then [Hydrated(it)] else []
  }

  lemma MatchesSplit(cfg: Config, items: seq<VaultItem>, i: nat, title: bytes, all: bool)
    requires i < |items|
    ensures Matches(cfg, items, title, all)
         == Matches(cfg, items[..i], title, all) + MatchOne(cfg, items[i], title, all)
          + Matches(cfg, items[i + 1..], title, all)
    ensures Matches(cfg, items[..i] + items[i + 1..], title, all)
         == Matches(cfg, items[..i], title, all) + Matches(cfg, items[i + 1..], title, all)
  {
    MatchesConcat(cfg, items[..i], items[i + 1..], title, all);
    MatchesConcat(cfg, items[..i] + [items[i]], items[i + 1..], title, all);
    MatchesConcat(cfg, items[..i], [items[i]], title, all);
    assert items == items[..i] + [items[i]] + items[i + 1..];
    assert Matches(cfg, [items[i]], title, all) == MatchOne(cfg, items[i], title, all) by {
      assert [items[i]][..0] == [];
    }
  }

  lemma MatchesUpdated(cfg: Config, items: seq<VaultItem>, i: nat, x: VaultItem, title: bytes, all: bool)
    requires i < |items|
    ensures Matches(cfg, items[i := x], title, all)
         == Matches(cfg, items[..i], title, all) + MatchOne(cfg, x, title, all)
          + Matches(cfg, items[i + 1..], title, all)
  {
    var after := items[i := x];
    MatchesSplit(cfg, after, i, title, all);
    assert after[..i] == items[..i] && after[i + 1..] == items[i + 1..];
  }

  /** A single match stands at one place of the vault. */
  lemma {:induction false} MatchHasPlace(cfg: Config, items: seq<VaultItem>, title: bytes, all: bool, h: VaultItem)
    returns (i: nat)
    requires h in Matches(cfg, items, title, all)
    ensures i < |items| && MatchOne(cfg, items[i], title, all) == [h] && items[i].id == h.id
  {
    var n := |items| - 1;
    if MatchOne(cfg, items[n], title, all) == [h] {
      i := n;
    } else {
      i := MatchHasPlace(cfg, items[..n], title, all, h);
    }
  }

  lemma {:induction false} IndexOfDistinct(items: seq<VaultItem>, i: nat)
    requires DistinctIds(items) && i < |items|
    ensures IndexOf(items, items[i].id) == Some(i)
  {
    if i < |items| - 1 {
      IndexOfDistinct(items[..|items| - 1], i);
    }
  }

  // ---- the two forms of the keyring ----

  datatype Form = Standard | Connect

  predicate All(form: Form) { form.Connect? }

  /** GetOPItem, before errors. */
  function FindKey(form: Form, cfg: Config, items: seq<VaultItem>, key: bytes): Lookup {
    LookupIn(Matches(cfg, items, TitleFromKey(cfg, key), All(form)))
  }

  function NewItem(cfg: Config, id: nat, key: bytes, value: bytes): VaultItem {
    VaultItem(id, TitleFromKey(cfg, key), ApiCredentials, [cfg.tag], true,
              [Field([], cfg.fieldTitle, Concealed, value)])
  }

  /** What an update writes: opstandard.go keeps the item with its one concealed field and a new
      value; opconnect.go rebuilds the item, resetting its tags. */
  function UpdatedItem(form: Form, cfg: Config, it: VaultItem, key: bytes, value: bytes): VaultItem
    requires it.fields != []
  {
    match form
    case Standard => it.(fields := it.fields[0 := it.fields[0].(value := value)])
    case Connect =>
      NewItem(cfg, it.id, key, value).(active := it.active,
                                       fields := [Field(it.fields[0].id, cfg.fieldTitle, Concealed, value)])
  }

  lemma MatchShape(cfg: Config, items: seq<VaultItem>, title: bytes, all: bool, h: VaultItem) returns (i: nat)
    requires Matches(cfg, items, title, all) == [h]
    ensures i < |items| && h == Hydrated(items[i]) && Chosen(cfg, items[i], all) && items[i].title == title
    ensures h.id == items[i].id
    ensures |h.fields| == 1 && h.fields[0].title == cfg.fieldTitle && h.fields[0].fieldType.Concealed?
    ensures forall t :: Matches(cfg, items[..i], t, all) + Matches(cfg, items[i + 1..], t, all)
                     == if t == title then [] else Matches(cfg, items, t, all)
  {
    i := MatchHasPlace(cfg, items, title, all, h);
    assert h.fields[0] in h.fields;
    forall t ensures Matches(cfg, items[..i], t, all) + Matches(cfg, items[i + 1..], t, all)
                  == if t == title then [] else Matches(cfg, items, t, all)
    {
      MatchesSplit(cfg, items, i, t, all);
    }
  }

  /** The vault after a Set that succeeded. */
  function AfterSet(form: Form, cfg: Config, items: seq<VaultItem>, next: nat, key: bytes,
                    value: bytes): seq<VaultItem> {
    match FindKey(form, cfg, items, key)
    case NotFound => items + [NewItem(cfg, next, key, value)]
    case Found(it) => if it.fields == [] then items else Replaced(items, UpdatedItem(form, cfg, it, key, value))
    case Multiple => items
  }

  function AfterRemove(form: Form, cfg: Config, items: seq<VaultItem>, key: bytes): seq<VaultItem> {
    match FindKey(form, cfg, items, key)
    case Found(it) => Deleted(items, it.id)
    case _ => items
  }

  lemma UpdatedStillChosen(form: Form, cfg: Config, it: VaultItem, key: bytes, value: bytes, all: bool)
    requires Chosen(cfg, it, all) && it.title == TitleFromKey(cfg, key)
    ensures Hydrated(it).fields != []
    ensures var x := UpdatedItem(form, cfg, Hydrated(it), key, value);
      && Chosen(cfg, x, all) && x.title == it.title && x.id == it.id && x.active == it.active
      && Hydrated(x) == x && |x.fields| == 1 && x.fields[0].value == value
  {
    var h := Hydrated(it);
    assert h.fields[0] in h.fields;
    var x := UpdatedItem(form, cfg, h, key, value);
    assert x.fields[..0] == [] && x.fields == [x.fields[0]];
    assert ConcealedFields(x.fields) == x.fields;
  }

  lemma NewIsChosen(cfg: Config, id: nat, key: bytes, value: bytes, all: bool)
    ensures var x := NewItem(cfg, id, key, value); Chosen(cfg, x, all) && Hydrated(x) == x
  {
    var x := NewItem(cfg, id, key, value);
    assert x.fields[..0] == [] && x.fields == [x.fields[0]];
    assert ConcealedFields(x.fields) == x.fields && x.tags[0] == cfg.tag;
  }

  /** The item is new, or takes the place of the one item found under its title. */
  ghost predicate SetAt(form: Form, cfg: Config, items: seq<VaultItem>, next: nat, key: bytes, value: bytes, i: nat) {
    || (i == |items| && AfterSet(form, cfg, items, next, key, value) == items + [NewItem(cfg, next, key, value)])
    || (i < |items| && Chosen(cfg, items[i], All(form)) && items[i].title == TitleFromKey(cfg, key)
        && Hydrated(items[i]).fields != []
        && AfterSet(form, cfg, items, next, key, value)
           == items[i := UpdatedItem(form, cfg, Hydrated(items[i]), key, value)])
  }

  lemma SetHasPlace(form: Form, cfg: Config, items: seq<VaultItem>, next: nat, key: bytes, value: bytes)
    returns (i: nat)
    requires DistinctIds(items) && !FindKey(form, cfg, items, key).Multiple?
    ensures SetAt(form, cfg, items, next, key, value, i)
    ensures i < |items| ==> forall t ::
              Matches(cfg, items[..i], t, All(form)) + Matches(cfg, items[i + 1..], t, All(form))
              == if t == TitleFromKey(cfg, key) then [] else Matches(cfg, items, t, All(form))
    ensures i == |items| ==> Matches(cfg, items, TitleFromKey(cfg, key), All(form)) == []
  {
    hide Hydrated, Chosen, UpdatedItem;
    var m := Matches(cfg, items, TitleFromKey(cfg, key), All(form));
    if m == [] {
      i := |items|;
    } else {
      assert m == [m[0]];
      i := MatchShape(cfg, items, TitleFromKey(cfg, key), All(form), m[0]);
      IndexOfDistinct(items, i);
      UpdatedStillChosen(form, cfg, items[i], key, value, All(form));
    }
  }

  /** What a Get decodes: the concealed value of the one item found. */
  function ValueOf(form: Form, cfg: Config, items: seq<VaultItem>, key: bytes): Option<bytes> {
    match FindKey(form, cfg, items, key)
    case Found(it) => if it.fields == [] then None else Some(it.fields[0].value)
    case _ => None
  }

  lemma AppendedMatches(cfg: Config, items: seq<VaultItem>, x: VaultItem, t: bytes, all: bool)
    ensures Matches(cfg, items + [x], t, all) == Matches(cfg, items, t, all) + MatchOne(cfg, x, t, all)
  {
    assert (items + [x])[..|items|] == items;
  }

  lemma SwappedMatches(cfg: Config, items: seq<VaultItem>, i: nat, x: VaultItem, title: bytes, t: bytes, all: bool)
    requires i < |items| && Chosen(cfg, x, all) && x.title == title
    requires Matches(cfg, items[..i], t, all) + Matches(cfg, items[i + 1..], t, all)
          == if t == title then [] else Matches(cfg, items, t, all)
    ensures Matches(cfg, items[i := x], t, all) == if t == title then [Hydrated(x)] else Matches(cfg, items, t, all)
  {
    hide Matches, Hydrated, Chosen;
    MatchesUpdated(cfg, items, i, x, t, all);
  }

  /** Set stores the value under its key and leaves every other title's matches as they were. */
  lemma SetStoresOnlyItsKey(form: Form, cfg: Config, items: seq<VaultItem>, next: nat, key: bytes, value: bytes)
    requires DistinctIds(items) && !FindKey(form, cfg, items, key).Multiple?
    ensures ValueOf(form, cfg, AfterSet(form, cfg, items, next, key, value), key) == Some(value)
    ensures forall t | t != TitleFromKey(cfg, key) ::
      Matches(cfg, AfterSet(form, cfg, items, next, key, value), t, All(form)) == Matches(cfg, items, t, All(form))
  {
    hide Hydrated, Chosen, UpdatedItem, AfterSet, Matches, ConcealedFields;
    var all, title := All(form), TitleFromKey(cfg, key);
    var after := AfterSet(form, cfg, items, next, key, value);
    var i := SetHasPlace(form, cfg, items, next, key, value);
    var x := if i < |items| then UpdatedItem(form, cfg, Hydrated(items[i]), key, value)
             else NewItem(cfg, next, key, value);
    if i < |items| {
      UpdatedStillChosen(form, cfg, items[i], key, value, all);
    } else {
      NewIsChosen(cfg, next, key, value, all);
    }
    forall t ensures Matches(cfg, after, t, all) == if t == title then [x] else Matches(cfg, items, t, all) {
      if i < |items| {
        SwappedMatches(cfg, items, i, x, title, t, all);
      } else {
        AppendedMatches(cfg, items, x, t, all);
      }
    }
  }

  /** At every place but one the vault holds what it held, and that one was free or held the
      keyring's own item of this title; ids stay distinct. */
  lemma SetConserves(form: Form, cfg: Config, items: seq<VaultItem>, next: nat, key: bytes, value: bytes)
    returns (p: nat)
    requires DistinctIds(items) && forall i | 0 <= i < |items| :: items[i].id < next
    ensures var after := AfterSet(form, cfg, items, next, key, value);
      && DistinctIds(after) && |items| <= |after| <= |items| + 1
      && (forall i | 0 <= i < |items| && i != p :: after[i] == items[i])
    ensures p < |items| && AfterSet(form, cfg, items, next, key, value)[p] != items[p] ==>
              Chosen(cfg, items[p], All(form)) && items[p].title == TitleFromKey(cfg, key)
    ensures FindKey(form, cfg, items, key).Multiple? ==> AfterSet(form, cfg, items, next, key, value) == items
  {
    hide Matches, Hydrated, Chosen, UpdatedItem;
    if FindKey(form, cfg, items, key).Multiple? {
      p := |items|;
    } else {
      p := SetHasPlace(form, cfg, items, next, key, value);
      if p < |items| { UpdatedStillChosen(form, cfg, items[p], key, value, All(form)); }
    }
  }

  /** No title belongs to two of the keyring's items. */
  ghost predicate UniqueTitles(form: Form, cfg: Config, items: seq<VaultItem>) {
    forall t: bytes :: |Matches(cfg, items, t, All(form))| <= 1
  }

  lemma SetKeepsTitlesUnique(form: Form, cfg: Config, items: seq<VaultItem>, next: nat, key: bytes, value: bytes)
    requires DistinctIds(items) && UniqueTitles(form, cfg, items)
    ensures UniqueTitles(form, cfg, AfterSet(form, cfg, items, next, key, value))
  {
    hide Matches, AfterSet;
    assert |Matches(cfg, items, TitleFromKey(cfg, key), All(form))| <= 1;
    SetStoresOnlyItsKey(form, cfg, items, next, key, value);
    var after := AfterSet(form, cfg, items, next, key, value);
    assert FindKey(form, cfg, after, key).Found?;
    forall t: bytes ensures |Matches(cfg, after, t, All(form))| <= 1 {
      assert |Matches(cfg, items, t, All(form))| <= 1;
    }
  }

  /** Remove takes out the one item found, and nothing else. */
  lemma RemoveDeletesOnlyItsKey(form: Form, cfg: Config, items: seq<VaultItem>, key: bytes) returns (i: nat)
    requires DistinctIds(items) && FindKey(form, cfg, items, key).Found?
    ensures i < |items| && Chosen(cfg, items[i], All(form)) && items[i].title == TitleFromKey(cfg, key)
    ensures AfterRemove(form, cfg, items, key) == items[..i] + items[i + 1..]
    ensures DistinctIds(AfterRemove(form, cfg, items, key))
    ensures FindKey(form, cfg, AfterRemove(form, cfg, items, key), key).NotFound?
    ensures forall t | t != TitleFromKey(cfg, key) ::
      Matches(cfg, AfterRemove(form, cfg, items, key), t, All(form)) == Matches(cfg, items, t, All(form))
  {
    hide Matches, Hydrated, Chosen, ConcealedFields, IndexOf;
    var title, all := TitleFromKey(cfg, key), All(form);
    var m := Matches(cfg, items, title, all);
    assert m == [m[0]];
    i := MatchShape(cfg, items, title, all, m[0]);
    IndexOfDistinct(items, i);
    var after := AfterRemove(form, cfg, items, key);
    assert after == items[..i] + items[i + 1..];
    forall t ensures Matches(cfg, after, t, all) == if t == title then [] else Matches(cfg, items, t, all) {
      MatchesSplit(cfg, items, i, t, all);
    }
  }

  /** None of the keyring's own items is archived. */
  ghost predicate NoArchived(cfg: Config, items: seq<VaultItem>) {
    forall i | 0 <= i < |items| :: items[i].active || !Qualifies(cfg, items[i])
  }

  lemma SameMatches(cfg: Config, items: seq<VaultItem>, title: bytes)
    requires NoArchived(cfg, items)
    ensures Matches(cfg, items, title, true) == Matches(cfg, items, title, false)
  {
    ArchivedAddMatches(cfg, items, title);
  }

  lemma SetKeepsNoArchived(form: Form, cfg: Config, items: seq<VaultItem>, next: nat, key: bytes, value: bytes)
    requires DistinctIds(items) && NoArchived(cfg, items)
    ensures NoArchived(cfg, AfterSet(form, cfg, items, next, key, value))
  {
    hide Matches, Hydrated, Qualifies;
    if !FindKey(form, cfg, items, key).Multiple? {
      var p := SetHasPlace(form, cfg, items, next, key, value);
      if p < |items| { UpdatedStillChosen(form, cfg, items[p], key, value, All(form)); }
    }
  }

  /** Where the reader is the writer, or none of the keyring's items is archived, the keyring holds
      the new value under its key and the old values under all others. */
  lemma FormsAgreeAfterSet(cfg: Config, items: seq<VaultItem>, next: nat, key: bytes, value: bytes,
                           writer: Form, reader: Form, j: bytes)
    requires DistinctIds(items) && !FindKey(writer, cfg, items, key).Multiple?
    requires writer == reader || NoArchived(cfg, items)
    ensures ValueOf(reader, cfg, AfterSet(writer, cfg, items, next, key, value), j)
         == if j == key then Some(value) else ValueOf(reader, cfg, items, j)
  {
    hide Matches, AfterSet, NoArchived;
    var after := AfterSet(writer, cfg, items, next, key, value);
    if writer != reader {
      SetKeepsNoArchived(writer, cfg, items, next, key, value);
      SameMatches(cfg, items, TitleFromKey(cfg, j));
      SameMatches(cfg, after, TitleFromKey(cfg, j));
    }
    SetStoresOnlyItsKey(writer, cfg, items, next, key, value);
    if TitleFromKey(cfg, j) == TitleFromKey(cfg, key) {
      KeyOfTitle(cfg, j);
      KeyOfTitle(cfg, key);
    }
  }
}
