/** What belongs to a 1Password keyring, read off the fields of the vault items themselves, and what
    finding, storing, removing and listing do in those terms. */
module OPMembers {
  import opened Bytes
  import opened Errors
  import opened Picking
  import opened Vaults
  import opened OnePassword

  /** Field i is the only concealed one, and has the configured title. */
  ghost predicate OnlyConcealed(cfg: Config, fields: seq<Field>, i: nat) {
    && i < |fields| && fields[i].fieldType == Concealed && fields[i].title == cfg.fieldTitle
    && forall j | 0 <= j < |fields| && j != i :: fields[j].fieldType != Concealed
  }

  /** The item carries the tag, is an API credential, has one concealed field, with the configured
      title, and, for the standard form, is active. */
  ghost predicate Belongs(form: Form, cfg: Config, it: VaultItem) {
    && (exists i :: 0 <= i < |it.tags| && it.tags[i] == cfg.tag)
    && it.category == ApiCredentials
    && (form == Standard ==> it.active)
    && (exists i: nat :: OnlyConcealed(cfg, it.fields, i))
  }

  /** It belongs to the keyring and has the title of the key. */
  ghost predicate Holds(form: Form, cfg: Config, it: VaultItem, key: bytes) {
    Belongs(form, cfg, it) && it.title == cfg.titlePrefix + [58, 32] + key
  }

  lemma {:induction false} ConcealedNone(fields: seq<Field>)
    ensures ConcealedFields(fields) == [] <==> forall j | 0 <= j < |fields| :: fields[j].fieldType != Concealed
  {
    if fields != [] {
      var n := |fields| - 1;
      ConcealedNone(fields[..n]);
      assert forall j | 0 <= j < n :: fields[j] == fields[..n][j];
      assert |ConcealedFields(fields)|
          == |ConcealedFields(fields[..n])| + if fields[n].fieldType.Concealed? then 1 else 0;
    }
  }

  lemma {:induction false} OnlyConcealedIsKept(cfg: Config, fields: seq<Field>, i: nat)
    requires OnlyConcealed(cfg, fields, i)
    ensures ConcealedFields(fields) == [fields[i]]
  {
    var n := |fields| - 1;
    if i < n {
      OnlyConcealedIsKept(cfg, fields[..n], i);
    } else {
      ConcealedNone(fields[..n]);
    }
  }

  lemma {:induction false} KeptIsOnlyConcealed(cfg: Config, fields: seq<Field>) returns (i: nat)
    requires |ConcealedFields(fields)| == 1 && ConcealedFields(fields)[0].title == cfg.fieldTitle
    ensures OnlyConcealed(cfg, fields, i)
  {
    var n := |fields| - 1;
    if fields[n].fieldType.Concealed? {
      assert ConcealedFields(fields) == ConcealedFields(fields[..n]) + [fields[n]];
      ConcealedNone(fields[..n]);
      assert forall j | 0 <= j < n :: fields[j] == fields[..n][j];
      i := n;
    } else {
      i := KeptIsOnlyConcealed(cfg, fields[..n]);
      assert forall j | 0 <= j < n :: fields[j] == fields[..n][j];
    }
  }

  /** The checks of the two loops choose exactly the items that belong to the keyring. */
  lemma ChosenExactly(form: Form, cfg: Config, it: VaultItem)
    ensures Chosen(cfg, it, All(form)) <==> Belongs(form, cfg, it)
    ensures forall i: nat | OnlyConcealed(cfg, it.fields, i) :: Hydrated(it) == it.(fields := [it.fields[i]])
  {
    hide ConcealedFields;
    if Chosen(cfg, it, All(form)) {
      var i := KeptIsOnlyConcealed(cfg, it.fields);
    }
    forall i: nat | OnlyConcealed(cfg, it.fields, i)
      ensures FieldShape(cfg, it) && Hydrated(it) == it.(fields := [it.fields[i]])
    {
      OnlyConcealedIsKept(cfg, it.fields, i);
    }
  }

  lemma TitleSpelled(cfg: Config, key: bytes)
    ensures TitleFromKey(cfg, key) == cfg.titlePrefix + [58, 32] + key
  {
    assert Ascii(": ") == [58, 32];
  }

  /** The item as the keyring returns it: all there is, but of the fields only the concealed one. */
  ghost predicate IsReturned(cfg: Config, h: VaultItem, it: VaultItem) {
    exists i: nat :: OnlyConcealed(cfg, it.fields, i) && h == it.(fields := [it.fields[i]])
  }

  // ---- finding ----

  lemma {:induction false} MatchesCount(form: Form, cfg: Config, items: seq<VaultItem>, key: bytes)
    ensures var m := Matches(cfg, items, TitleFromKey(cfg, key), All(form));
      && (m == [] <==> forall i | 0 <= i < |items| :: !Holds(form, cfg, items[i], key))
      && (|m| > 1 <==> exists i, j :: 0 <= i < j < |items|
                                   && Holds(form, cfg, items[i], key) && Holds(form, cfg, items[j], key))
  {
    hide Chosen, Hydrated, Belongs, TitleFromKey;
    if items != [] {
      var n := |items| - 1;
      MatchesCount(form, cfg, items[..n], key);
      ChosenExactly(form, cfg, items[n]);
      TitleSpelled(cfg, key);
      assert forall i | 0 <= i < n :: items[i] == items[..n][i];
    }
  }

  lemma PlacedIsReturned(form: Form, cfg: Config, it: VaultItem, key: bytes, h: VaultItem)
    requires MatchOne(cfg, it, TitleFromKey(cfg, key), All(form)) == [h]
    ensures Holds(form, cfg, it, key) && IsReturned(cfg, h, it)
  {
    ChosenExactly(form, cfg, it);
    TitleSpelled(cfg, key);
    var i: nat :| OnlyConcealed(cfg, it.fields, i);
  }

  /** A key is found exactly when one item holds it, and is what the keyring makes of that item;
      not found exactly when none does; ambiguous exactly when two do. */
  lemma FindExactly(form: Form, cfg: Config, items: seq<VaultItem>, key: bytes)
    ensures FindKey(form, cfg, items, key).NotFound? <==>
              forall i | 0 <= i < |items| :: !Holds(form, cfg, items[i], key)
    ensures FindKey(form, cfg, items, key).Multiple? <==>
              exists i, j :: 0 <= i < j < |items| && Holds(form, cfg, items[i], key) && Holds(form, cfg, items[j], key)
    ensures FindKey(form, cfg, items, key).Found? ==>
              forall i | 0 <= i < |items| && Holds(form, cfg, items[i], key) ::
                IsReturned(cfg, FindKey(form, cfg, items, key).it, items[i])
  {
    hide Matches, Chosen, Hydrated, Belongs;
    MatchesCount(form, cfg, items, key);
    TitleSpelled(cfg, key);
    if FindKey(form, cfg, items, key).Found? {
      var m := Matches(cfg, items, TitleFromKey(cfg, key), All(form));
      assert m == [m[0]];
      var p := MatchHasPlace(cfg, items, TitleFromKey(cfg, key), All(form), m[0]);
      PlacedIsReturned(form, cfg, items[p], key, m[0]);
      assert forall i | 0 <= i < |items| && Holds(form, cfg, items[i], key) :: i == p;
    }
  }

  /** What a lookup without a fault answers. */
  ghost predicate FindEffect(form: Form, cfg: Config, items: seq<VaultItem>, key: bytes, r: Result<VaultItem>) {
    && (r == Err({KeyNotFound}) <==> forall i | 0 <= i < |items| :: !Holds(form, cfg, items[i], key))
    && (r == Err({MultipleItems}) <==>
          exists i, j :: 0 <= i < j < |items| && Holds(form, cfg, items[i], key) && Holds(form, cfg, items[j], key))
    && (r.Ok? ==> forall i | 0 <= i < |items| && Holds(form, cfg, items[i], key) :: IsReturned(cfg, r.value, items[i]))
  }

  // ---- storing ----

  /** The item after an update: the standard form replaces the value of the one concealed field and
      drops the others; the Connect form also resets tags, and keeps id, state and field id. */
  ghost predicate IsUpdate(form: Form, cfg: Config, it: VaultItem, value: bytes, x: VaultItem) {
    exists i: nat :: OnlyConcealed(cfg, it.fields, i) && x == match form
      case Standard => it.(fields := [it.fields[i].(value := value)])
      case Connect =>
        VaultItem(it.id, it.title, ApiCredentials, [cfg.tag], it.active,
                  [Field(it.fields[i].id, cfg.fieldTitle, Concealed, value)])
  }

  /** Every item that does not hold the key stays where and as it was.  If none holds it, one is
      created behind them; if one does, it is updated in place; if more do, nothing changes. */
  ghost predicate SetEffect(form: Form, cfg: Config, items: seq<VaultItem>, next: nat, key: bytes, value: bytes,
                            after: seq<VaultItem>) {
    && |items| <= |after|
    && (forall i | 0 <= i < |items| && !Holds(form, cfg, items[i], key) :: after[i] == items[i])
    && ((forall i | 0 <= i < |items| :: !Holds(form, cfg, items[i], key)) ==>
          after == items + [VaultItem(next, cfg.titlePrefix + [58, 32] + key, ApiCredentials, [cfg.tag], true,
                                      [Field([], cfg.fieldTitle, Concealed, value)])])
    && (forall i | 0 <= i < |items| && Holds(form, cfg, items[i], key) ::
          && |after| == |items|
          && if exists j :: 0 <= j < |items| && j != i && Holds(form, cfg, items[j], key) then after == items
             else IsUpdate(form, cfg, items[i], value, after[i]))
  }

  lemma UpdatedExactly(form: Form, cfg: Config, it: VaultItem, key: bytes, value: bytes)
    requires Holds(form, cfg, it, key)
    ensures Hydrated(it).fields != []
    ensures IsUpdate(form, cfg, it, value, UpdatedItem(form, cfg, Hydrated(it), key, value))
  {
    hide ConcealedFields;
    ChosenExactly(form, cfg, it);
    TitleSpelled(cfg, key);
    var i: nat :| OnlyConcealed(cfg, it.fields, i);
    var x := UpdatedItem(form, cfg, Hydrated(it), key, value);
    assert form == Standard ==> x == it.(fields := [it.fields[i].(value := value)]);
  }

  lemma SetTouchesOnlyOwn(form: Form, cfg: Config, items: seq<VaultItem>, next: nat, key: bytes, value: bytes)
    requires DistinctIds(items)
    ensures SetEffect(form, cfg, items, next, key, value, AfterSet(form, cfg, items, next, key, value))
  {
    hide Matches, Chosen, Hydrated, Belongs, UpdatedItem, IsUpdate, TitleFromKey;
    FindExactly(form, cfg, items, key);
    TitleSpelled(cfg, key);
    if FindKey(form, cfg, items, key).Found? {
      var p := SetHasPlace(form, cfg, items, next, key, value);
      if p < |items| {
        ChosenExactly(form, cfg, items[p]);
        UpdatedExactly(form, cfg, items[p], key, value);
      }
    }
  }

  // ---- removing ----

  /** The one item that holds the key is taken out; the others keep their content and order. */
  ghost predicate RemoveEffect(form: Form, cfg: Config, items: seq<VaultItem>, key: bytes, after: seq<VaultItem>) {
    exists p: nat :: (p < |items| && Holds(form, cfg, items[p], key) && after == items[..p] + items[p + 1..]
      && forall i | 0 <= i < |items| && i != p :: !Holds(form, cfg, items[i], key))
  }

  lemma RemoveTouchesOnlyOwn(form: Form, cfg: Config, items: seq<VaultItem>, key: bytes)
    requires DistinctIds(items) && FindKey(form, cfg, items, key).Found?
    ensures RemoveEffect(form, cfg, items, key, AfterRemove(form, cfg, items, key))
  {
    hide Matches, Chosen, Belongs, AfterRemove, TitleFromKey;
    FindExactly(form, cfg, items, key);
    TitleSpelled(cfg, key);
    var p := RemoveDeletesOnlyItsKey(form, cfg, items, key);
    ChosenExactly(form, cfg, items[p]);
  }

  // ---- listing ----

  ghost function BelongsAt(form: Form, cfg: Config, items: seq<VaultItem>): nat -> bool {
    (i: nat) => i < |items| && Belongs(form, cfg, items[i])
  }

  lemma BelongsInFront(form: Form, cfg: Config, items: seq<VaultItem>)
    requires items != []
    ensures forall i: nat | i < |items| - 1 ::
              BelongsAt(form, cfg, items[..|items| - 1])(i) == BelongsAt(form, cfg, items)(i)
    ensures BelongsAt(form, cfg, items)(|items| - 1) == Belongs(form, cfg, items[|items| - 1])
  {
    hide Belongs;
  }

  /** What the keyring makes of the items at these positions. */
  ghost predicate AreReturned(cfg: Config, sel: seq<VaultItem>, items: seq<VaultItem>, p: seq<nat>) {
    |sel| == |p| && forall x | 0 <= x < |p| :: p[x] < |items| && IsReturned(cfg, sel[x], items[p[x]])
  }

  lemma ReturnedGrow(cfg: Config, sel: seq<VaultItem>, items: seq<VaultItem>, p: seq<nat>, h: VaultItem)
    requires items != [] && AreReturned(cfg, sel, items[..|items| - 1], p)
    ensures AreReturned(cfg, sel, items, p)
    ensures IsReturned(cfg, h, items[|items| - 1]) ==> AreReturned(cfg, sel + [h], items, p + [|items| - 1])
  {
    hide IsReturned;
    var init := items[..|items| - 1];
    forall x | 0 <= x < |p| ensures p[x] < |items| && IsReturned(cfg, sel[x], items[p[x]]) {
      assert init[p[x]] == items[p[x]];
    }
  }

  /** The selected items are those that belong to the keyring, in the order of the vault. */
  lemma {:induction false} SelectedExactly(form: Form, cfg: Config, items: seq<VaultItem>) returns (p: seq<nat>)
    ensures Picks(p, |items|, BelongsAt(form, cfg, items))
    ensures AreReturned(cfg, Selected(cfg, items, All(form)), items, p)
  {
    hide Chosen, Hydrated, Belongs, IsReturned, BelongsAt, Picks, AreReturned;
    if items == [] {
      p := NothingSelected(form, cfg);
    } else {
      var n := |items| - 1;
      var q := SelectedExactly(form, cfg, items[..n]);
      BelongsInFront(form, cfg, items);
      PicksSame(q, n, BelongsAt(form, cfg, items[..n]), BelongsAt(form, cfg, items));
      PicksGrow(q, n, BelongsAt(form, cfg, items));
      ChosenExactly(form, cfg, items[n]);
      p := if Belongs(form, cfg, items[n]) then q + [n] else q;
      if Belongs(form, cfg, items[n]) { BelongingIsReturned(form, cfg, items[n]); }
      ReturnedGrow(cfg, Selected(cfg, items[..n], All(form)), items, q, Hydrated(items[n]));
      if !Belongs(form, cfg, items[n]) {
        assert Selected(cfg, items[..n], All(form)) + [] == Selected(cfg, items[..n], All(form));
      }
    }
  }

  lemma NothingSelected(form: Form, cfg: Config) returns (p: seq<nat>)
    ensures Picks(p, 0, BelongsAt(form, cfg, []))
    ensures AreReturned(cfg, Selected(cfg, [], All(form)), [], p)
  {
    p := [];
  }

  /** One key for each item that belongs to the keyring, in the order of the vault: its title, without
      the prefix if it has it. */
  ghost predicate ListEffect(form: Form, cfg: Config, items: seq<VaultItem>, keys: seq<bytes>) {
    exists p: seq<nat> :: Picks(p, |items|, BelongsAt(form, cfg, items)) && AreKeys(cfg, items, p, keys)
  }

  ghost predicate AreKeys(cfg: Config, items: seq<VaultItem>, p: seq<nat>, keys: seq<bytes>) {
    |keys| == |p| && forall x | 0 <= x < |p| ::
      p[x] < |items| && keys[x] == TrimPrefix(items[p[x]].title, cfg.titlePrefix + [58, 32])
  }

  lemma ListsExactly(form: Form, cfg: Config, items: seq<VaultItem>, keys: seq<bytes>)
    requires |keys| == |Selected(cfg, items, All(form))|
    requires forall x | 0 <= x < |keys| :: keys[x] == KeyFromTitle(cfg, Selected(cfg, items, All(form))[x].title)
    ensures ListEffect(form, cfg, items, keys)
  {
    hide Selected, Belongs, BelongsAt, TrimPrefix;
    var p := SelectedExactly(form, cfg, items);
    assert Ascii(": ") == [58, 32];
    assert AreKeys(cfg, items, p, keys);
  }

  lemma BelongingIsReturned(form: Form, cfg: Config, it: VaultItem)
    requires Belongs(form, cfg, it)
    ensures IsReturned(cfg, Hydrated(it), it)
  {
    ChosenExactly(form, cfg, it);
    var i: nat :| OnlyConcealed(cfg, it.fields, i);
  }
}
