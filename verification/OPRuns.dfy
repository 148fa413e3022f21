/** Whole runs of the two 1Password keyrings over one vault.  Either alone acts as a map; both, in
    turns, act as one map where none of the keyring's own items is archived; and everything in the
    vault that is not theirs stays as it was. */
module OPRuns {
  import opened Bytes
  import opened Errors
  import opened Items
  import opened Vaults
  import opened Picking
  import opened OnePassword
  import opened OPMembers
  import opened OPKeyrings
  import opened Runs

  /** From keys to the text stored under them. */
  type Ring = imap<bytes, bytes>

  /** An operation of one of the two keyrings. */
  datatype Turn = Turn(form: Form, op: Op<Item>)

  type Outcomes = Outcome<Item>

  ghost function RingOf(view: Form, cfg: Config, items: seq<VaultItem>): Ring {
    imap k: bytes | ValueOf(view, cfg, items, k).Some? :: ValueOf(view, cfg, items, k).value
  }

  /** Every item of the keyring carries the title prefix. */
  ghost predicate Prefixed(view: Form, cfg: Config, items: seq<VaultItem>) {
    forall t: bytes | Matches(cfg, items, t, All(view)) != [] :: HasPrefix(t, TitleStart(cfg))
  }

  /** The items that are not the keyring's, in the order of the vault. */
  function Foreign(view: Form, cfg: Config, items: seq<VaultItem>): seq<VaultItem> {
    if items == [] then [] else
      var last := items[|items| - 1];
      Foreign(view, cfg, items[..|items| - 1]) + (if Chosen(cfg, last, All(view)) then [] else [last])
  }

  /** The second keyring sees what the first one does. */
  ghost predicate Shares(view: Form, form: Form, cfg: Config, items: seq<VaultItem>) {
    form == view || NoArchived(cfg, items)
  }

  /** One operation on the map; `exact` says that the listing can be trusted. */
  ghost predicate Step(unmarshal: bytes -> Option<Item>, exact: bool, s: Ring, t: Turn, out: Outcomes, s': Ring) {
    match t.op
    case SetOp(item) => if out.Done? then s' == s[item.key := Text(item)] else out.Failed? && s' == s
    case GetOp(k) => s' == s && (out.Failed? || (k in s && out.Data? && unmarshal(s[k]) == Some(out.data)))
    case RemoveOp(k) => if out.Done? then k in s && s' == s - {k} else out.Failed? && s' == s
    case KeysOp =>
      && s' == s
      && (out.Failed? || (out.Names? && (exact <==> Distinct(out.names) && forall k :: k in out.names <==> k in s)))
  }

  ghost function StepOf(unmarshal: bytes -> Option<Item>, exact: bool): (Ring, Turn, Outcomes, Ring) -> bool {
    (s: Ring, t: Turn, out: Outcomes, s': Ring) => Step(unmarshal, exact, s, t, out, s')
  }

  /** Exactly when an operation fails that meets no fault: a Remove of a key that is not there, and
      a Get of one that is not there or holds no item. */
  ghost predicate FaultFree(unmarshal: bytes -> Option<Item>, s: Ring, t: Turn, out: Outcomes) {
    match t.op
    case SetOp(_) => !out.Failed?
    case GetOp(k) => out.Failed? <==> k !in s || unmarshal(s[k]) == None
    case RemoveOp(k) => out.Failed? <==> k !in s
    case KeysOp => !out.Failed?
  }

  // ---- foreign items ----

  ghost function ForeignAt(view: Form, cfg: Config, items: seq<VaultItem>): nat -> bool {
    (i: nat) => i < |items| && !Belongs(view, cfg, items[i])
  }

  ghost predicate AreAt(r: seq<VaultItem>, items: seq<VaultItem>, p: seq<nat>) {
    |r| == |p| && forall x | 0 <= x < |p| :: p[x] < |items| && r[x] == items[p[x]]
  }

  lemma ForeignInFront(view: Form, cfg: Config, items: seq<VaultItem>)
    requires items != []
    ensures forall i: nat | i < |items| - 1 ::
              ForeignAt(view, cfg, items[..|items| - 1])(i) == ForeignAt(view, cfg, items)(i)
    ensures ForeignAt(view, cfg, items)(|items| - 1) == !Belongs(view, cfg, items[|items| - 1])
  {
    hide Belongs;
  }

  lemma AreAtGrow(r: seq<VaultItem>, items: seq<VaultItem>, p: seq<nat>)
    requires items != [] && AreAt(r, items[..|items| - 1], p)
    ensures AreAt(r, items, p) && AreAt(r + [items[|items| - 1]], items, p + [|items| - 1])
  {
    forall x | 0 <= x < |p| ensures p[x] < |items| && r[x] == items[p[x]] {
      assert items[..|items| - 1][p[x]] == items[p[x]];
    }
  }

  /** The foreign items are those that do not belong to the keyring, as they are and in the order of
      the vault. */
  lemma {:induction false} ForeignExactly(view: Form, cfg: Config, items: seq<VaultItem>) returns (p: seq<nat>)
    ensures Picks(p, |items|, ForeignAt(view, cfg, items)) && AreAt(Foreign(view, cfg, items), items, p)
  {
    hide Belongs, Chosen, Picks, ForeignAt, AreAt;
    if items == [] {
      p := NothingForeign(view, cfg);
    } else {
      var n := |items| - 1;
      var q := ForeignExactly(view, cfg, items[..n]);
      ForeignInFront(view, cfg, items);
      PicksSame(q, n, ForeignAt(view, cfg, items[..n]), ForeignAt(view, cfg, items));
      PicksGrow(q, n, ForeignAt(view, cfg, items));
      ChosenExactly(view, cfg, items[n]);
      AreAtGrow(Foreign(view, cfg, items[..n]), items, q);
      p := if Belongs(view, cfg, items[n]) then q else q + [n];
      if Belongs(view, cfg, items[n]) {
        assert Foreign(view, cfg, items[..n]) + [] == Foreign(view, cfg, items[..n]);
      }
    }
  }

  lemma NothingForeign(view: Form, cfg: Config) returns (p: seq<nat>)
    ensures Picks(p, 0, ForeignAt(view, cfg, [])) && AreAt(Foreign(view, cfg, []), [], p)
  {
    p := [];
  }

  lemma {:induction false} ForeignConcat(view: Form, cfg: Config, a: seq<VaultItem>, b: seq<VaultItem>)
    ensures Foreign(view, cfg, a + b) == Foreign(view, cfg, a) + Foreign(view, cfg, b)
  {
    if b == [] {
      assert a + b == a;
    } else {
      var init := b[..|b| - 1];
      ForeignConcat(view, cfg, a, init);
      assert (a + b)[..|a + b| - 1] == a + init;
    }
  }

  /** Places that hold the keyring's own items do not count. */
  lemma ForeignSkips(view: Form, cfg: Config, items: seq<VaultItem>, i: nat)
    requires i < |items| && Chosen(cfg, items[i], All(view))
    ensures Foreign(view, cfg, items) == Foreign(view, cfg, items[..i]) + Foreign(view, cfg, items[i + 1..])
  {
    hide Chosen;
    assert items == items[..i] + [items[i]] + items[i + 1..];
    ForeignConcat(view, cfg, items[..i] + [items[i]], items[i + 1..]);
    ForeignConcat(view, cfg, items[..i], [items[i]]);
    assert [items[i]][..0] == [];
  }

  lemma SetKeepsForeign(form: Form, cfg: Config, items: seq<VaultItem>, next: nat, key: bytes, value: bytes)
    requires DistinctIds(items) && !FindKey(form, cfg, items, key).Multiple?
    ensures Foreign(form, cfg, AfterSet(form, cfg, items, next, key, value)) == Foreign(form, cfg, items)
  {
    hide Chosen, Hydrated, UpdatedItem, AfterSet, Matches, Foreign;
    var after := AfterSet(form, cfg, items, next, key, value);
    var i := SetHasPlace(form, cfg, items, next, key, value);
    if i < |items| {
      UpdatedStillChosen(form, cfg, items[i], key, value, All(form));
      ForeignSkips(form, cfg, items, i);
      ForeignSkips(form, cfg, after, i);
      assert after[..i] == items[..i] && after[i + 1..] == items[i + 1..];
    } else {
      NewIsChosen(cfg, next, key, value, All(form));
      ForeignSkips(form, cfg, after, i);
      assert after[..i] == items && after[i + 1..] == [];
      ForeignConcat(form, cfg, items, []);
      assert items + [] == items;
    }
  }

  lemma RemoveKeepsForeign(form: Form, cfg: Config, items: seq<VaultItem>, key: bytes)
    requires DistinctIds(items) && FindKey(form, cfg, items, key).Found?
    ensures Foreign(form, cfg, AfterRemove(form, cfg, items, key)) == Foreign(form, cfg, items)
  {
    hide Chosen, AfterRemove, Matches, Foreign;
    var i := RemoveDeletesOnlyItsKey(form, cfg, items, key);
    ForeignSkips(form, cfg, items, i);
    ForeignConcat(form, cfg, items[..i], items[i + 1..]);
  }

  // ---- one view for both forms ----

  lemma {:induction false} SameSelection(cfg: Config, items: seq<VaultItem>)
    requires NoArchived(cfg, items)
    ensures Selected(cfg, items, true) == Selected(cfg, items, false)
    ensures Foreign(Connect, cfg, items) == Foreign(Standard, cfg, items)
  {
    if items != [] { SameSelection(cfg, items[..|items| - 1]); }
  }

  /** Without archived items of the keyring both forms see the same. */
  lemma OneView(view: Form, form: Form, cfg: Config, items: seq<VaultItem>)
    requires Shares(view, form, cfg, items)
    ensures forall t: bytes :: Matches(cfg, items, t, All(form)) == Matches(cfg, items, t, All(view))
    ensures RingOf(form, cfg, items) == RingOf(view, cfg, items)
    ensures Foreign(form, cfg, items) == Foreign(view, cfg, items)
    ensures Selected(cfg, items, All(form)) == Selected(cfg, items, All(view))
    ensures forall k: bytes :: FindKey(form, cfg, items, k) == FindKey(view, cfg, items, k)
  {
    hide Matches, NoArchived, Foreign, Selected;
    if form != view {
      SameSelection(cfg, items);
      forall t: bytes ensures Matches(cfg, items, t, All(form)) == Matches(cfg, items, t, All(view)) {
        SameMatches(cfg, items, t);
      }
    }
  }

  lemma HeldIsFound(view: Form, cfg: Config, items: seq<VaultItem>, k: bytes)
    ensures k in RingOf(view, cfg, items) <==> FindKey(view, cfg, items, k).Found?
  {
    hide Matches;
    FoundHasField(view, cfg, items, k);
  }

  lemma UniqueIsNotMultiple(view: Form, cfg: Config, items: seq<VaultItem>, k: bytes)
    requires UniqueTitles(view, cfg, items)
    ensures !FindKey(view, cfg, items, k).Multiple?
  {
    hide Matches;
    assert |Matches(cfg, items, TitleFromKey(cfg, k), All(view))| <= 1;
  }

  /** The same items, foreign ones included, seen from the outside. */
  ghost predicate Preserves(view: Form, cfg: Config, before: seq<VaultItem>, after: seq<VaultItem>) {
    && UniqueTitles(view, cfg, after) && Foreign(view, cfg, after) == Foreign(view, cfg, before)
    && (Prefixed(view, cfg, after) <==> Prefixed(view, cfg, before))
    && (NoArchived(cfg, before) ==> NoArchived(cfg, after))
  }

  /** Titles other than the key's have the matches they had, and the key's own has at most one. */
  ghost predicate OnlyTitleMoved(view: Form, cfg: Config, before: seq<VaultItem>, after: seq<VaultItem>, title: bytes) {
    && |Matches(cfg, after, title, All(view))| <= 1
    && forall t | t != title :: Matches(cfg, after, t, All(view)) == Matches(cfg, before, t, All(view))
  }

  lemma MovedKeepsShape(view: Form, cfg: Config, before: seq<VaultItem>, after: seq<VaultItem>, key: bytes)
    requires UniqueTitles(view, cfg, before) && OnlyTitleMoved(view, cfg, before, after, TitleFromKey(cfg, key))
    ensures UniqueTitles(view, cfg, after) && (Prefixed(view, cfg, after) <==> Prefixed(view, cfg, before))
  {
    hide Matches, HasPrefix;
    var title := TitleFromKey(cfg, key);
    PrefixOfConcat(TitleStart(cfg), key);
    forall t: bytes
      ensures |Matches(cfg, after, t, All(view))| <= 1
      ensures t != title ==> Matches(cfg, after, t, All(view)) == Matches(cfg, before, t, All(view))
      ensures t == title ==> HasPrefix(t, TitleStart(cfg))
    {
      assert |Matches(cfg, before, t, All(view))| <= 1;
    }
  }

  lemma ValuedIsUnique(form: Form, cfg: Config, items: seq<VaultItem>, key: bytes)
    requires ValueOf(form, cfg, items, key).Some?
    ensures |Matches(cfg, items, TitleFromKey(cfg, key), All(form))| == 1
  {
    hide Matches;
  }

  lemma OwnSet(form: Form, cfg: Config, items: seq<VaultItem>, next: nat, key: bytes, value: bytes)
    requires DistinctIds(items) && UniqueTitles(form, cfg, items)
    ensures var after := AfterSet(form, cfg, items, next, key, value);
      Preserves(form, cfg, items, after) && RingOf(form, cfg, after) == RingOf(form, cfg, items)[key := value]
  {
    hide Matches, AfterSet, NoArchived, Prefixed, Foreign, FindKey, ValueOf;
    var after, title := AfterSet(form, cfg, items, next, key, value), TitleFromKey(cfg, key);
    UniqueIsNotMultiple(form, cfg, items, key);
    if NoArchived(cfg, items) { SetKeepsNoArchived(form, cfg, items, next, key, value); }
    SetKeepsForeign(form, cfg, items, next, key, value);
    SetStoresOnlyItsKey(form, cfg, items, next, key, value);
    ValuedIsUnique(form, cfg, after, key);
    MovedKeepsShape(form, cfg, items, after, key);
    forall k: bytes
      ensures ValueOf(form, cfg, after, k) == if k == key then Some(value) else ValueOf(form, cfg, items, k)
    {
      FormsAgreeAfterSet(cfg, items, next, key, value, form, form, k);
    }
  }

  /** A key's value depends on the matches of its title alone. */
  lemma ValueFromMatches(view: Form, cfg: Config, a: seq<VaultItem>, b: seq<VaultItem>, k: bytes)
    ensures Matches(cfg, b, TitleFromKey(cfg, k), All(view)) == [] ==> ValueOf(view, cfg, b, k) == None
    ensures Matches(cfg, a, TitleFromKey(cfg, k), All(view)) == Matches(cfg, b, TitleFromKey(cfg, k), All(view)) ==>
              ValueOf(view, cfg, a, k) == ValueOf(view, cfg, b, k)
  {
    hide Matches;
  }

  lemma OwnRemove(form: Form, cfg: Config, items: seq<VaultItem>, key: bytes)
    requires DistinctIds(items) && UniqueTitles(form, cfg, items) && FindKey(form, cfg, items, key).Found?
    ensures var after := AfterRemove(form, cfg, items, key);
      Preserves(form, cfg, items, after) && RingOf(form, cfg, after) == RingOf(form, cfg, items) - {key}
  {
    hide Matches, AfterRemove, Prefixed, Foreign, ValueOf, Qualifies;
    var after, title := AfterRemove(form, cfg, items, key), TitleFromKey(cfg, key);
    RemoveKeepsForeign(form, cfg, items, key);
    var i := RemoveDeletesOnlyItsKey(form, cfg, items, key);
    assert Matches(cfg, after, title, All(form)) == [];
    MovedKeepsShape(form, cfg, items, after, key);
    forall k: bytes
      ensures ValueOf(form, cfg, after, k) == if k == key then None else ValueOf(form, cfg, items, k)
    {
      KeyOfTitle(cfg, k);
      KeyOfTitle(cfg, key);
      ValueFromMatches(form, cfg, items, after, k);
    }
  }

  /** What one form keeps of its own view, it keeps of any view it shares. */
  lemma PreservesShared(view: Form, form: Form, cfg: Config, before: seq<VaultItem>, after: seq<VaultItem>)
    requires Shares(view, form, cfg, before) && Preserves(form, cfg, before, after)
    ensures Preserves(view, cfg, before, after) && Shares(view, form, cfg, after)
    ensures RingOf(form, cfg, before) == RingOf(view, cfg, before)
    ensures RingOf(form, cfg, after) == RingOf(view, cfg, after)
  {
    hide Matches, NoArchived, Foreign, RingOf, HasPrefix;
    OneView(view, form, cfg, before);
    OneView(view, form, cfg, after);
  }

  lemma SharedUnique(view: Form, form: Form, cfg: Config, items: seq<VaultItem>)
    requires Shares(view, form, cfg, items) && UniqueTitles(view, cfg, items)
    ensures UniqueTitles(form, cfg, items)
  {
    hide Matches, NoArchived, Foreign, RingOf;
    OneView(view, form, cfg, items);
    forall t: bytes ensures |Matches(cfg, items, t, All(form))| <= 1 {
      assert |Matches(cfg, items, t, All(view))| <= 1;
    }
  }

  lemma SetStep(view: Form, form: Form, cfg: Config, items: seq<VaultItem>, next: nat, key: bytes, value: bytes)
    requires DistinctIds(items) && UniqueTitles(view, cfg, items) && Shares(view, form, cfg, items)
    ensures var after := AfterSet(form, cfg, items, next, key, value);
      Preserves(view, cfg, items, after) && RingOf(view, cfg, after) == RingOf(view, cfg, items)[key := value]
    ensures !FindKey(form, cfg, items, key).Multiple?
  {
    hide UniqueTitles, Preserves, RingOf, AfterSet, Shares, FindKey;
    SharedUnique(view, form, cfg, items);
    UniqueIsNotMultiple(form, cfg, items, key);
    OwnSet(form, cfg, items, next, key, value);
    PreservesShared(view, form, cfg, items, AfterSet(form, cfg, items, next, key, value));
  }

  lemma RemoveStep(view: Form, form: Form, cfg: Config, items: seq<VaultItem>, key: bytes)
    requires DistinctIds(items) && UniqueTitles(view, cfg, items) && Shares(view, form, cfg, items)
    requires FindKey(form, cfg, items, key).Found?
    ensures var after := AfterRemove(form, cfg, items, key);
      Preserves(view, cfg, items, after) && RingOf(view, cfg, after) == RingOf(view, cfg, items) - {key}
  {
    hide UniqueTitles, Preserves, RingOf, AfterRemove, Shares, FindKey;
    SharedUnique(view, form, cfg, items);
    OwnRemove(form, cfg, items, key);
    PreservesShared(view, form, cfg, items, AfterRemove(form, cfg, items, key));
  }

  // ---- the listing ----

  lemma {:induction false} DistinctWhenUnique(items: seq<VaultItem>)
    requires forall t: bytes :: |Titled(items, t)| <= 1
    ensures Distinct(TitlesOf(items))
  {
    if items != [] {
      var n := |items| - 1;
      var init := items[..n];
      forall t: bytes ensures |Titled(init, t)| <= 1 {
        assert |Titled(items, t)| <= 1;
      }
      DistinctWhenUnique(init);
      assert |Titled(items, items[n].title)| <= 1;
      TitledMember(init, items[n].title);
      assert TitlesOf(items) == TitlesOf(init) + [items[n].title];
    }
  }

  /** Keys finds no title twice exactly when no title is ambiguous. */
  lemma TitlesDistinctExactly(form: Form, cfg: Config, items: seq<VaultItem>)
    ensures Distinct(TitlesOf(Selected(cfg, items, All(form)))) <==> UniqueTitles(form, cfg, items)
  {
    hide Matches, Selected, Titled;
    var sel := Selected(cfg, items, All(form));
    forall t: bytes ensures Titled(sel, t) == Matches(cfg, items, t, All(form)) {
      TitledSelected(cfg, items, t, All(form));
    }
    if UniqueTitles(form, cfg, items) {
      forall t: bytes ensures |Titled(sel, t)| <= 1 {
        assert |Matches(cfg, items, t, All(form))| <= 1;
      }
      DistinctWhenUnique(sel);
    }
    if Distinct(TitlesOf(sel)) {
      forall t: bytes ensures |Matches(cfg, items, t, All(form))| <= 1 {
        TitledCount(sel, t);
      }
    }
  }

  lemma ListingStep(view: Form, cfg: Config, items: seq<VaultItem>)
    requires UniqueTitles(view, cfg, items)
    ensures var titles := TitlesOf(Selected(cfg, items, All(view)));
      && Distinct(titles)
      && (Prefixed(view, cfg, items) <==>
          Distinct(KeysFor(cfg, titles)) && forall k :: k in KeysFor(cfg, titles) <==> k in RingOf(view, cfg, items))
  {
    hide Matches, Selected, Titled, KeysFor, RingOf, TitlesOf, HasPrefix;
    TitlesDistinctExactly(view, cfg, items);
    KeysExactly(view, cfg, items);
    var sel := Selected(cfg, items, All(view));
    forall k: bytes ensures k in RingOf(view, cfg, items) <==> FindKey(view, cfg, items, k).Found? {
      HeldIsFound(view, cfg, items, k);
    }
    forall t: bytes ensures Matches(cfg, items, t, All(view)) != [] <==> t in TitlesOf(sel) {
      TitledSelected(cfg, items, t, All(view));
      TitledMember(sel, t);
    }
  }

  // ---- runs ----

  /** The keyring seen by `view`, and the other one where it takes turns, over one vault. */
  ghost predicate Ready(view: Form, std: OPStandardKeyring, con: OPConnectKeyring)
    reads std.vault
  {
    && std.cfg == con.cfg && std.unmarshal == con.unmarshal && std.vault == con.vault
    && std.vault.Valid() && UniqueTitles(view, std.cfg, std.vault.items)
  }

  ghost function Abs(view: Form, std: OPStandardKeyring): Ring
    reads std.vault
  {
    RingOf(view, std.cfg, std.vault.items)
  }

  twostate predicate Kept(view: Form, cfg: Config, vault: Vault)
    reads vault
  {
    vault.Valid() && Preserves(view, cfg, old(vault.items), vault.items) && vault.faults >= old(vault.faults)
  }

  method ApplySet(view: Form, std: OPStandardKeyring, con: OPConnectKeyring, form: Form, item: Item)
    returns (out: Outcomes)
    requires Ready(view, std, con) && Shares(view, form, std.cfg, std.vault.items)
    modifies std.vault
    ensures Kept(view, std.cfg, std.vault) && (out.Done? || out.Failed?)
    ensures Abs(view, std) == if out.Done? then old(Abs(view, std))[item.key := Text(item)] else old(Abs(view, std))
    ensures out.Failed? ==> std.vault.faults > old(std.vault.faults)
  {
    hide RingOf, AfterSet, Prefixed, Foreign, Text, NoArchived, UniqueTitles, FindKey;
    ghost var items, next := std.vault.items, std.vault.next;
    SetStep(view, form, std.cfg, items, next, item.key, Text(item));
    var r;
    match form {
      case Standard => r := std.Set(item);
      case Connect => r := con.Set(item);
    }
    out := if r.Ok? then Done else Failed;
  }

  method ApplyRemove(view: Form, std: OPStandardKeyring, con: OPConnectKeyring, form: Form, key: bytes)
    returns (out: Outcomes)
    requires Ready(view, std, con) && Shares(view, form, std.cfg, std.vault.items)
    modifies std.vault
    ensures Kept(view, std.cfg, std.vault) && (out.Done? || out.Failed?)
    ensures Abs(view, std) == if out.Done? then old(Abs(view, std)) - {key} else old(Abs(view, std))
    ensures out.Done? ==> key in old(Abs(view, std))
    ensures out.Failed? ==> std.vault.faults > old(std.vault.faults) || key !in old(Abs(view, std))
  {
    hide RingOf, AfterRemove, Prefixed, Foreign, NoArchived, UniqueTitles, FindKey, Shares, Matches, Selected;
    ghost var items := std.vault.items;
    UniqueIsNotMultiple(view, std.cfg, items, key);
    OneView(view, form, std.cfg, items);
    HeldIsFound(view, std.cfg, items, key);
    if FindKey(form, std.cfg, items, key).Found? { RemoveStep(view, form, std.cfg, items, key); }
    var r;
    match form {
      case Standard => r := std.Remove(key);
      case Connect => r := con.Remove(key);
    }
    out := if r.Ok? then Done else Failed;
  }

  method ApplyGet(view: Form, std: OPStandardKeyring, con: OPConnectKeyring, form: Form, key: bytes)
    returns (out: Outcomes)
    requires Ready(view, std, con) && Shares(view, form, std.cfg, std.vault.items)
    modifies std.vault`calls, std.vault`faults
    ensures std.vault.faults >= old(std.vault.faults)
    ensures var s := Abs(view, std);
      if std.vault.faults > old(std.vault.faults) || key !in s || std.unmarshal(s[key]) == None then out == Failed
      else out == Data(std.unmarshal(s[key]).value)
  {
    hide FindKey, Shares, Matches, Selected, Foreign, UniqueTitles;
    OneView(view, form, std.cfg, std.vault.items);
    HeldIsFound(view, std.cfg, std.vault.items, key);
    UniqueIsNotMultiple(view, std.cfg, std.vault.items, key);
    FoundHasField(view, std.cfg, std.vault.items, key);
    var r;
    match form {
      case Standard => r := std.Get(key);
      case Connect => r := con.Get(key);
    }
    out := if r.Ok? then Data(r.value) else Failed;
  }

  /** One operation of either keyring. */
  method Apply(view: Form, std: OPStandardKeyring, con: OPConnectKeyring, t: Turn) returns (out: Outcomes)
    requires Ready(view, std, con) && Shares(view, t.form, std.cfg, std.vault.items)
    modifies std.vault
    ensures Kept(view, std.cfg, std.vault)
    ensures StepOf(std.unmarshal, Prefixed(view, std.cfg, std.vault.items))(old(Abs(view, std)), t, out, Abs(view, std))
    ensures std.vault.faults > old(std.vault.faults) || FaultFree(std.unmarshal, old(Abs(view, std)), t, out)
  {
    hide RingOf, Prefixed, Foreign, NoArchived, UniqueTitles, Text, Selected, KeysFor, TitlesOf, Matches;
    match t.op {
      case SetOp(item) => out := ApplySet(view, std, con, t.form, item);
      case GetOp(k) => out := ApplyGet(view, std, con, t.form, k);
      case RemoveOp(k) => out := ApplyRemove(view, std, con, t.form, k);
      case KeysOp =>
        ListingStep(view, std.cfg, std.vault.items);
        OneView(view, t.form, std.cfg, std.vault.items);
        var r;
        match t.form {
          case Standard => r := std.Keys();
          case Connect => r := con.Keys();
        }
        out := if r.Ok? then Names(r.value) else Failed;
    }
  }

  /** Any sequence of operations, whatever fails, is a run of one map that leaves all foreign items
      of the vault as they were: with archived items of the keyring for one form alone, without
      them for both in any order. */
  method Run(view: Form, std: OPStandardKeyring, con: OPConnectKeyring, turns: seq<Turn>)
    returns (outs: seq<Outcomes>, ghost states: seq<Ring>)
    requires Ready(view, std, con)
    requires NoArchived(std.cfg, std.vault.items) || forall i | 0 <= i < |turns| :: turns[i].form == view
    modifies std.vault
    ensures Kept(view, std.cfg, std.vault)
    ensures IsRun(StepOf(std.unmarshal, Prefixed(view, std.cfg, std.vault.items)), states, turns, outs)
    ensures states[0] == old(Abs(view, std)) && states[|turns|] == Abs(view, std)
    ensures std.vault.faults > old(std.vault.faults)
         || forall i | 0 <= i < |turns| :: FaultFree(std.unmarshal, states[i], turns[i], outs[i])
  {
    hide RingOf, Prefixed, Foreign, Step, StepOf, FaultFree, IsRun, NoArchived, UniqueTitles, Vault.Valid;
    ghost var step := StepOf(std.unmarshal, Prefixed(view, std.cfg, std.vault.items));
    outs, states := [], [Abs(view, std)];
    EmptyRun<Ring, Turn, Outcomes>(step, Abs(view, std));
    var i := 0;
    while i < |turns|
      invariant 0 <= i <= |turns| && |states| == i + 1 && |outs| == i
      invariant Kept(view, std.cfg, std.vault)
      invariant IsRun(step, states, turns[..i], outs)
      invariant states[0] == old(Abs(view, std)) && states[i] == Abs(view, std)
      invariant std.vault.faults > old(std.vault.faults)
             || forall j | 0 <= j < i :: FaultFree(std.unmarshal, states[j], turns[j], outs[j])
    {
      var out := Apply(view, std, con, turns[i]);
      RunExtends(step, states, turns[..i], outs, turns[i], out, Abs(view, std));
      assert turns[..i] + [turns[i]] == turns[..i + 1];
      outs, states := outs + [out], states + [Abs(view, std)];
      i := i + 1;
    }
    assert turns[..i] == turns;
  }
}
