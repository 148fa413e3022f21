/** A shared 1Password vault, and the part of it a keyring considers its own (opcommon.go and
    the filters of opstandard.go and opconnect.go). */
module Vaults {
  import opened Bytes
  import opened Errors

  datatype Category = ApiCredentials | OtherCategory
  datatype FieldType = Concealed | OtherType
  datatype Field = Field(id: bytes, title: bytes, fieldType: FieldType, value: bytes)

  datatype VaultItem = VaultItem(
    id: nat, title: bytes, category: Category, tags: seq<bytes>, active: bool, fields: seq<Field>)

  /** OPBaseKeyring, without the vault and the token. */
  datatype Config = Config(titlePrefix: bytes, tag: bytes, fieldTitle: bytes)

  // ---- titles and keys ----

  function TitleStart(cfg: Config): bytes { cfg.titlePrefix + Ascii(": ") }

  function TitleFromKey(cfg: Config, key: bytes): bytes { TitleStart(cfg) + key }

  function KeyFromTitle(cfg: Config, title: bytes): bytes { TrimPrefix(title, TitleStart(cfg)) }

  lemma KeyOfTitle(cfg: Config, key: bytes)
    ensures KeyFromTitle(cfg, TitleFromKey(cfg, key)) == key
  {
    PrefixOfConcat(TitleStart(cfg), key);
  }

  /** A title is the title of its own key exactly when it carries the prefix. */
  lemma TitleOfKeyExactly(cfg: Config, title: bytes)
    ensures TitleFromKey(cfg, KeyFromTitle(cfg, title)) == title <==> HasPrefix(title, TitleStart(cfg))
  {
    if HasPrefix(title, TitleStart(cfg)) {
      PrefixSplit(title, TitleStart(cfg));
    } else {
      assert |TitleFromKey(cfg, title)| > |title|;
    }
  }

  // ---- what belongs to the keyring ----

  function ConcealedFields(fields: seq<Field>): (r: seq<Field>)
    ensures forall f | f in r :: f in fields && f.fieldType.Concealed?
  {
    if fields == [] then [] else
      var last := fields[|fields| - 1];
      ConcealedFields(fields[..|fields| - 1]) + (if last.fieldType.Concealed? then [last] else [])
  }

  /** The checks on an overview: tag and category. */
  predicate Overview(cfg: Config, it: VaultItem) {
    cfg.tag in it.tags && it.category == ApiCredentials
  }

  /** The checks on a fetched item: one concealed field, with the configured title. */
  predicate FieldShape(cfg: Config, it: VaultItem) {
    var c := ConcealedFields(it.fields);
    |c| == 1 && c[0].title == cfg.fieldTitle
  }

  predicate Qualifies(cfg: Config, it: VaultItem) {
    Overview(cfg, it) && FieldShape(cfg, it)
  }

  /** The item as the keyring handles it: only the concealed field is left. */
  function Hydrated(it: VaultItem): VaultItem {
    it.(fields := ConcealedFields(it.fields))
  }

  function Active(items: seq<VaultItem>): seq<VaultItem> {
    if items == [] then [] else
      var last := items[|items| - 1];
      Active(items[..|items| - 1]) + (if last.active then [last] else [])
  }

  function Titled(items: seq<VaultItem>, title: bytes): seq<VaultItem> {
    if items == [] then [] else
      var last := items[|items| - 1];
      Titled(items[..|items| - 1], title) + (if last.title == title then [last] else [])
  }

  function Pruned(cfg: Config, items: seq<VaultItem>): seq<VaultItem> {
    if items == [] then [] else
      var last := items[|items| - 1];
      Pruned(cfg, items[..|items| - 1]) + (if Qualifies(cfg, last) then [Hydrated(last)] else [])
  }

  // ---- the vault as a value ----

  ghost predicate DistinctIds(items: seq<VaultItem>) {
    forall i, j | 0 <= i < j < |items| :: items[i].id != items[j].id
  }

  function IndexOf(items: seq<VaultItem>, id: nat): (r: Option<nat>)
    ensures r.Some? ==> r.value < |items| && items[r.value].id == id
    ensures r.None? ==> forall i | 0 <= i < |items| :: items[i].id != id
  {
    if items == [] then None
    else if items[|items| - 1].id == id then Some(|items| - 1)
    else IndexOf(items[..|items| - 1], id)
  }

  function Replaced(items: seq<VaultItem>, it: VaultItem): seq<VaultItem> {
    match IndexOf(items, it.id)
    case Some(i) => items[i := it]
    case None => items
  }

  function Deleted(items: seq<VaultItem>, id: nat): seq<VaultItem> {
    match IndexOf(items, id)
    case Some(i) => items[..i] + items[i + 1..]
    case None => items
  }

  // ---- the vault behind its clients ----

  class Vault {
    const fails: nat -> bool
    var items: seq<VaultItem>
    var next: nat
    var calls: nat
    var faults: nat

    ghost predicate Valid()
      reads this
    {
      DistinctIds(items) && forall i | 0 <= i < |items| :: items[i].id < next
    }

    constructor (fails: nat -> bool)
      ensures Valid() && items == []
    {
      this.fails, items, next, calls, faults := fails, [], 0, 0, 0;
    }

    twostate predicate Counted()
      reads this
    {
      calls == old(calls) + 1 && faults == old(faults) + if fails(old(calls)) then 1 else 0
    }

    method Count() returns (ok: bool)
      modifies this`calls, this`faults
      ensures Counted() && ok == !fails(old(calls))
    {
      ok := !fails(calls);
      faults := faults + if ok then 0 else 1;
      calls := calls + 1;
    }

    /** Overviews; with `onlyActive` the archived items are left out. */
    method List(onlyActive: bool) returns (ok: bool, overviews: seq<VaultItem>)
      modifies this`calls, this`faults
      ensures Counted() && ok == !fails(old(calls))
      ensures overviews == if onlyActive then Active(items) else items
    {
      ok := Count();
      overviews := if onlyActive then Active(items) else items;
    }

    /** The server's own title query. */
    method ListByTitle(title: bytes) returns (ok: bool, overviews: seq<VaultItem>)
      modifies this`calls, this`faults
      ensures Counted() && ok == !fails(old(calls))
      ensures overviews == Titled(items, title)
    {
      ok := Count();
      overviews := Titled(items, title);
    }

    method Fetch(id: nat) returns (ok: bool, it: Option<VaultItem>)
      modifies this`calls, this`faults
      ensures Counted() && ok == (!fails(old(calls)) && IndexOf(items, id).Some?)
      ensures ok ==> it == Some(items[IndexOf(items, id).value])
    {
      ok := Count();
      var i := IndexOf(items, id);
      ok := ok && i.Some?;
      it := if ok then Some(items[i.value]) else None;
    }

    method Create(title: bytes, category: Category, tags: seq<bytes>, fields: seq<Field>) returns (ok: bool)
      requires Valid()
      modifies this
      ensures Valid() && Counted() && ok == !fails(old(calls))
      ensures items == if ok then old(items) + [VaultItem(old(next), title, category, tags, true, fields)]
                       else old(items)
      ensures next >= old(next)
    {
      ok := Count();
      if ok {
        items := items + [VaultItem(next, title, category, tags, true, fields)];
        next := next + 1;
      }
    }

    method Put(it: VaultItem) returns (ok: bool)
      requires Valid()
      modifies this
      ensures Valid() && Counted() && ok == !fails(old(calls)) && next == old(next)
      ensures items == if ok then Replaced(old(items), it) else old(items)
    {
      ok := Count();
      if ok { items := Replaced(items, it); }
    }

    method Delete(id: nat) returns (ok: bool)
      requires Valid()
      modifies this
      ensures Valid() && Counted() && ok == !fails(old(calls)) && next == old(next)
      ensures items == if ok then Deleted(old(items), id) else old(items)
    {
      ok := Count();
      if ok { items := Deleted(items, id); }
    }
  }
}
