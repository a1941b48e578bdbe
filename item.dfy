/**
 * Items, their conversion to and from the textual form read from resource
 * files, the identifier matching rule, the list of items ordered by display
 * name, and the cache that resolves a tag to the items it matches.
 *
 * A tag's membership rule (`Tag::of`), the display name of an item
 * (`item_name`) and the text conversions of a resource identifier
 * (`IdRaw::to_string`, `IdRaw::parse`) are not part of this model; they are
 * function values the model is given.
 */
module Items {
  import opened Wrappers
  import opened Ids

  /** A resource identifier in the form resource files write it.  Its structure
      is not part of this model. */
  type IdRaw(==)

  /** An item as read from its resource file. */
  datatype ItemRaw = ItemRaw(id: IdRaw, model: IdRaw)

  /** An item with interned identifiers. */
  datatype Item = Item(id: Id, model: Id)

  /** A tag: a category of items, with its membership rule.  The registry the
      rule may consult is fixed once loading is over, so the rule is modelled as
      a predicate on item identifiers. */
  datatype Tag = Tag(of: Id -> bool)

  /** The registry parts this model reads: items and tags by identifier. */
  datatype Registry = Registry(items: map<Id, Item>, tags: map<Id, Tag>)

  /** Every item is registered under its own identifier, as loading does. */
  ghost predicate WellFormed(registry: Registry) {
    forall k :: k in registry.items ==> registry.items[k].id == k
  }

  // ---------------------------------------------------------------------------
  // Conversions

  /** The item for `raw`, when both of its identifiers are already interned. */
  function ToItem(raw: ItemRaw, interner: Interner, show: IdRaw -> string): (r: Option<Item>)
    reads interner
    ensures r.Some? <==> show(raw.id) in interner.names && show(raw.model) in interner.names
    ensures r.Some? ==> && interner.Resolve(r.value.id) == Some(show(raw.id))
                        && interner.Resolve(r.value.model) == Some(show(raw.model))
  {
    match interner.Get(show(raw.id))
    case None => None
    case Some(id) =>
      match interner.Get(show(raw.model))
      case None => None
      case Some(model) => Some(Item(id, model))
  }

  /** The textual form of `item`, when both of its identifiers resolve. */
  function ToItemRaw(item: Item, interner: Interner, parse: string -> IdRaw): (r: Option<ItemRaw>)
    reads interner
    ensures r.None? <==> interner.Resolve(item.id).None? || interner.Resolve(item.model).None?
    ensures r.Some? ==> && r.value.id == parse(interner.Resolve(item.id).value)
                        && r.value.model == parse(interner.Resolve(item.model).value)
  {
    match interner.Resolve(item.id)
    case None => None
    case Some(id) =>
      match interner.Resolve(item.model)
      case None => None
      case Some(model) => Some(ItemRaw(parse(id), parse(model)))
  }

  /** Interns both identifiers of `raw` and gives the item; afterwards `ToItem`
      finds that same item, every identifier issued before is unchanged, and no
      string other than the item's two is added. */
  method InternToItem(raw: ItemRaw, interner: Interner, show: IdRaw -> string) returns (item: Item)
    requires interner.Valid()
    modifies interner
    ensures interner.Valid() && old(interner.names) <= interner.names
    ensures ToItem(raw, interner, show) == Some(item)
    ensures forall s :: s in interner.names ==>
              s in old(interner.names) || s == show(raw.id) || s == show(raw.model)
  {
    var id := interner.Intern(show(raw.id));
    var model := interner.Intern(show(raw.model));
    GetResolveInverse(interner, show(raw.id), id);
    item := Item(id, model);
  }

  /** An item found from its textual form converts back to that textual form,
      when parsing undoes printing for its two identifiers. */
  lemma ToItemThenRaw(raw: ItemRaw, item: Item, interner: Interner,
                      show: IdRaw -> string, parse: string -> IdRaw)
    requires ToItem(raw, interner, show) == Some(item)
    requires parse(show(raw.id)) == raw.id && parse(show(raw.model)) == raw.model
    ensures ToItemRaw(item, interner, parse) == Some(raw)
  {
  }

  /** The textual form of an item converts back to that item, when printing
      undoes parsing for its two identifiers' strings. */
  lemma ToRawThenItem(item: Item, raw: ItemRaw, interner: Interner,
                      show: IdRaw -> string, parse: string -> IdRaw)
    requires interner.Valid()
    requires ToItemRaw(item, interner, parse) == Some(raw)
    requires show(raw.id) == interner.Resolve(item.id).value
    requires show(raw.model) == interner.Resolve(item.model).value
    ensures ToItem(raw, interner, show) == Some(item)
  {
    GetResolveInverse(interner, show(raw.id), item.id);
    GetResolveInverse(interner, show(raw.model), item.model);
  }

  // ---------------------------------------------------------------------------
  // Matching

  /** Whether `id` matches `other`: it is `other`, or `other` is a tag whose
      rule admits `id`. */
  function IdMatch(registry: Registry, id: Id, other: Id): (r: bool)
    ensures id == other ==> r
    ensures id != other ==> (r <==> other in registry.tags && registry.tags[other].of(id))
  {
    if id == other then true
    else if other in registry.tags then registry.tags[other].of(id)
    else false
  }

  // ---------------------------------------------------------------------------
  // Display-name order

  /** Lexicographic order on strings, character by character, as Rust orders
      `String`s. */
  function NameLe(a: string, b: string): (r: bool)
    ensures a <= b ==> r
    ensures r && |a| > 0 ==> |b| > 0 && a[0] <= b[0]
  {
    |a| == 0 || (|b| > 0 && (a[0] < b[0] || (a[0] == b[0] && NameLe(a[1..], b[1..]))))
  }

  /** The textbook definition of lexicographic order: `a` is a prefix of `b`, or
      at the first position where they differ `a` has the smaller character. */
  ghost predicate LexBefore(a: string, b: string) {
    a <= b || exists k :: 0 <= k < |a| && k < |b| && a[..k] == b[..k] && a[k] < b[k]
  }

  /** `NameLe` is exactly lexicographic order. */
  lemma {:induction false} NameLeIsLexicographic(a: string, b: string)
    ensures NameLe(a, b) <==> LexBefore(a, b)
  {
    if |a| == 0 || |b| == 0 {
    } else if a[0] < b[0] {
      assert a[..0] == b[..0];
    } else if a[0] > b[0] {
      forall k | 0 <= k < |a| && k < |b|
        ensures !(a[..k] == b[..k] && a[k] < b[k])
      {
        if k > 0 {
          assert a[..k][0] == a[0] && b[..k][0] == b[0];
        }
      }
    } else {
      var a', b' := a[1..], b[1..];
      NameLeIsLexicographic(a', b');
      assert a == [a[0]] + a' && b == [b[0]] + b';
      if LexBefore(a', b') && !(a' <= b') {
        var k :| 0 <= k < |a'| && k < |b'| && a'[..k] == b'[..k] && a'[k] < b'[k];
        assert a[..k + 1] == [a[0]] + a'[..k] && b[..k + 1] == [b[0]] + b'[..k];
      }
      if LexBefore(a, b) && !(a <= b) {
        var k :| 0 <= k < |a| && k < |b| && a[..k] == b[..k] && a[k] < b[k];
        assert k > 0;
        assert a'[..k - 1] == a[..k][1..] && b'[..k - 1] == b[..k][1..];
      }
    }
  }

  lemma {:induction false} NameLeTotal(a: string, b: string)
    ensures NameLe(a, b) || NameLe(b, a)
  {
    if |a| > 0 && |b| > 0 && a[0] == b[0] {
      NameLeTotal(a[1..], b[1..]);
    }
  }

  lemma {:induction false} NameLeTransitive(a: string, b: string, c: string)
    requires NameLe(a, b) && NameLe(b, c)
    ensures NameLe(a, c)
  {
    if |a| > 0 && a[0] == b[0] && b[0] == c[0] {
      NameLeTransitive(a[1..], b[1..], c[1..]);
    }
  }

  /** `ids` is non-decreasing by display name. */
  ghost predicate SortedByName(ids: seq<Id>, name: Id -> string) {
    forall p, q :: 0 <= p < q < |ids| ==> NameLe(name(ids[p]), name(ids[q]))
  }

  /** The items of `items` are non-decreasing by display name. */
  ghost predicate ItemsSortedByName(items: seq<Item>, name: Id -> string) {
    forall p, q :: 0 <= p < q < |items| ==> NameLe(name(items[p].id), name(items[q].id))
  }

  /** The elements of `s`, in no particular order. */
  method SeqOfSet(s: set<Id>) returns (r: seq<Id>)
    ensures multiset(r) == multiset(s)
  {
    r := [];
    var rest := s;
    while rest != {}
      invariant rest <= s
      invariant multiset(r) + multiset(rest) == multiset(s)
      decreases rest
    {
      var k :| k in rest;
      assert multiset(rest) == multiset(rest - {k}) + multiset{k};
      r := r + [k];
      rest := rest - {k};
    }
  }

  /** Sorts `a` in place, non-decreasing by display name.  Elements with equal
      names may end in either order. */
  method SortByName(a: array<Id>, name: Id -> string)
    modifies a
    ensures SortedByName(a[..], name)
    ensures multiset(a[..]) == old(multiset(a[..]))
  {
    var i := 0;
    while i < a.Length
      invariant 0 <= i <= a.Length
      invariant forall p, q :: 0 <= p < q < i ==> NameLe(name(a[p]), name(a[q]))
      invariant multiset(a[..]) == old(multiset(a[..]))
    {
      InsertIntoSorted(a, i, name);
      i := i + 1;
    }
  }

  /** `s[..i + 1]` is sorted by name apart from position `j`. */
  ghost predicate SortedExcept(s: seq<Id>, i: nat, j: nat, name: Id -> string)
    requires i < |s|
  {
    forall p, q :: 0 <= p < q <= i && p != j && q != j ==> NameLe(name(s[p]), name(s[q]))
  }

  /** `s[j]` is ordered before every later element of `s[..i + 1]`. */
  ghost predicate BeforeRest(s: seq<Id>, i: nat, j: nat, name: Id -> string)
    requires j <= i < |s|
  {
    forall q :: j < q <= i ==> NameLe(name(s[j]), name(s[q]))
  }

  /** Moves `a[i]` down into the sorted prefix `a[..i]`, so that `a[..i + 1]`
      is sorted; the rest of the array is untouched. */
  method InsertIntoSorted(a: array<Id>, i: nat, name: Id -> string)
    requires i < a.Length
    requires forall p, q :: 0 <= p < q < i ==> NameLe(name(a[p]), name(a[q]))
    modifies a
    ensures forall p, q :: 0 <= p < q <= i ==> NameLe(name(a[p]), name(a[q]))
    ensures multiset(a[..]) == old(multiset(a[..]))
    ensures forall k :: i < k < a.Length ==> a[k] == old(a[k])
  {
    var j := i;
    assert SortedExcept(a[..], i, j, name) && BeforeRest(a[..], i, j, name);
    while j > 0 && !NameLe(name(a[j - 1]), name(a[j]))
      invariant 0 <= j <= i
      invariant SortedExcept(a[..], i, j, name) && BeforeRest(a[..], i, j, name)
      invariant multiset(a[..]) == old(multiset(a[..]))
      invariant forall k :: i < k < a.Length ==> a[k] == old(a[k])
    {
      ghost var before := a[..];
      a[j - 1], a[j] := a[j], a[j - 1];
      SwapDown(before, a[..], i, j, name);
      j := j - 1;
    }
    InsertedSorted(a[..], i, j, name);
  }

  /** One step of the insertion: swapping the out-of-order `s[j]` with its left
      neighbour moves the exception down to `j - 1`. */
  lemma SwapDown(s: seq<Id>, t: seq<Id>, i: nat, j: nat, name: Id -> string)
    requires 0 < j <= i < |s| && |t| == |s|
    requires SortedExcept(s, i, j, name) && BeforeRest(s, i, j, name)
    requires !NameLe(name(s[j - 1]), name(s[j]))
    requires t == s[j - 1 := s[j]][j := s[j - 1]]
    ensures SortedExcept(t, i, j - 1, name) && BeforeRest(t, i, j - 1, name)
  {
    NameLeTotal(name(s[j - 1]), name(s[j]));
  }

  /** Where the insertion stops, the prefix is sorted: `s[j]` is ordered before
      everything after it, and after its left neighbour. */
  lemma InsertedSorted(s: seq<Id>, i: nat, j: nat, name: Id -> string)
    requires j <= i < |s|
    requires SortedExcept(s, i, j, name) && BeforeRest(s, i, j, name)
    requires j > 0 ==> NameLe(name(s[j - 1]), name(s[j]))
    ensures forall p, q :: 0 <= p < q <= i ==> NameLe(name(s[p]), name(s[q]))
  {
    forall p, q | 0 <= p < q <= i
      ensures NameLe(name(s[p]), name(s[q]))
    {
      if q == j && p < j - 1 {
        NameLeTransitive(name(s[p]), name(s[j - 1]), name(s[j]));
      }
    }
  }

  // ---------------------------------------------------------------------------
  // Tag resolution

  /** The items a tag resolves to: the identifiers of `ordered` that match
      `tag` and name a registered item, as items, in `ordered` order. */
  function TagItems(registry: Registry, ordered: seq<Id>, tag: Id): (r: seq<Item>)
    ensures |r| <= |ordered|
  {
    if ordered == [] then []
    else
      var rest := TagItems(registry, ordered[1..], tag);
      var v := ordered[0];
      if IdMatch(registry, v, tag) && v in registry.items then [registry.items[v]] + rest else rest
  }

  /** An item is among a tag's items exactly when it is registered, its
      identifier is listed in `ordered`, and it matches the tag. */
  lemma {:induction false} TagItemsMember(registry: Registry, ordered: seq<Id>, tag: Id, x: Item)
    requires WellFormed(registry)
    ensures x in TagItems(registry, ordered, tag) <==>
              && x.id in ordered && x.id in registry.items && registry.items[x.id] == x
              && IdMatch(registry, x.id, tag)
  {
    if ordered != [] {
      TagItemsMember(registry, ordered[1..], tag, x);
      assert x.id in ordered <==> x.id == ordered[0] || x.id in ordered[1..];
    }
  }

  /** Resolving a tag keeps the display-name order of `ordered`. */
  lemma {:induction false} TagItemsSorted(registry: Registry, ordered: seq<Id>, tag: Id, name: Id -> string)
    requires WellFormed(registry) && SortedByName(ordered, name)
    ensures ItemsSortedByName(TagItems(registry, ordered, tag), name)
  {
    if ordered != [] {
      var rest := TagItems(registry, ordered[1..], tag);
      TagItemsSorted(registry, ordered[1..], tag, name);
      forall q | 0 <= q < |rest|
        ensures NameLe(name(ordered[0]), name(rest[q].id))
      {
        TagItemsMember(registry, ordered[1..], tag, rest[q]);
        var k :| 0 <= k < |ordered[1..]| && ordered[1..][k] == rest[q].id;
        assert ordered[k + 1] == rest[q].id;
      }
    }
  }

  /** No element of `s` occurs twice. */
  ghost predicate NoDuplicates<T>(s: seq<T>) {
    forall p, q :: 0 <= p < q < |s| ==> s[p] != s[q]
  }

  /** With no identifier listed twice in `ordered`, no item is resolved twice. */
  lemma {:induction false} TagItemsDistinct(registry: Registry, ordered: seq<Id>, tag: Id)
    requires WellFormed(registry)
    requires NoDuplicates(ordered)
    ensures NoDuplicates(TagItems(registry, ordered, tag))
  {
    if ordered != [] {
      TagItemsDistinct(registry, ordered[1..], tag);
      if IdMatch(registry, ordered[0], tag) && ordered[0] in registry.items {
        var x := registry.items[ordered[0]];
        var rest := TagItems(registry, ordered[1..], tag);
        TagItemsMember(registry, ordered[1..], tag, x);
        assert ordered[0] !in ordered[1..] by {
          forall k | 0 <= k < |ordered[1..]|
            ensures ordered[1..][k] != ordered[0]
          {
            assert ordered[1..][k] == ordered[k + 1];
          }
        }
        assert x !in rest;
        var r := [x] + rest;
        assert TagItems(registry, ordered, tag) == r;
        forall p, q | 0 <= p < q < |r|
          ensures r[p] != r[q]
        {
          assert r[q] == rest[q - 1];
          if p > 0 {
            assert r[p] == rest[p - 1];
          }
        }
      } else {
        var rest := TagItems(registry, ordered[1..], tag);
        assert TagItems(registry, ordered, tag) == rest;
        assert NoDuplicates(rest);
      }
    }
  }

  /** When `ordered` lists exactly the registered items, a tag resolves to
      exactly the registered items that match it; an identifier that is neither
      an item nor a tag resolves to nothing. */
  lemma TagItemsOfRegistry(registry: Registry, ordered: seq<Id>, tag: Id, x: Item)
    requires WellFormed(registry)
    requires multiset(ordered) == multiset(registry.items.Keys)
    ensures x in TagItems(registry, ordered, tag) <==>
              x in registry.items.Values && IdMatch(registry, x.id, tag)
    ensures tag !in registry.items && tag !in registry.tags ==> TagItems(registry, ordered, tag) == []
  {
    TagItemsMember(registry, ordered, tag, x);
    assert x.id in ordered <==> x.id in registry.items by {
      assert x.id in multiset(ordered) <==> x.id in multiset(registry.items.Keys);
    }
    if tag !in registry.items && tag !in registry.tags {
      var r := TagItems(registry, ordered, tag);
      if r != [] {
        TagItemsMember(registry, ordered, tag, r[0]);
        assert false;
      }
    }
  }

  /** An element at two positions of a list occurs at least twice in its multiset. */
  lemma OccursTwice(ordered: seq<Id>, p: nat, q: nat)
    requires p < q < |ordered| && ordered[p] == ordered[q]
    ensures multiset(ordered)[ordered[p]] >= 2
  {
    var x := ordered[p];
    assert ordered == ordered[..p] + [x] + ordered[p + 1..q] + [x] + ordered[q + 1..];
  }

  /** A list holding each element of a set once has no duplicates. */
  lemma ListOfSetNoDuplicates(ordered: seq<Id>, s: set<Id>)
    requires multiset(ordered) == multiset(s)
    ensures NoDuplicates(ordered)
  {
    forall p, q | 0 <= p < q < |ordered|
      ensures ordered[p] != ordered[q]
    {
      if ordered[p] == ordered[q] {
        OccursTwice(ordered, p, q);
        assert false;
      }
    }
  }

  /** Once `orderedItems` lists the registered items by display name, a tag
      resolves to the registered items that match it, each once, in display-name
      order. */
  lemma ResolvedTag(registry: Registry, ordered: seq<Id>, name: Id -> string, tag: Id)
    requires WellFormed(registry)
    requires multiset(ordered) == multiset(registry.items.Keys) && SortedByName(ordered, name)
    ensures forall x :: x in TagItems(registry, ordered, tag) <==>
                          x in registry.items.Values && IdMatch(registry, x.id, tag)
    ensures NoDuplicates(TagItems(registry, ordered, tag))
    ensures ItemsSortedByName(TagItems(registry, ordered, tag), name)
  {
    forall x
      ensures x in TagItems(registry, ordered, tag) <==> x in registry.items.Values && IdMatch(registry, x.id, tag)
    {
      TagItemsOfRegistry(registry, ordered, tag, x);
    }
    ListOfSetNoDuplicates(ordered, registry.items.Keys);
    TagItemsDistinct(registry, ordered, tag);
    TagItemsSorted(registry, ordered, tag, name);
  }

  /** Every cached list is what resolving its tag gives. */
  ghost predicate CacheCoherent(entries: map<Id, seq<Item>>, registry: Registry, ordered: seq<Id>) {
    forall t :: t in entries ==> entries[t] == TagItems(registry, ordered, t)
  }

  /** The tag cache: resolved lists by tag identifier, filled on demand. */
  class TagCache {
    var entries: map<Id, seq<Item>>

    constructor ()
      ensures entries == map[]
    {
      entries := map[];
    }
  }

  /** The resource manager parts this model reads: the registry, the list of
      item identifiers ordered by display name, and the display names. */
  class ResourceManager {
    var registry: Registry
    var orderedItems: seq<Id>
    const itemName: Id -> string

    constructor (registry: Registry, itemName: Id -> string)
      ensures this.registry == registry && this.itemName == itemName && orderedItems == []
    {
      this.registry := registry;
      this.itemName := itemName;
      orderedItems := [];
    }

    /** The items `id` stands for.  An item stands for itself, in a new
        one-element list, and the cache is left alone.  Anything else is
        resolved as a tag: from the cache when it holds `id`, otherwise by
        filtering `orderedItems`, and the result is then cached under `id`. */
    method GetItems(id: Id, cache: TagCache) returns (r: seq<Item>)
      modifies cache
      ensures id in registry.items ==> r == [registry.items[id]] && cache.entries == old(cache.entries)
      ensures id !in registry.items ==> id in cache.entries && r == cache.entries[id]
      ensures id !in registry.items && id in old(cache.entries) ==> cache.entries == old(cache.entries)
      ensures id !in registry.items && id !in old(cache.entries) ==>
                cache.entries == old(cache.entries)[id := TagItems(registry, orderedItems, id)]
      ensures CacheCoherent(old(cache.entries), registry, orderedItems) ==>
                && CacheCoherent(cache.entries, registry, orderedItems)
                && (id !in registry.items ==> r == TagItems(registry, orderedItems, id))
    {
      if id in registry.items {
        r := [registry.items[id]];
      } else {
        if id !in cache.entries {
          var items := TagItems(registry, orderedItems, id);
          cache.entries := cache.entries[id := items];
        }
        r := cache.entries[id];
      }
    }

    /** Two calls in a row with the same identifier give equal lists. */
    method GetItemsTwice(id: Id, cache: TagCache) returns (first: seq<Item>, second: seq<Item>)
      modifies cache
      ensures first == second
      ensures id in registry.items ==> cache.entries == old(cache.entries)
    {
      first := GetItems(id, cache);
      second := GetItems(id, cache);
    }

    /** Lists every registered item's identifier, ordered by display name. */
    method OrderedItems()
      modifies this`orderedItems
      ensures multiset(orderedItems) == multiset(registry.items.Keys)
      ensures SortedByName(orderedItems, itemName)
    {
      var keys := SeqOfSet(registry.items.Keys);
      var ids := new Id[|keys|](i => if 0 <= i < |keys| then keys[i] else 0);
      assert ids[..] == keys;
      SortByName(ids, itemName);
      orderedItems := ids[..];
    }
  }
}
