/** The Option type used for the source's `Option<T>` returns. */
module Wrappers {
  datatype Option<+T> = None | Some(value: T)
}

/**
 * Runtime identifiers and the interner that maps them to and from their
 * stable string names.
 *
 * The interner's internals are not part of this model.  It is modelled as an
 * append-only table: the `Id` of a string is its position in `names`, and
 * `Valid()` keeps the table free of duplicates.  That is enough for the
 * contract the snapshot code and the item code rely on: `Get` and `Resolve`
 * are partial, mutually inverse and injective, and interning never shrinks the
 * table or changes an `Id` already issued.
 */
module Ids {
  import opened Wrappers

  /** An opaque runtime handle, meaningful only within one run. */
  type Id = nat

  /** No string occurs twice in `names`. */
  ghost predicate Distinct(names: seq<string>) {
    forall i, j :: 0 <= i < j < |names| ==> names[i] != names[j]
  }

  /** The position of `s` in `names`, if it occurs there. */
  function IndexOf(names: seq<string>, s: string): (r: Option<Id>)
    ensures r.Some? ==> r.value < |names| && names[r.value] == s
    ensures r.None? ==> s !in names
  {
    if |names| == 0 then None
    else if names[0] == s then Some(0)
    else match IndexOf(names[1..], s)
      case None => None
      case Some(i) => Some(i + 1)
  }

  class Interner {
    /** `names[id]` is the string that `id` stands for. */
    var names: seq<string>

    ghost predicate Valid()
      reads this
    {
      Distinct(names)
    }

    /** The identifier of `s`, if `s` has been interned. */
    function Get(s: string): (r: Option<Id>)
      reads this
      ensures r.Some? <==> s in names
      ensures r.Some? ==> r.value < |names| && names[r.value] == s
    {
      IndexOf(names, s)
    }

    /** The string `id` stands for, if this interner issued `id`. */
    function Resolve(id: Id): (r: Option<string>)
      reads this
      ensures r.Some? <==> id < |names|
      ensures r.Some? ==> r.value in names
    {
      if id < |names| then Some(names[id]) else None
    }

    /** Returns the identifier of `s`, issuing a new one when `s` is unknown. */
    method Intern(s: string) returns (id: Id)
      requires Valid()
      modifies this
      ensures Valid()
      ensures Get(s) == Some(id) && Resolve(id) == Some(s)
      ensures old(names) <= names
      ensures s in old(names) ==> names == old(names)
      ensures s !in old(names) ==> names == old(names) + [s]
    {
      var known := Get(s);
      if known.Some? {
        id := known.value;
      } else {
        names := names + [s];
        id := |names| - 1;
        assert names[id] == s;
      }
    }
  }

  /** `Get` and `Resolve` are inverse to each other: a valid interner is a
      bijection between the identifiers it issued and the strings it holds. */
  lemma GetResolveInverse(interner: Interner, s: string, id: Id)
    requires interner.Valid()
    ensures interner.Get(s) == Some(id) <==> interner.Resolve(id) == Some(s)
  {
    if interner.Resolve(id) == Some(s) {
      var k := interner.Get(s).value;
      assert interner.names[k] == s == interner.names[id];
    }
  }

  /** Resolving is injective: two identifiers that resolve to the same string
      are the same identifier. */
  lemma ResolveInjective(interner: Interner, a: Id, b: Id)
    requires interner.Valid()
    requires interner.Resolve(a).Some? && interner.Resolve(a) == interner.Resolve(b)
    ensures a == b
  {
    assert interner.names[a] == interner.names[b];
  }

  /** Interning the same string twice yields the same identifier and leaves the
      table as the first call left it: unchanged, or grown by that one string. */
  method InternTwice(interner: Interner, s: string) returns (first: Id, second: Id)
    requires interner.Valid()
    modifies interner
    ensures interner.Valid()
    ensures first == second
    ensures interner.Resolve(first) == Some(s)
    ensures interner.names == old(interner.names) || interner.names == old(interner.names) + [s]
  {
    first := interner.Intern(s);
    ghost var afterFirst := interner.names;
    second := interner.Intern(s);
    assert interner.names == afterFirst;
  }
}
