/**
 * The two `SetOrAdd` extension methods of DictionaryExtensions.cs, over a
 * dictionary object whose entries are updated in place, and the `HashSet`
 * collection that the dependency graph of the bindable model stores under
 * each key.
 */
module DictionaryExtensions {

  /** No element occurs twice: the set semantics of a `HashSet`. */
  predicate NoDuplicates<T(==)>(s: seq<T>) {
    forall i, j :: 0 <= i < j < |s| ==> s[i] != s[j]
  }

  /**
   * The elements of a hash set after adding `x`, in enumeration order
   * (a set that never had an element removed enumerates in insertion order).
   */
  function Inserted<T(==)>(items: seq<T>, x: T): (r: seq<T>)
    ensures x in r
    ensures forall i :: 0 <= i < |r| ==> r[i] in items || r[i] == x
    ensures x in items ==> r == items
    ensures |items| <= |r| && r[..|items|] == items
    ensures NoDuplicates(items) ==> NoDuplicates(r)
  {
    if x in items then items else items + [x]
  }

  /** Inserting the same element twice is inserting it once. */
  lemma InsertedIdempotent<T>(items: seq<T>, x: T)
    ensures Inserted(Inserted(items, x), x) == Inserted(items, x)
  {
  }

  /** A `HashSet<T>`; `items` is its enumeration order. */
  class HashSet<T(==)> {
    var items: seq<T>

    ghost predicate Valid()
      reads this
    {
      NoDuplicates(items)
    }

    constructor ()
      ensures Valid() && items == []
    {
      items := [];
    }

    /** `HashSet.Add`: true when `x` was not yet an element. */
    method Add(x: T) returns (added: bool)
      requires Valid()
      modifies this
      ensures Valid()
      ensures added <==> x !in old(items)
      ensures items == Inserted(old(items), x)
    {
      added := x !in items;
      if added {
        items := items + [x];
      }
    }
  }

  /** A `Dictionary<K, V>` whose entries are updated in place. */
  class Dictionary<K(==), V> {
    var entries: map<K, V>

    constructor ()
      ensures entries == map[]
    {
      entries := map[];
    }
  }

  /** The entries after `dict[key] = value` or `dict.Add(key, value)`. */
  function Upserted<K, V>(m: map<K, V>, key: K, value: V): (r: map<K, V>)
    ensures r.Keys == m.Keys + {key}
    ensures key in r && r[key] == value
    ensures forall k :: k in m && k != key ==> k in r && r[k] == m[k]
  {
    m[key := value]
  }

  /** Setting the same key to the same value twice is setting it once. */
  lemma UpsertedIdempotent<K, V>(m: map<K, V>, key: K, value: V)
    ensures Upserted(Upserted(m, key, value), key, value) == Upserted(m, key, value)
  {
  }

  /** Scalar `SetOrAdd`: overwrite the entry of a present key, add it otherwise. */
  method SetOrAdd<K(==), V>(dict: Dictionary<K, V>, key: K, value: V)
    modifies dict
    ensures dict.entries == Upserted(old(dict.entries), key, value)
  {
    if key in dict.entries {
      dict.entries := dict.entries[key := value];  // dict[key] = value
    } else {
      dict.entries := dict.entries[key := value];  // dict.Add(key, value)
    }
  }

  /** No two keys share one collection object. */
  ghost predicate Unaliased<K, T>(dict: Dictionary<K, HashSet<T>>)
    reads dict
  {
    forall k, l :: k in dict.entries && l in dict.entries && k != l ==> dict.entries[k] != dict.entries[l]
  }

  /** The elements of every collection, by key. */
  ghost function Contents<K, T>(dict: Dictionary<K, HashSet<T>>): map<K, seq<T>>
    reads dict, dict.entries.Values
  {
    map k | k in dict.entries :: dict.entries[k].items
  }

  /** The collections by key after `item` is added under `key`. */
  function AddedTo<K, T(==)>(m: map<K, seq<T>>, key: K, item: T): (r: map<K, seq<T>>)
    ensures r.Keys == m.Keys + {key}
    ensures r[key] == if key in m then Inserted(m[key], item) else [item]
    ensures forall k :: k in m && k != key ==> r[k] == m[k]
  {
    if key in m then m[key := Inserted(m[key], item)] else m[key := [item]]
  }

  /**
   * Collection `SetOrAdd`, instantiated with `HashSet` collections: add the
   * item to the collection stored under a present key, in place; under an
   * absent key store a new collection holding just the item.
   */
  method SetOrAddItem<K(==), T(==)>(dict: Dictionary<K, HashSet<T>>, key: K, item: T)
    requires forall k :: k in dict.entries ==> dict.entries[k].Valid()
    modifies dict, if key in dict.entries then {dict.entries[key]} else {}
    ensures forall k :: k in dict.entries ==> dict.entries[k].Valid()
    ensures dict.entries.Keys == old(dict.entries.Keys) + {key}
    ensures forall k :: k in old(dict.entries) && k != key ==> dict.entries[k] == old(dict.entries[k])
    ensures key in old(dict.entries) ==>
      && dict.entries[key] == old(dict.entries[key])
      && dict.entries[key].items == Inserted(old(dict.entries[key].items), item)
    ensures key !in old(dict.entries) ==>
      fresh(dict.entries[key]) && dict.entries[key].items == [item]
    ensures forall s :: s in old(dict.entries.Values) && (key in old(dict.entries) ==> s != old(dict.entries[key])) ==>
      s.items == old(s.items)
    ensures old(Unaliased(dict)) ==> Unaliased(dict) && Contents(dict) == AddedTo(old(Contents(dict)), key, item)
  {
    if key in dict.entries {
      AddToStored(dict, key, item);
    } else {
      StoreNew(dict, key, item);
    }
  }

  /** The present-key branch: `dict[key].Add(item)` on the stored collection. */
  method AddToStored<K(==), T(==)>(dict: Dictionary<K, HashSet<T>>, key: K, item: T)
    requires key in dict.entries
    requires forall k :: k in dict.entries ==> dict.entries[k].Valid()
    modifies dict.entries[key]
    ensures forall k :: k in dict.entries ==> dict.entries[k].Valid()
    ensures dict.entries == old(dict.entries)
    ensures dict.entries[key].items == Inserted(old(dict.entries[key].items), item)
    ensures forall s :: s in old(dict.entries.Values) && s != old(dict.entries[key]) ==> s.items == old(s.items)
    ensures old(Unaliased(dict)) ==> Unaliased(dict) && Contents(dict) == AddedTo(old(Contents(dict)), key, item)
  {
    ghost var before := Contents(dict);
    ghost var unaliased := Unaliased(dict);
    var _ := dict.entries[key].Add(item);
    if unaliased {
      forall k | k in dict.entries
        ensures dict.entries[k].items == AddedTo(before, key, item)[k]
      {
        if k != key {
          assert dict.entries[k] != dict.entries[key];
        }
      }
    }
  }

  /** The absent-key branch: `dict.Add(key, new() { item })`. */
  method StoreNew<K(==), T(==)>(dict: Dictionary<K, HashSet<T>>, key: K, item: T)
    requires key !in dict.entries
    requires forall k :: k in dict.entries ==> dict.entries[k].Valid()
    modifies dict
    ensures forall k :: k in dict.entries ==> dict.entries[k].Valid()
    ensures key in dict.entries && dict.entries == old(dict.entries)[key := dict.entries[key]]
    ensures fresh(dict.entries[key]) && dict.entries[key].items == [item]
    ensures old(Unaliased(dict)) ==> Unaliased(dict) && Contents(dict) == AddedTo(old(Contents(dict)), key, item)
  {
    ghost var before := Contents(dict);
    var collection := new HashSet<T>();
    var _ := collection.Add(item);
    dict.entries := dict.entries[key := collection];
  }
}
