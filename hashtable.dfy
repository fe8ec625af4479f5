/**
 * The key/value tables of hashtable.hpp, hashtable_impl.hpp and
 * hashtable.cpp: a `std::unordered_map` behind a reader/writer lock.  The
 * map is the field `entries`; the lock only orders concurrent calls and
 * is not modelled.
 */
module HashTables {
  import opened Wrappers

  /**
   * What `map_.emplace(k, v)` leaves: `emplace` never replaces, so a key
   * already present keeps its value and only a new key is added.
   */
  function Emplaced<K, V>(m: map<K, V>, k: K, v: V): (r: map<K, V>)
    ensures r.Keys == m.Keys + {k}
    ensures k in m ==> r[k] == m[k]
    ensures k !in m ==> r[k] == v && |r| == |m| + 1
    ensures k in m ==> |r| == |m|
    ensures forall j | j in m && j != k :: r[j] == m[j]
  {
    if k in m then m else m[k := v]
  }

  /** What the doc comments of `insert` describe ("inserts or assigns"): the key maps to `v` afterwards. */
  function Assigned<K, V>(m: map<K, V>, k: K, v: V): (r: map<K, V>)
    ensures r.Keys == m.Keys + {k} && r[k] == v
    ensures forall j | j in m && j != k :: r[j] == m[j]
  {
    m[k := v]
  }

  /** What `erase` leaves: the key gone, the other entries as they were. */
  function Erased<K, V>(m: map<K, V>, k: K): (r: map<K, V>)
    ensures r.Keys == m.Keys - {k}
    ensures forall j | j in r :: r[j] == m[j]
    ensures |r| == if k in m then |m| - 1 else |m|
  {
    m - {k}
  }

  /** Erasing a key that insertion just added gives back the table as it was. */
  lemma EraseUndoesInsert<K, V>(m: map<K, V>, k: K, v: V)
    requires k !in m
    ensures Erased(Emplaced(m, k, v), k) == m
  {
    assert Erased(Emplaced(m, k, v), k).Keys == m.Keys;
  }

  /**
   * Inserting a key already present keeps the old value, so whenever the
   * new value differs the result is not what "inserts or assigns" promises.
   */
  lemma EmplaceKeepsOldValue<K, V>(m: map<K, V>, k: K, v: V)
    requires k in m && m[k] != v
    ensures Emplaced(m, k, v)[k] == m[k] && Emplaced(m, k, v) != Assigned(m, k, v)
  {
    assert Assigned(m, k, v)[k] == v;
  }

  /** `HashTable<K, V>` of hashtable_impl.hpp. */
  class HashTable<K(==), V> {
    var entries: map<K, V>

    /** `HashTable()`: empty. */
    constructor ()
      ensures entries == map[]
    {
      entries := map[];
    }

    /** `insert`: adds the entry only when the key is absent, and says whether it did. */
    method Insert(key: K, value: V) returns (inserted: bool)
      modifies this
      ensures inserted <==> key !in old(entries)
      ensures entries == Emplaced(old(entries), key, value)
      ensures Size() == old(Size()) + (if inserted then 1 else 0)
    {
      inserted := key !in entries;
      entries := Emplaced(entries, key, value);
    }

    /**
     * `insert` as its doc comment describes it (`insert_or_assign`): the
     * key maps to `value` afterwards, and the result says whether the key
     * was new.
     */
    method InsertOrAssign(key: K, value: V) returns (inserted: bool)
      modifies this
      ensures inserted <==> key !in old(entries)
      ensures entries == Assigned(old(entries), key, value)
    {
      inserted := key !in entries;
      entries := entries[key := value];
    }

    /** `erase`: removes the key and says whether it was there. */
    method Erase(key: K) returns (erased: bool)
      modifies this
      ensures erased <==> key in old(entries)
      ensures entries == Erased(old(entries), key)
      ensures Size() == old(Size()) - (if erased then 1 else 0)
    {
      if key !in entries {
        return false;
      }
      entries := entries - {key};
      erased := true;
    }

    /** `find`: the stored value exactly when the key is present. */
    method Find(key: K) returns (r: Option<V>)
      ensures r.Some? <==> key in entries
      ensures r.Some? ==> r.value == entries[key]
    {
      if key !in entries {
        return None;
      }
      r := Some(entries[key]);
    }

    /** `clear`: no entries. */
    method Clear()
      modifies this
      ensures entries == map[]
    {
      entries := map[];
    }

    /** `size`: the number of distinct keys. */
    function Size(): (n: nat)
      reads this
      ensures n == 0 <==> entries == map[]
    {
      |entries|
    }
  }

  /** The `void*` a `JsonStringHashTable` entry owns, by its address. */
  type Pointer = nat

  /**
   * `JsonStringHashTable` of hashtable.cpp: string keys, each owning the
   * pointer it was inserted with.  Its empty-key guard tests
   * `key.empty() && !key.empty()`, which never holds, so the empty key is
   * accepted like any other and `insert` never throws.
   */
  class JsonStringHashTable {
    var entries: map<string, Pointer>

    constructor ()
      ensures entries == map[]
    {
      entries := map[];
    }

    /** `insert`: any key, the empty one included; adds the entry only when the key is absent. */
    method Insert(key: string, value: Pointer) returns (inserted: bool)
      modifies this
      ensures inserted <==> key !in old(entries)
      ensures entries == Emplaced(old(entries), key, value)
      ensures Size() == old(Size()) + (if inserted then 1 else 0)
    {
      inserted := key !in entries;
      entries := Emplaced(entries, key, value);
    }

    /** `erase`: removes the key and says whether it was there. */
    method Erase(key: string) returns (erased: bool)
      modifies this
      ensures erased <==> key in old(entries)
      ensures entries == Erased(old(entries), key)
      ensures Size() == old(Size()) - (if erased then 1 else 0)
    {
      if key !in entries {
        return false;
      }
      entries := entries - {key};
      erased := true;
    }

    /** `find`: the owned pointer exactly when the key is present. */
    method Find(key: string) returns (r: Option<Pointer>)
      ensures r.Some? <==> key in entries
      ensures r.Some? ==> r.value == entries[key]
    {
      if key !in entries {
        return None;
      }
      r := Some(entries[key]);
    }

    /** `clear`: no entries. */
    method Clear()
      modifies this
      ensures entries == map[]
    {
      entries := map[];
    }

    /** `size`: the number of entries. */
    function Size(): (n: nat)
      reads this
      ensures n == 0 <==> entries == map[]
    {
      |entries|
    }
  }
}
