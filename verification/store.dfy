/** The two databases of RegistrationSystem.java (`CourseDatabase` and
    `StudentDatabase`) are the same thing: a `HashMap` from a string key to an
    entity, used only through `put` (insert or overwrite) and `get` (the
    entity, or `null`). That one concept is modelled once here. */
module Store {
  import opened JavaTypes

  datatype Table<V> = Table(entries: map<string, V>)

  /** `new HashMap<>()`. */
  function Empty<V>(): (t: Table<V>)
    ensures forall k :: Get(t, k) == None
  {
    Table(map[])
  }

  /** `HashMap.get`: the stored entity, or `null` for an absent key. It never
      fails. */
  function Get<V>(t: Table<V>, k: string): (r: Option<V>)
    ensures r == None <==> k !in t.entries
    ensures r.Some? ==> r.value == t.entries[k]
  {
    if k in t.entries then Some(t.entries[k]) else None
  }

  /** `HashMap.put`: insert, or overwrite what the key held. */
  function Put<V>(t: Table<V>, k: string, v: V): (r: Table<V>)
    ensures Get(r, k) == Some(v)
    ensures forall k' :: k' != k ==> Get(r, k') == Get(t, k')
    ensures r.entries.Keys == t.entries.Keys + {k}
  {
    Table(t.entries[k := v])
  }

  /** The last value put under a key is the one kept. */
  lemma PutOverwrites<V>(t: Table<V>, k: string, a: V, b: V)
    ensures Put(Put(t, k, a), k, b) == Put(t, k, b)
  {
  }

  /** Puts under different keys do not interfere, so their order is
      irrelevant. */
  lemma PutsOnDistinctKeysCommute<V>(t: Table<V>, k1: string, v1: V, k2: string, v2: V)
    requires k1 != k2
    ensures Put(Put(t, k1, v1), k2, v2) == Put(Put(t, k2, v2), k1, v1)
  {
  }

  /** Putting back what a key already holds changes nothing. */
  lemma PutOfGetIsIdentity<V>(t: Table<V>, k: string)
    requires k in t.entries
    ensures Put(t, k, Get(t, k).value) == t
  {
  }
}
