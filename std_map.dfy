/** The two `std::unordered_map` operations the log engine relies on, on
    Dafny maps, and what their combination does to the version table.

    `insert(pair)` adds the pair only when the key is absent and never
    overwrites; `operator[]` returns the mapped value and, when the key is
    absent, first inserts a value-initialised entry (0 for an integer).
 */
module StdMap {

  /** `m.insert({k, v})`. */
  function Insert<K, V>(m: map<K, V>, k: K, v: V): (m': map<K, V>)
    ensures m'.Keys == m.Keys + {k}
    ensures forall j :: j in m ==> m'[j] == m[j]
    ensures m'[k] == if k in m then m[k] else v
  {
    if k in m then m else m[k := v]
  }

  /** `m[k]` on a map from keys to integers: the value, and the map as it is
      afterwards. */
  function Subscript<K>(m: map<K, int>, k: K): (r: (int, map<K, int>))
    ensures r.1.Keys == m.Keys + {k}
    ensures forall j :: j in m ==> r.1[j] == m[j]
    ensures r.0 == r.1[k]
    ensures k !in m ==> r.0 == 0
  {
    if k in m then (m[k], m) else (0, m[k := 0])
  }

  /** The value `m[k]` would return, without inserting anything. */
  function Lookup<K>(m: map<K, int>, k: K): (v: int)
    ensures v == Subscript(m, k).0
  {
    if k in m then m[k] else 0
  }

  /** As written, a version looked up before it is issued leaves a 0 entry
      behind, and the later `insert` for that version cannot replace it. On a
      fresh log: a reader asks for version 1, then records 0 and 1 are
      appended, ending at 30 and 60; record 1 starts at 30 and ends before the
      watermark 60 it should have, yet version 1 reports watermark 0, so
      every read at version 1 is rejected. */
  lemma StaleVersionEntry()
    ensures var m1 := Subscript(map[], 1 as nat).1;
            var m2 := Insert(Insert(m1, 0, 30), 1, 60);
            Subscript(m2, 1).0 == 0 && !(30 < Subscript(m2, 1).0)
  {
  }

  /** For every version table and every version `k` not yet issued: a read
      through `operator[]` before the `insert` that issues `k` leaves `k`
      mapped to 0, whatever watermark the `insert` carries, while without that
      read the `insert` records the watermark. */
  lemma SubscriptBeforeInsert(m: map<nat, int>, k: nat, v: int)
    requires k !in m
    ensures Lookup(Insert(Subscript(m, k).1, k, v), k) == 0
    ensures Lookup(Insert(m, k, v), k) == v
  {
  }
}
