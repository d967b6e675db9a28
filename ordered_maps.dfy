/**
 * JavaScript's `Map`: a finite map that remembers the order in which its keys were
 * first inserted. `set` on a present key replaces the value in place (the key keeps
 * its position), `set` on a new key appends it, and `delete` removes the key while the
 * others keep their order. Iteration (`entries()`, `values()`) follows `keys`.
 */
module OrderedMaps {
  import opened Wrappers

  datatype OMap<K(==), V> = OMap(keys: seq<K>, table: map<K, V>)
  {
    /** The key list has no repeats and lists exactly the keys of the table. */
    ghost predicate Valid() {
      && Distinct(keys)
      && (forall k | k in table :: k in keys)
      && (forall i | 0 <= i < |keys| :: keys[i] in table)
    }

    function Size(): nat { |keys| }

    function Get(k: K): (r: Option<V>)
      ensures r.Some? <==> k in table
      ensures r.Some? ==> r.value == table[k]
    {
      if k in table then Some(table[k]) else None
    }

    function Set(k: K, v: V): (r: OMap<K, V>)
      requires Valid()
      ensures r.Valid()
      ensures r.table == table[k := v]
      ensures r.keys == if k in table then keys else keys + [k]
    {
      if k in table then OMap(keys, table[k := v])
      else
        assert (keys + [k])[..|keys|] == keys;
        OMap(keys + [k], table[k := v])
    }

    function Delete(k: K): (r: OMap<K, V>)
      requires Valid()
      ensures r.Valid()
      ensures r.table == table - {k}
      ensures r.keys == Without(keys, k)
      ensures k in table ==> |r.keys| == |keys| - 1
      ensures k !in table ==> r == this
    {
      if k in table then
        DeleteValid(k);
        OMap(Without(keys, k), table - {k})
      else
        WithoutAbsent(keys, k); assert table - {k} == table; this
    }

    lemma DeleteValid(k: K)
      requires Valid() && k in table
      ensures OMap(Without(keys, k), table - {k}).Valid()
      ensures |Without(keys, k)| == |keys| - 1
    {
      WithoutMembers(keys, k);
      WithoutDistinct(keys, k);
      WithoutLength(keys, k);
      KeysInTable();
      var rest := Without(keys, k);
      forall i | 0 <= i < |rest| ensures rest[i] in table - {k} {
        assert rest[i] in rest;
      }
    }

    lemma KeysInTable()
      requires Valid()
      ensures forall x :: x in keys <==> x in table
    {
      forall x | x in keys ensures x in table {
        var j :| 0 <= j < |keys| && keys[j] == x;
      }
    }

    /** `m.size` is the number of entries, one per listed key. */
    lemma SizeIsCount()
      requires Valid()
      ensures |keys| == |table.Keys|
    {
      KeysInTable();
      DistinctCount(keys);
      assert table.Keys == set x | x in keys;
    }

    /** `Array.from(m.values())`. */
    function Values(): (r: seq<V>)
      requires Valid()
      ensures |r| == |keys|
      ensures forall i :: 0 <= i < |keys| ==> r[i] == table[keys[i]]
    {
      seq(|keys|, i requires 0 <= i < |keys| => table[keys[i]])
    }

    /** Setting a new key appends its value to `values()`. */
    lemma SetNewValues(k: K, v: V)
      requires Valid() && k !in table
      ensures Set(k, v).Values() == Values() + [v]
    {
      var r := Set(k, v);
      forall i | 0 <= i < |keys| ensures r.Values()[i] == Values()[i] {
        assert keys[i] in table;
      }
    }
  }

  function Empty<K(==), V>(): (r: OMap<K, V>)
    ensures r.Valid() && r.keys == [] && r.table == map[]
  {
    OMap([], map[])
  }

  /** No element occurs twice. */
  ghost predicate Distinct<K>(s: seq<K>) {
    s == [] || (s[|s| - 1] !in s[..|s| - 1] && Distinct(s[..|s| - 1]))
  }

  /** `s` with every occurrence of `k` removed, the rest in order. */
  function Without<K(==)>(s: seq<K>, k: K): seq<K> {
    if s == [] then []
    else if s[|s| - 1] == k then Without(s[..|s| - 1], k)
    else Without(s[..|s| - 1], k) + [s[|s| - 1]]
  }

  lemma {:induction false} WithoutMembers<K>(s: seq<K>, k: K)
    ensures forall x :: x in Without(s, k) ==> x in s && x != k
    ensures forall x :: x in s && x != k ==> x in Without(s, k)
  {
    if s != [] {
      WithoutMembers(s[..|s| - 1], k);
      assert s == s[..|s| - 1] + [s[|s| - 1]];
    }
  }

  lemma {:induction false} WithoutDistinct<K>(s: seq<K>, k: K)
    requires Distinct(s)
    ensures Distinct(Without(s, k))
  {
    if s != [] {
      var init := s[..|s| - 1];
      WithoutDistinct(init, k);
      WithoutMembers(init, k);
      var last := s[|s| - 1];
      var r0 := Without(init, k);
      if last != k {
        assert Without(s, k) == r0 + [last];
        assert (r0 + [last])[..|r0|] == r0;
      }
    }
  }

  lemma {:induction false} WithoutLength<K>(s: seq<K>, k: K)
    requires Distinct(s)
    requires k in s
    ensures |Without(s, k)| == |s| - 1
  {
    var init := s[..|s| - 1];
    if s[|s| - 1] == k {
      assert k !in init;
      WithoutAbsent(init, k);
    } else {
      assert k in init;
      WithoutLength(init, k);
    }
  }

  lemma {:induction false} WithoutAbsent<K>(s: seq<K>, k: K)
    requires k !in s
    ensures Without(s, k) == s
  {
    if s != [] {
      WithoutAbsent(s[..|s| - 1], k);
      assert s == s[..|s| - 1] + [s[|s| - 1]];
    }
  }

  /** A repeat-free sequence has as many distinct elements as entries. */
  lemma {:induction false} DistinctCount<K>(s: seq<K>)
    requires Distinct(s)
    ensures |set x | x in s| == |s|
  {
    if s != [] {
      var init := s[..|s| - 1];
      DistinctCount(init);
      assert s == init + [s[|s| - 1]];
      assert (set x | x in s) == (set x | x in init) + {s[|s| - 1]};
    }
  }

  /** An entry of a repeat-free sequence does not occur before its own position. */
  lemma {:induction false} DistinctAt<K>(s: seq<K>, i: nat)
    requires Distinct(s) && i < |s|
    ensures s[i] !in s[..i]
  {
    if i < |s| - 1 {
      var init := s[..|s| - 1];
      DistinctAt(init, i);
      assert init[..i] == s[..i];
    }
  }

  /** `s` without the elements of `gone`, the rest in order. */
  function Keep<K(==)>(s: seq<K>, gone: set<K>): (r: seq<K>)
    ensures |r| <= |s|
    ensures forall x | x in r :: x in s && x !in gone
    ensures forall x | x in s && x !in gone :: x in r
  {
    if s == [] then []
    else
      var init := s[..|s| - 1];
      assert s == init + [s[|s| - 1]];
      if s[|s| - 1] in gone then Keep(init, gone) else Keep(init, gone) + [s[|s| - 1]]
  }

  /** Removing one more element from a filtered sequence filters by the larger set. */
  lemma {:induction false} WithoutKeep<K>(s: seq<K>, gone: set<K>, k: K)
    ensures Without(Keep(s, gone), k) == Keep(s, gone + {k})
  {
    if s != [] {
      var init := s[..|s| - 1];
      var last := s[|s| - 1];
      WithoutKeep(init, gone, k);
      if last !in gone {
        var r := Keep(init, gone);
        assert (r + [last])[..|r|] == r;
      }
    }
  }

  /** Filtering by nothing changes nothing. */
  lemma {:induction false} KeepNothing<K>(s: seq<K>)
    ensures Keep(s, {}) == s
  {
    if s != [] {
      KeepNothing(s[..|s| - 1]);
      assert s == s[..|s| - 1] + [s[|s| - 1]];
    }
  }

  lemma {:induction false} KeepDistinct<K>(s: seq<K>, gone: set<K>)
    requires Distinct(s)
    ensures Distinct(Keep(s, gone))
  {
    if s != [] {
      var init := s[..|s| - 1];
      var last := s[|s| - 1];
      KeepDistinct(init, gone);
      if last !in gone {
        var r := Keep(init, gone);
        assert (r + [last])[..|r|] == r;
      }
    }
  }

  lemma {:induction false} DistinctPrefix<K>(s: seq<K>, n: nat)
    requires Distinct(s) && n <= |s|
    ensures Distinct(s[..n])
  {
    if n < |s| {
      var init := s[..|s| - 1];
      DistinctPrefix(init, n);
      assert init[..n] == s[..n];
    } else {
      assert s[..n] == s;
    }
  }
}
