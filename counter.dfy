/** collections.Counter and its most_common(): tallying a sequence of hashable keys and
    listing each distinct key with its count, the most frequent first. */
module Counter {
  import opened Combinatorics
  import opened Ordering

  /** One entry of most_common(): a key and how often it was counted. */
  datatype Counted<K> = Counted(key: K, count: nat)

  predicate CountGe<K>(a: Counted<K>, b: Counted<K>) {
    a.count >= b.count
  }

  lemma CountGeIsTotalPreorder<K(!new)>()
    ensures TotalPreorder(CountGe<K>)
  {
  }

  /** rows is Counter(found).most_common(): one entry per distinct key of found, holding
      the number of times it occurs there, in non-increasing order of count. */
  predicate MostCommonOf<K(==)>(rows: seq<Counted<K>>, found: seq<K>) {
    && (forall i, j :: 0 <= i < j < |rows| ==> rows[i].key != rows[j].key)
    && (forall k :: k in found ==> exists i :: 0 <= i < |rows| && rows[i].key == k)
    && (forall i :: 0 <= i < |rows| ==> rows[i].key in found)
    && (forall i :: 0 <= i < |rows| ==> rows[i].count == multiset(found)[rows[i].key])
    && SortedBy(rows, CountGe)
  }

  /** Counter(found).most_common(). */
  method MostCommon<K(==, !new)>(found: seq<K>) returns (rows: seq<Counted<K>>)
    ensures MostCommonOf(rows, found)
  {
    var keys: seq<K> := [];
    var counts: map<K, nat> := map[];
    for i := 0 to |found|
      invariant Distinct(keys) && Elems(keys) == counts.Keys
      invariant forall k :: k in counts <==> k in found[..i]
      invariant forall k :: k in counts ==> counts[k] == multiset(found[..i])[k]
    {
      var k := found[i];
      assert found[..i + 1] == found[..i] + [k];
      if k in counts {
        counts := counts[k := counts[k] + 1];
      } else {
        DistinctSnoc(keys, k);
        keys := keys + [k];
        counts := counts[k := 1];
      }
    }
    assert found[..|found|] == found;
    var items := seq(|keys|, j requires 0 <= j < |keys| => Counted(keys[j], counts[keys[j]]));
    CountGeIsTotalPreorder<K>();
    rows := SortBy(items, CountGe);
    RowsOfKeys(keys, counts, items, rows, found);
  }

  lemma RowsOfKeys<K>(keys: seq<K>, counts: map<K, nat>, items: seq<Counted<K>>,
                      rows: seq<Counted<K>>, found: seq<K>)
    requires Distinct(keys) && Elems(keys) == counts.Keys
    requires forall k :: k in counts <==> k in found
    requires forall k :: k in counts ==> counts[k] == multiset(found)[k]
    requires |items| == |keys|
    requires forall j :: 0 <= j < |keys| ==> items[j] == Counted(keys[j], counts[keys[j]])
    requires multiset(rows) == multiset(items)
    ensures forall i, j :: 0 <= i < j < |rows| ==> rows[i].key != rows[j].key
    ensures forall k :: k in found ==> exists i :: 0 <= i < |rows| && rows[i].key == k
    ensures forall i :: 0 <= i < |rows| ==> rows[i].key in found
    ensures forall i :: 0 <= i < |rows| ==> rows[i].count == multiset(found)[rows[i].key]
  {
    assert Distinct(items) by {
      forall a, b | 0 <= a < b < |items| ensures items[a] != items[b] {
        assert items[a].key == keys[a] && items[b].key == keys[b];
      }
    }
    PermutationKeepsUnique(items, rows);
    forall i | 0 <= i < |rows| ensures exists j :: 0 <= j < |keys| && rows[i] == items[j] {
      assert rows[i] in items;
    }
    forall i, j | 0 <= i < j < |rows| ensures rows[i].key != rows[j].key {
      var a :| 0 <= a < |keys| && rows[i] == items[a];
      var b :| 0 <= b < |keys| && rows[j] == items[b];
      assert a != b;
    }
    forall k | k in found ensures exists i :: 0 <= i < |rows| && rows[i].key == k {
      assert k in Elems(keys);
      var j :| 0 <= j < |keys| && keys[j] == k;
      assert items[j] in rows;
    }
  }

  function TotalCount<K>(rows: seq<Counted<K>>): nat {
    if rows == [] then 0 else TotalCount(rows[..|rows| - 1]) + rows[|rows| - 1].count
  }

  /** Entries for distinct keys, each holding its multiplicity in m, account for no more
      than all of m. */
  lemma {:induction false} TotalCountWithin<K>(rows: seq<Counted<K>>, m: multiset<K>)
    requires forall i, j :: 0 <= i < j < |rows| ==> rows[i].key != rows[j].key
    requires forall i :: 0 <= i < |rows| ==> rows[i].count == m[rows[i].key]
    ensures TotalCount(rows) <= |m|
  {
    if rows != [] {
      var init, last := rows[..|rows| - 1], rows[|rows| - 1];
      var rest := m[last.key := 0];
      forall i | 0 <= i < |init| ensures init[i].count == rest[init[i].key] {
        assert init[i] == rows[i];
      }
      TotalCountWithin(init, rest);
      MultisetClear(m, last.key);
    }
  }

  lemma MultisetClear<K>(m: multiset<K>, k: K)
    ensures |m[k := 0]| + m[k] == |m|
  {
    var n := m[k];
    var rest := m[k := 0];
    var ks := multiset{}[k := n];
    assert m == rest + ks;
    assert |ks| == n by {
      KeyCopies(k, n);
    }
  }

  lemma {:induction false} KeyCopies<K>(k: K, n: nat)
    ensures |multiset{}[k := n]| == n
  {
    if n > 0 {
      KeyCopies(k, n - 1);
      assert multiset{}[k := n] == multiset{}[k := n - 1] + multiset{k};
    }
  }

  /** The counts of Counter(found).most_common() add up to at most the length of found. */
  lemma MostCommonTotal<K>(rows: seq<Counted<K>>, found: seq<K>)
    requires MostCommonOf(rows, found)
    ensures TotalCount(rows) <= |found|
  {
    TotalCountWithin(rows, multiset(found));
  }
}
