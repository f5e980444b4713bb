/** The "top types" column of a share: the type table's entries are sorted
    by count, largest first (a stable sort, so equal counts keep the table's
    insertion order), and a fixed number of keys is read off that list. */
module TopTypes {
  import opened FileTypes

  /** One `(key, count)` item of the type dictionary. */
  datatype TypeCount = TypeCount(key: string, count: nat)

  /** `types.items()`: the entries in insertion order. */
  function Items(t: TypeTable): (r: seq<TypeCount>)
    requires TableValid(t)
    ensures |r| == |t.order|
    ensures forall i :: 0 <= i < |r| ==> r[i].key == t.order[i] && r[i].count == t.counts[t.order[i]]
  {
    seq(|t.order|, i requires 0 <= i < |t.order| => TypeCount(t.order[i], t.counts[t.order[i]]))
  }

  function KeysOf(s: seq<TypeCount>): (r: seq<string>)
    ensures |r| == |s|
    ensures forall i :: 0 <= i < |s| ==> r[i] == s[i].key
  {
    seq(|s|, i requires 0 <= i < |s| => s[i].key)
  }

  /** One more item's key at the end of a prefix. */
  lemma KeysOfExtend(s: seq<TypeCount>, i: nat)
    requires i < |s|
    ensures KeysOf(s[..i + 1]) == KeysOf(s[..i]) + [s[i].key]
  {
  }

  /** One more item's key at the end of the as-written list. */
  lemma LastThenPrefixExtend(s: seq<TypeCount>, i: nat)
    requires i < |s|
    ensures [s[|s| - 1].key] + KeysOf(s[..i]) + [s[i].key] == [s[|s| - 1].key] + KeysOf(s[..i + 1])
  {
    KeysOfExtend(s, i);
  }

  ghost predicate NonIncreasing(s: seq<TypeCount>)
  {
    forall i, j :: 0 <= i < j < |s| ==> s[i].count >= s[j].count
  }

  ghost predicate DistinctKeys(s: seq<TypeCount>)
  {
    forall i, j :: 0 <= i < j < |s| ==> s[i].key != s[j].key
  }

  ghost predicate Distinct(s: seq<string>)
  {
    forall i, j :: 0 <= i < j < |s| ==> s[i] != s[j]
  }

  /** The items whose count is `v`, in their order in `s`. */
  function WithCount(s: seq<TypeCount>, v: nat): seq<TypeCount>
  {
    if s == [] then []
    else (if s[0].count == v then [s[0]] else []) + WithCount(s[1..], v)
  }

  lemma {:induction false} WithCountConcat(xs: seq<TypeCount>, ys: seq<TypeCount>, v: nat)
    ensures WithCount(xs + ys, v) == WithCount(xs, v) + WithCount(ys, v)
  {
    if xs == [] {
      assert xs + ys == ys;
    } else {
      var zs := xs + ys;
      assert zs[0] == xs[0];
      assert zs[1..] == xs[1..] + ys;
      WithCountConcat(xs[1..], ys, v);
      var head := if xs[0].count == v then [xs[0]] else [];
      assert WithCount(zs, v) == head + WithCount(zs[1..], v);
      assert WithCount(xs, v) == head + WithCount(xs[1..], v);
      assert head + (WithCount(xs[1..], v) + WithCount(ys, v))
        == (head + WithCount(xs[1..], v)) + WithCount(ys, v);
    }
  }

  lemma {:induction false} WithCountNone(s: seq<TypeCount>, v: nat)
    requires forall i :: 0 <= i < |s| ==> s[i].count != v
    ensures WithCount(s, v) == []
  {
    if s != [] {
      WithCountNone(s[1..], v);
    }
  }

  /** Stable descending insertion: `x` goes after every item whose count is
      at least x's. */
  function Insert(x: TypeCount, s: seq<TypeCount>): (r: seq<TypeCount>)
    ensures |r| == |s| + 1
  {
    if s == [] || s[0].count < x.count then [x] + s
    else [s[0]] + Insert(x, s[1..])
  }

  lemma {:induction false} InsertPermutes(x: TypeCount, s: seq<TypeCount>)
    ensures multiset(Insert(x, s)) == multiset(s) + multiset{x}
  {
    if s != [] && s[0].count >= x.count {
      InsertPermutes(x, s[1..]);
      assert s == [s[0]] + s[1..];
    }
  }

  /** Every item of `Insert(x, s)` is `x` or an item of `s`. */
  lemma {:induction false} InsertFrom(x: TypeCount, s: seq<TypeCount>, k: nat)
    requires k < |s| + 1
    ensures Insert(x, s)[k] == x || exists i :: 0 <= i < |s| && s[i] == Insert(x, s)[k]
  {
    if s == [] || s[0].count < x.count {
      if k > 0 {
        assert Insert(x, s)[k] == s[k - 1];
      }
    } else if k > 0 {
      InsertFrom(x, s[1..], k - 1);
      if Insert(x, s)[k] != x {
        var i :| 0 <= i < |s[1..]| && s[1..][i] == Insert(x, s[1..])[k - 1];
        assert s[i + 1] == Insert(x, s)[k];
      }
    }
  }

  lemma {:induction false} InsertSorted(x: TypeCount, s: seq<TypeCount>)
    requires NonIncreasing(s)
    ensures NonIncreasing(Insert(x, s))
  {
    if s != [] && s[0].count >= x.count {
      var tail := Insert(x, s[1..]);
      InsertSorted(x, s[1..]);
      forall k | 0 <= k < |tail| ensures s[0].count >= tail[k].count {
        InsertFrom(x, s[1..], k);
        if tail[k] != x {
          var i :| 0 <= i < |s[1..]| && s[1..][i] == tail[k];
          assert s[i + 1] == tail[k];
        }
      }
      var r := [s[0]] + tail;
      forall p, q | 0 <= p < q < |r| ensures r[p].count >= r[q].count {
        if p > 0 {
          assert r[p] == tail[p - 1] && r[q] == tail[q - 1];
        } else {
          assert r[q] == tail[q - 1];
        }
      }
    }
  }

  lemma {:induction false} InsertStable(x: TypeCount, s: seq<TypeCount>, v: nat)
    requires NonIncreasing(s)
    ensures WithCount(Insert(x, s), v) == WithCount(s, v) + (if x.count == v then [x] else [])
  {
    if s == [] {
      assert [x] + s == [x];
      assert [x][1..] == [];
    } else if s[0].count < x.count {
      var r := [x] + s;
      assert r[0] == x && r[1..] == s;
      if x.count == v {
        WithCountNone(s, v);
      }
    } else {
      var r := [s[0]] + Insert(x, s[1..]);
      assert r[0] == s[0] && r[1..] == Insert(x, s[1..]);
      InsertStable(x, s[1..], v);
    }
  }

  lemma {:induction false} InsertKeepsKeysDistinct(x: TypeCount, s: seq<TypeCount>)
    requires DistinctKeys(s)
    requires forall k :: 0 <= k < |s| ==> s[k].key != x.key
    ensures DistinctKeys(Insert(x, s))
  {
    if s != [] && s[0].count >= x.count {
      var tail := Insert(x, s[1..]);
      InsertKeepsKeysDistinct(x, s[1..]);
      forall k | 0 <= k < |tail| ensures s[0].key != tail[k].key {
        InsertFrom(x, s[1..], k);
        if tail[k] != x {
          var i :| 0 <= i < |s[1..]| && s[1..][i] == tail[k];
          assert s[i + 1] == tail[k];
        }
      }
      var r := [s[0]] + tail;
      forall p, q | 0 <= p < q < |r| ensures r[p].key != r[q].key {
        if p > 0 {
          assert r[p] == tail[p - 1] && r[q] == tail[q - 1];
        } else {
          assert r[q] == tail[q - 1];
        }
      }
    }
  }

  /** `sorted(items, reverse=True, key=count)`: a stable sort, largest count first. */
  function SortByCount(items: seq<TypeCount>): (r: seq<TypeCount>)
    ensures |r| == |items|
    decreases |items|
  {
    if items == [] then []
    else
      var n := |items| - 1;
      Insert(items[n], SortByCount(items[..n]))
  }

  /** The sorted list holds the same items. */
  lemma {:induction false} SortPermutes(items: seq<TypeCount>)
    ensures multiset(SortByCount(items)) == multiset(items)
    decreases |items|
  {
    if items != [] {
      var n := |items| - 1;
      SortPermutes(items[..n]);
      assert items == items[..n] + [items[n]];
      InsertPermutes(items[n], SortByCount(items[..n]));
    }
  }

  /** The sorted list has the largest count first. */
  lemma {:induction false} SortSorts(items: seq<TypeCount>)
    ensures NonIncreasing(SortByCount(items))
    decreases |items|
  {
    if items != [] {
      var n := |items| - 1;
      SortSorts(items[..n]);
      InsertSorted(items[n], SortByCount(items[..n]));
    }
  }

  /** The sort is stable: the items of any one count keep their order. */
  lemma {:induction false} SortStable(items: seq<TypeCount>, v: nat)
    ensures WithCount(SortByCount(items), v) == WithCount(items, v)
    decreases |items|
  {
    if items != [] {
      var n := |items| - 1;
      var rest := SortByCount(items[..n]);
      SortStable(items[..n], v);
      assert items == items[..n] + [items[n]];
      SortSorts(items[..n]);
      InsertStable(items[n], rest, v);
      WithCountConcat(items[..n], [items[n]], v);
      assert [items[n]][1..] == [];
    }
  }

  /** Sorting keeps the keys distinct: a sorted list holds the same items. */
  lemma {:induction false} SortKeepsKeysDistinct(items: seq<TypeCount>)
    requires DistinctKeys(items)
    ensures DistinctKeys(SortByCount(items))
    decreases |items|
  {
    if items != [] {
      var n := |items| - 1;
      var x := items[n];
      var rest := SortByCount(items[..n]);
      SortKeepsKeysDistinct(items[..n]);
      SortPermutes(items[..n]);
      forall k | 0 <= k < |rest| ensures rest[k].key != x.key {
        PermutationMember(rest, items[..n], k);
        var i :| 0 <= i < n && items[..n][i] == rest[k];
        assert items[i] == rest[k];
      }
      InsertKeepsKeysDistinct(x, rest);
    }
  }

  /** An item of a list is an item of any permutation of it. */
  lemma PermutationMember(s: seq<TypeCount>, t: seq<TypeCount>, k: nat)
    requires multiset(s) == multiset(t)
    requires k < |s|
    ensures exists i :: 0 <= i < |t| && t[i] == s[k]
  {
    assert s[k] in multiset(t);
  }

  /** What get_top_types returns for the sorted item list, as the source
      computes it: with fewer than `top` items, every key; otherwise the loop
      reads `list[index - 1]` for index 0 .. top-1, which is the LAST item
      (index -1) followed by the first top-1 items. */
  function TopOfSorted(sorted: seq<TypeCount>, top: int): (r: seq<string>)
    ensures |r| == if |sorted| < top then |sorted| else if top <= 0 then 0 else top
    ensures forall k :: k in r ==> k in KeysOf(sorted)
  {
    if |sorted| < top then KeysOf(sorted)
    else if top <= 0 then []
    else
      var all, front := KeysOf(sorted), KeysOf(sorted[..top - 1]);
      assert forall p :: 0 <= p < |front| ==> front[p] == all[p];
      assert all[|sorted| - 1] == sorted[|sorted| - 1].key;
      [sorted[|sorted| - 1].key] + front
  }

  /** get_top_types, as written. */
  method GetTopTypes(types: TypeTable, top: int) returns (topTypes: seq<string>)
    requires TableValid(types)
    ensures topTypes == TopOfSorted(SortByCount(Items(types)), top)
  {
    var list := SortByCount(Items(types));
    if |list| < top {
      topTypes := AppendEveryKey(list);
    } else {
      topTypes := AppendFromIndexMinusOne(list, top);
    }
  }

  /** The loop for fewer than `top` items: every key, in order. */
  method AppendEveryKey(list: seq<TypeCount>) returns (topTypes: seq<string>)
    ensures topTypes == KeysOf(list)
  {
    topTypes := [];
    var i := 0;
    while i < |list|
      invariant 0 <= i <= |list|
      invariant topTypes == KeysOf(list[..i])
    {
      KeysOfExtend(list, i);
      topTypes := topTypes + [list[i].key];
      i := i + 1;
    }
    assert list[..i] == list;
  }

  /** The loop for at least `top` items: `list[index - 1]` for index in
      range(top), where index -1 reads the last item. */
  method AppendFromIndexMinusOne(list: seq<TypeCount>, top: int) returns (topTypes: seq<string>)
    requires top <= |list|
    ensures top <= 0 ==> topTypes == []
    ensures top > 0 ==> topTypes == [list[|list| - 1].key] + KeysOf(list[..top - 1])
  {
    topTypes := [];
    var index := 0;
    while index < top
      invariant 0 <= index <= (if top < 0 then 0 else top)
      invariant index > 0 ==> topTypes == [list[|list| - 1].key] + KeysOf(list[..index - 1])
      invariant index == 0 ==> topTypes == []
    {
      var position := if index - 1 < 0 then |list| + (index - 1) else index - 1;
      if index > 0 {
        LastThenPrefixExtend(list, index - 1);
      }
      topTypes := topTypes + [list[position].key];
      index := index + 1;
    }
  }

  // ---------------------------------------------------------------------------
  // What the result holds

  /** A list holding the table's items, sorted and without repeated keys. */
  ghost predicate SortedItemsOf(sorted: seq<TypeCount>, types: TypeTable)
    requires TableValid(types)
  {
    && multiset(sorted) == multiset(Items(types))
    && NonIncreasing(sorted)
    && DistinctKeys(sorted)
  }

  lemma SortByCountSortsItems(types: TypeTable)
    requires TableValid(types)
    ensures SortedItemsOf(SortByCount(Items(types)), types)
  {
    SortPermutes(Items(types));
    SortSorts(Items(types));
    SortKeepsKeysDistinct(Items(types));
  }

  /** Each item of the sorted list is a key of the table with its count, and
      each key of the table is on the list. */
  lemma SortedItemsMatchTable(sorted: seq<TypeCount>, types: TypeTable)
    requires TableValid(types)
    requires SortedItemsOf(sorted, types)
    ensures |sorted| == |types.order|
    ensures forall i :: 0 <= i < |sorted| ==> sorted[i].key in types.counts && sorted[i].count == types.counts[sorted[i].key]
    ensures forall k :: k in types.counts ==> exists i :: 0 <= i < |sorted| && sorted[i].key == k
  {
    var items := Items(types);
    assert |sorted| == |multiset(sorted)| == |multiset(items)| == |items|;
    forall i | 0 <= i < |sorted| ensures sorted[i].key in types.counts && sorted[i].count == types.counts[sorted[i].key] {
      assert sorted[i] in multiset(items);
    }
    forall k | k in types.counts ensures exists i :: 0 <= i < |sorted| && sorted[i].key == k {
      var p :| 0 <= p < |types.order| && types.order[p] == k;
      assert items[p] in multiset(sorted);
      var q :| 0 <= q < |sorted| && sorted[q] == items[p];
      assert sorted[q].key == k;
    }
  }

  lemma AllTypesOfSorted(sorted: seq<TypeCount>, types: TypeTable, top: int)
    requires TableValid(types)
    requires SortedItemsOf(sorted, types)
    requires |types.order| < top
    ensures var r := TopOfSorted(sorted, top);
      && |r| == |types.order|
      && Distinct(r)
      && (forall k :: k in r <==> k in types.counts)
      && (forall i, j :: 0 <= i < j < |r| ==> types.counts[r[i]] >= types.counts[r[j]])
  {
    SortedItemsMatchTable(sorted, types);
    var r := KeysOf(sorted);
    forall k | k in types.counts ensures k in r {
      var i :| 0 <= i < |sorted| && sorted[i].key == k;
      assert r[i] == k;
    }
  }

  /** With fewer than `top` types, every key of the table is returned once,
      in non-increasing count order. */
  lemma AllTypesWhenFew(types: TypeTable, top: int)
    requires TableValid(types)
    requires |types.order| < top
    ensures var r := TopOfSorted(SortByCount(Items(types)), top);
      && |r| == |types.order|
      && Distinct(r)
      && (forall k :: k in r <==> k in types.counts)
      && (forall i, j :: 0 <= i < j < |r| ==> types.counts[r[i]] >= types.counts[r[j]])
  {
    SortByCountSortsItems(types);
    AllTypesOfSorted(SortByCount(Items(types)), types, top);
  }

  /** The shape of the as-written list: the last item's key, then the keys
      of the first top-1 items; no key twice. */
  lemma TopOfSortedShape(sorted: seq<TypeCount>, top: int)
    requires DistinctKeys(sorted)
    requires 0 < top <= |sorted|
    ensures var r := TopOfSorted(sorted, top);
      && |r| == top
      && Distinct(r)
      && r[0] == sorted[|sorted| - 1].key
      && r[1..] == KeysOf(sorted[..top - 1])
      && (forall i :: 0 < i < top ==> r[i] == sorted[i - 1].key)
  {
    var r := TopOfSorted(sorted, top);
    TopOfSortedKeys(sorted, top);
    forall p, q | 0 <= p < q < |r| ensures r[p] != r[q] {
      if p == 0 {
        assert r[q] == sorted[q - 1].key;
      } else {
        assert r[p] == sorted[p - 1].key && r[q] == sorted[q - 1].key;
      }
    }
  }

  /** Where each key of the as-written list comes from. */
  lemma TopOfSortedKeys(sorted: seq<TypeCount>, top: int)
    requires 0 < top <= |sorted|
    ensures var r := TopOfSorted(sorted, top);
      && |r| == top
      && r[0] == sorted[|sorted| - 1].key
      && r[1..] == KeysOf(sorted[..top - 1])
      && (forall i :: 0 < i < top ==> r[i] == sorted[i - 1].key)
  {
    var r := TopOfSorted(sorted, top);
    var front := KeysOf(sorted[..top - 1]);
    assert r == [sorted[|sorted| - 1].key] + front;
    assert r[1..] == front;
    forall i | 0 < i < top ensures r[i] == sorted[i - 1].key {
      assert r[i] == front[i - 1];
    }
  }

  /** The last item of the sorted list has a smallest count of the table. */
  lemma LastIsLeastFrequent(sorted: seq<TypeCount>, types: TypeTable)
    requires TableValid(types)
    requires SortedItemsOf(sorted, types)
    requires |sorted| > 0
    ensures sorted[|sorted| - 1].key in types.counts
    ensures forall k :: k in types.counts ==> types.counts[sorted[|sorted| - 1].key] <= types.counts[k]
  {
    SortedItemsMatchTable(sorted, types);
    var last := |sorted| - 1;
    forall k | k in types.counts ensures types.counts[sorted[last].key] <= types.counts[k] {
      var i :| 0 <= i < |sorted| && sorted[i].key == k;
      assert sorted[i].count >= sorted[last].count;
    }
  }

  lemma TopTypesOfSorted(sorted: seq<TypeCount>, types: TypeTable, top: int)
    requires TableValid(types)
    requires SortedItemsOf(sorted, types)
    requires 0 < top <= |types.order|
    ensures var r := TopOfSorted(sorted, top);
      && |r| == top
      && Distinct(r)
      && (forall k :: k in r ==> k in types.counts)
      && r[0] == sorted[|sorted| - 1].key
      && (forall k :: k in types.counts ==> types.counts[r[0]] <= types.counts[k])
      && r[1..] == KeysOf(sorted[..top - 1])
  {
    SortedItemsMatchTable(sorted, types);
    TopOfSortedShape(sorted, top);
    LastIsLeastFrequent(sorted, types);
  }

  /** With at least `top` types (and top > 0), exactly `top` distinct keys
      of the table come back: a least frequent one first, then the top-1
      most frequent ones in sorted order. */
  lemma TopTypesWhenMany(types: TypeTable, top: int)
    requires TableValid(types)
    requires 0 < top <= |types.order|
    ensures var sorted := SortByCount(Items(types));
      var r := TopOfSorted(sorted, top);
      && |r| == top
      && Distinct(r)
      && (forall k :: k in r ==> k in types.counts)
      && r[0] == sorted[|sorted| - 1].key
      && (forall k :: k in types.counts ==> types.counts[r[0]] <= types.counts[k])
      && r[1..] == KeysOf(sorted[..top - 1])
  {
    SortByCountSortsItems(types);
    TopTypesOfSorted(SortByCount(Items(types)), types, top);
  }

  /** Equal counts keep their insertion order in the sorted list. */
  lemma TiesKeepInsertionOrder(types: TypeTable, v: nat)
    requires TableValid(types)
    ensures WithCount(SortByCount(Items(types)), v) == WithCount(Items(types), v)
  {
    SortStable(Items(types), v);
  }

  // ---------------------------------------------------------------------------
  // The list the source evidently meant to return

  /** The `top` most frequent keys (all of them when there are fewer). */
  function IntendedTopOfSorted(sorted: seq<TypeCount>, top: int): seq<string>
  {
    if |sorted| < top then KeysOf(sorted)
    else if top <= 0 then []
    else KeysOf(sorted[..top])
  }

  lemma IntendedTopOfSortedIsMostFrequent(sorted: seq<TypeCount>, types: TypeTable, top: int)
    requires TableValid(types)
    requires SortedItemsOf(sorted, types)
    ensures var r := IntendedTopOfSorted(sorted, top);
      && Distinct(r)
      && |r| == (if top <= 0 then 0 else if top < |sorted| then top else |sorted|)
      && (forall k :: k in r ==> k in types.counts)
      && (forall i, k :: 0 <= i < |r| && k in types.counts && k !in r ==> types.counts[k] <= types.counts[r[i]])
  {
    SortedItemsMatchTable(sorted, types);
    IntendedTopOfSortedKeys(sorted, top);
    var r := IntendedTopOfSorted(sorted, top);
    forall i, k | 0 <= i < |r| && k in types.counts && k !in r ensures types.counts[k] <= types.counts[r[i]] {
      var q :| 0 <= q < |sorted| && sorted[q].key == k;
      assert q >= |r|;
      assert sorted[i].count >= sorted[q].count;
    }
  }

  /** The intended list is the keys of a prefix of the sorted list. */
  lemma IntendedTopOfSortedKeys(sorted: seq<TypeCount>, top: int)
    ensures var r := IntendedTopOfSorted(sorted, top);
      && |r| == (if top <= 0 then 0 else if top < |sorted| then top else |sorted|)
      && (forall p :: 0 <= p < |r| ==> r[p] == sorted[p].key)
  {
  }

  /** The intended reading: no key left out of the list is more frequent
      than a key on it. */
  lemma IntendedTopIsMostFrequent(types: TypeTable, top: int)
    requires TableValid(types)
    ensures var sorted := SortByCount(Items(types));
      var r := IntendedTopOfSorted(sorted, top);
      && Distinct(r)
      && |r| == (if top <= 0 then 0 else if top < |sorted| then top else |sorted|)
      && (forall k :: k in r ==> k in types.counts)
      && (forall i, k :: 0 <= i < |r| && k in types.counts && k !in r ==> types.counts[k] <= types.counts[r[i]])
  {
    SortByCountSortsItems(types);
    IntendedTopOfSortedIsMostFrequent(SortByCount(Items(types)), types, top);
  }

  /** The list as written misses a more frequent key: with counts
      a: 3, b: 2, c: 1 and top = 2 it returns ["c", "a"], leaving out "b". */
  lemma AsWrittenDropsFrequentType()
    ensures var types := TypeTable(["a", "b", "c"], map["a" := 3, "b" := 2, "c" := 1]);
      && TableValid(types)
      && TopOfSorted(SortByCount(Items(types)), 2) == ["c", "a"]
      && IntendedTopOfSorted(SortByCount(Items(types)), 2) == ["a", "b"]
  {
    var a, b, c := TypeCount("a", 3), TypeCount("b", 2), TypeCount("c", 1);
    ExampleTable();
    ExampleSorted();
    var sorted := [a, b, c];
    assert sorted[..1] == [a];
    assert sorted[..2] == [a, b];
  }

  /** The example table is well formed and lists a, b, c in that order. */
  lemma ExampleTable()
    ensures var types := TypeTable(["a", "b", "c"], map["a" := 3, "b" := 2, "c" := 1]);
      && TableValid(types)
      && Items(types) == [TypeCount("a", 3), TypeCount("b", 2), TypeCount("c", 1)]
  {
    var types := TypeTable(["a", "b", "c"], map["a" := 3, "b" := 2, "c" := 1]);
    assert forall k :: k in types.counts <==> k in types.order;
    var items := Items(types);
    assert |items| == 3;
    assert items[0] == TypeCount("a", 3);
    assert items[1] == TypeCount("b", 2);
    assert items[2] == TypeCount("c", 1);
  }

  /** The example's items are already in sorted order. */
  lemma ExampleSorted()
    ensures SortByCount([TypeCount("a", 3), TypeCount("b", 2), TypeCount("c", 1)])
      == [TypeCount("a", 3), TypeCount("b", 2), TypeCount("c", 1)]
  {
    var a, b, c := TypeCount("a", 3), TypeCount("b", 2), TypeCount("c", 1);
    var items := [a, b, c];
    assert items[..2] == [a, b];
    assert items[..2][..1] == [a];
    assert [a][..0] == [];
    assert SortByCount([a]) == Insert(a, []) == [a];
    assert Insert(b, [a]) == [a] + Insert(b, []) == [a, b];
    assert SortByCount([a, b]) == [a, b];
    assert Insert(c, [b]) == [b] + Insert(c, []) == [b, c];
    assert Insert(c, [a, b]) == [a] + Insert(c, [b]) == [a, b, c];
  }
}
