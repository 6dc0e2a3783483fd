/** A stable sort, greatest key first, and what it does to the front of a list. */
module StableSort {

  datatype Keyed<T> = Keyed(key: int, value: T)

  function Insert<T>(x: Keyed<T>, sorted: seq<Keyed<T>>): seq<Keyed<T>> {
    if sorted == [] then [x]
    else if sorted[0].key < x.key then [x] + sorted
    else [sorted[0]] + Insert(x, sorted[1..])
  }

  /** Ties keep the order of the list. */
  function Sort<T>(items: seq<Keyed<T>>): seq<Keyed<T>> {
    if items == [] then [] else Insert(items[|items| - 1], Sort(items[..|items| - 1]))
  }

  predicate Descending<T>(items: seq<Keyed<T>>) {
    forall i, j :: 0 <= i < j < |items| ==> items[i].key >= items[j].key
  }

  lemma {:induction false} InsertPermutes<T>(x: Keyed<T>, sorted: seq<Keyed<T>>)
    ensures multiset(Insert(x, sorted)) == multiset(sorted) + multiset{x}
  {
    if sorted != [] && sorted[0].key >= x.key {
      InsertPermutes(x, sorted[1..]);
      assert sorted == [sorted[0]] + sorted[1..];
    }
  }

  lemma {:induction false} InsertKeepsOrder<T>(x: Keyed<T>, sorted: seq<Keyed<T>>)
    requires Descending(sorted)
    ensures Descending(Insert(x, sorted))
  {
    if sorted != [] && sorted[0].key >= x.key {
      InsertKeepsOrder(x, sorted[1..]);
      InsertIsBounded(x, sorted[1..], sorted[0].key);
    }
  }

  lemma {:induction false} InsertIsBounded<T>(x: Keyed<T>, sorted: seq<Keyed<T>>, bound: int)
    requires x.key <= bound && forall i :: 0 <= i < |sorted| ==> sorted[i].key <= bound
    ensures forall i :: 0 <= i < |Insert(x, sorted)| ==> Insert(x, sorted)[i].key <= bound
  {
    if sorted != [] && sorted[0].key >= x.key {
      InsertIsBounded(x, sorted[1..], bound);
    }
  }

  /** The result is in order and a permutation. */
  lemma {:induction false} SortSorts<T>(items: seq<Keyed<T>>)
    ensures Descending(Sort(items)) && multiset(Sort(items)) == multiset(items)
    ensures |Sort(items)| == |items|
  {
    if items != [] {
      var front, last := items[..|items| - 1], items[|items| - 1];
      assert items == front + [last];
      SortSorts(front);
      InsertPermutes(last, Sort(front));
      InsertKeepsOrder(last, Sort(front));
      assert |multiset(Sort(items))| == |multiset(items)|;
    }
  }

  lemma SortAppend<T>(items: seq<Keyed<T>>, last: Keyed<T>)
    ensures Sort(items + [last]) == Insert(last, Sort(items))
  {
    assert (items + [last])[..|items|] == items;
  }

  // ------------------------------------------------ the order of the list is moot

  function Keys<T>(items: seq<Keyed<T>>): (k: seq<int>)
    ensures |k| == |items|
  {
    seq(|items|, i requires 0 <= i < |items| => items[i].key)
  }

  function InsertKey(k: int, keys: seq<int>): seq<int> {
    if keys == [] then [k]
    else if keys[0] < k then [k] + keys
    else [keys[0]] + InsertKey(k, keys[1..])
  }

  lemma {:induction false} KeysOfInsert<T>(x: Keyed<T>, sorted: seq<Keyed<T>>)
    ensures Keys(Insert(x, sorted)) == InsertKey(x.key, Keys(sorted))
  {
    if sorted != [] {
      KeysOfInsert(x, sorted[1..]);
      assert Keys(sorted)[1..] == Keys(sorted[1..]);
    }
  }

  lemma {:induction false} InsertKeysCommute(a: int, b: int, keys: seq<int>)
    ensures InsertKey(a, InsertKey(b, keys)) == InsertKey(b, InsertKey(a, keys))
  {
    if keys != [] {
      var k, t := keys[0], keys[1..];
      InsertKeysCommute(a, b, t);
      assert keys == [k] + t;
      assert ([b] + keys)[1..] == keys && ([a] + keys)[1..] == keys;
      assert ([k] + InsertKey(b, t))[1..] == InsertKey(b, t) && ([k] + InsertKey(a, t))[1..] == InsertKey(a, t);
    } else {
      assert [a][1..] == [] && [b][1..] == [];
    }
  }

  lemma KeysOfSortAppend<T>(items: seq<Keyed<T>>, last: Keyed<T>)
    ensures Keys(Sort(items + [last])) == InsertKey(last.key, Keys(Sort(items)))
  {
    SortAppend(items, last);
    KeysOfInsert(last, Sort(items));
  }

  lemma {:induction false} MoveToEnd<T>(before: seq<Keyed<T>>, x: Keyed<T>, after: seq<Keyed<T>>)
    ensures Keys(Sort(before + [x] + after)) == InsertKey(x.key, Keys(Sort(before + after)))
  {
    if after == [] {
      assert before + [x] + after == before + [x] && before + after == before;
      KeysOfSortAppend(before, x);
    } else {
      var front, last := after[..|after| - 1], after[|after| - 1];
      MoveToEnd(before, x, front);
      assert before + [x] + after == (before + [x] + front) + [last];
      assert before + after == (before + front) + [last];
      KeysOfSortAppend(before + [x] + front, last);
      KeysOfSortAppend(before + front, last);
      InsertKeysCommute(x.key, last.key, Keys(Sort(before + front)));
    }
  }

  /** Two listings of the same items have the same sorted keys. */
  lemma {:induction false} SortedKeysIgnoreOrder<T>(a: seq<Keyed<T>>, b: seq<Keyed<T>>)
    requires multiset(a) == multiset(b)
    ensures Keys(Sort(a)) == Keys(Sort(b))
    decreases |a|
  {
    if a == [] {
      assert |multiset(b)| == 0;
    } else {
      var front, last := a[..|a| - 1], a[|a| - 1];
      assert a == front + [last];
      assert last in multiset(b);
      var i :| 0 <= i < |b| && b[i] == last;
      var before, after := b[..i], b[i + 1..];
      assert b == before + [last] + after;
      Cancel(front, last, before, after);
      SortedKeysIgnoreOrder(front, before + after);
      KeysOfSortAppend(front, last);
      MoveToEnd(before, last, after);
    }
  }

  lemma Cancel<T>(front: seq<T>, last: T, before: seq<T>, after: seq<T>)
    requires multiset(front + [last]) == multiset(before + [last] + after)
    ensures multiset(front) == multiset(before + after)
  {
    assert multiset(front) + multiset{last} == multiset(before + after) + multiset{last};
    forall x ensures multiset(front)[x] == multiset(before + after)[x] {
      assert (multiset(front) + multiset{last})[x] == (multiset(before + after) + multiset{last})[x];
    }
  }

  // --------------------------------------------------------------- the front

  /** How many keys are at least `key`. */
  function AtLeast<T>(items: seq<Keyed<T>>, key: int): nat {
    if items == [] then 0 else AtLeast(items[1..], key) + if items[0].key >= key then 1 else 0
  }

  lemma {:induction false} AtLeastAppend<T>(a: seq<Keyed<T>>, b: seq<Keyed<T>>, key: int)
    ensures AtLeast(a + b, key) == AtLeast(a, key) + AtLeast(b, key)
  {
    if a == [] {
      assert a + b == b;
    } else {
      assert (a + b)[1..] == a[1..] + b;
      AtLeastAppend(a[1..], b, key);
    }
  }

  lemma {:induction false} AtLeastOfInsert<T>(x: Keyed<T>, sorted: seq<Keyed<T>>, key: int)
    ensures AtLeast(Insert(x, sorted), key) == AtLeast(sorted, key) + if x.key >= key then 1 else 0
  {
    if sorted == [] {
      assert [x][1..] == [];
    } else if sorted[0].key < x.key {
      assert ([x] + sorted)[1..] == sorted;
    } else {
      AtLeastOfInsert(x, sorted[1..], key);
      assert ([sorted[0]] + Insert(x, sorted[1..]))[1..] == Insert(x, sorted[1..]);
    }
  }

  lemma {:induction false} AtLeastOfSort<T>(items: seq<Keyed<T>>, key: int)
    ensures AtLeast(Sort(items), key) == AtLeast(items, key)
  {
    if items != [] {
      var front, last := items[..|items| - 1], items[|items| - 1];
      assert items == front + [last];
      AtLeastOfSort(front, key);
      AtLeastOfInsert(last, Sort(front), key);
      AtLeastAppend(front, [last], key);
      assert [last][1..] == [];
    }
  }

  lemma {:induction false} NoneAtLeast<T>(items: seq<Keyed<T>>, key: int)
    requires forall i :: 0 <= i < |items| ==> items[i].key < key
    ensures AtLeast(items, key) == 0
  {
    if items != [] {
      NoneAtLeast(items[1..], key);
    }
  }

  lemma {:induction false} AtLeastOfDescending<T>(sorted: seq<Keyed<T>>, key: int, n: nat)
    requires Descending(sorted) && n <= |sorted|
    ensures AtLeast(sorted, key) >= n <==> forall i :: 0 <= i < n ==> sorted[i].key >= key
  {
    if n > 0 {
      if sorted[0].key < key {
        NoneAtLeast(sorted, key);
      } else {
        AtLeastOfDescending(sorted[1..], key, n - 1);
        assert forall i :: 1 <= i < n ==> sorted[i] == sorted[1..][i - 1];
        assert forall i :: 0 <= i < n - 1 ==> sorted[1..][i] == sorted[i + 1];
      }
    }
  }

  /** The first `n` of a sorted list all have keys at least `key` exactly when the
      list has `n` such keys. */
  lemma FrontIsAtLeastIff<T>(items: seq<Keyed<T>>, key: int, n: nat)
    requires n <= |items|
    ensures |Sort(items)| == |items|
    ensures (forall i :: 0 <= i < n ==> Sort(items)[i].key >= key) <==> AtLeast(items, key) >= n
  {
    SortSorts(items);
    AtLeastOfSort(items, key);
    AtLeastOfDescending(Sort(items), key, n);
  }

  lemma {:induction false} InsertBehind<T>(x: Keyed<T>, sorted: seq<Keyed<T>>, n: nat)
    requires n <= |sorted| && forall i :: 0 <= i < n ==> sorted[i].key >= x.key
    ensures |Insert(x, sorted)| == |sorted| + 1 && Insert(x, sorted)[..n] == sorted[..n]
  {
    if sorted != [] && sorted[0].key >= x.key {
      var m := if n > 0 then n - 1 else 0;
      assert forall i :: 0 <= i < m ==> sorted[1..][i] == sorted[i + 1];
      InsertBehind(x, sorted[1..], m);
      assert Insert(x, sorted)[1..] == Insert(x, sorted[1..]);
      if n > 0 {
        assert Insert(x, sorted)[..n] == [sorted[0]] + Insert(x, sorted[1..])[..m];
        assert sorted[..n] == [sorted[0]] + sorted[1..][..m];
      }
    }
  }

  /** Items that `n` of the others match or beat can be added without changing the
      first `n` of the sorted list. */
  lemma {:induction false} AddingLesserItems<T>(items: seq<Keyed<T>>, more: seq<Keyed<T>>, n: nat)
    requires n <= |items| && forall i :: 0 <= i < |more| ==> AtLeast(items, more[i].key) >= n
    ensures |Sort(items)| == |items| && |Sort(items + more)| == |items| + |more|
    ensures Sort(items + more)[..n] == Sort(items)[..n]
  {
    SortSorts(items);
    if more == [] {
      assert items + more == items;
    } else {
      var front, last := more[..|more| - 1], more[|more| - 1];
      assert items + more == (items + front) + [last];
      AddingLesserItems(items, front, n);
      SortAppend(items + front, last);
      FrontIsAtLeastIff(items, last.key, n);
      var sorted := Sort(items + front);
      forall i | 0 <= i < n ensures sorted[i].key >= last.key {
        assert sorted[i] == sorted[..n][i] == Sort(items)[i];
      }
      InsertBehind(last, sorted, n);
    }
  }

  // ---------------------------------------------------------------- stability

  function WithKey<T>(items: seq<Keyed<T>>, key: int): seq<Keyed<T>> {
    if items == [] then [] else (if items[0].key == key then [items[0]] else []) + WithKey(items[1..], key)
  }

  lemma {:induction false} WithKeyAppend<T>(a: seq<Keyed<T>>, b: seq<Keyed<T>>, key: int)
    ensures WithKey(a + b, key) == WithKey(a, key) + WithKey(b, key)
  {
    if a == [] {
      assert a + b == b;
    } else {
      assert (a + b)[0] == a[0] && (a + b)[1..] == a[1..] + b;
      WithKeyAppend(a[1..], b, key);
      var head := if a[0].key == key then [a[0]] else [];
      assert WithKey(a, key) == head + WithKey(a[1..], key);
      assert WithKey(a + b, key) == head + WithKey(a[1..] + b, key);
    }
  }

  lemma {:induction false} NoneWithKey<T>(items: seq<Keyed<T>>, key: int)
    requires forall i :: 0 <= i < |items| ==> items[i].key < key
    ensures WithKey(items, key) == []
  {
    if items != [] {
      NoneWithKey(items[1..], key);
    }
  }

  lemma {:induction false} InsertGoesLast<T>(x: Keyed<T>, sorted: seq<Keyed<T>>, key: int)
    requires Descending(sorted)
    ensures WithKey(Insert(x, sorted), key) == WithKey(sorted, key) + if x.key == key then [x] else []
  {
    if sorted == [] {
      assert [x][1..] == [];
    } else if sorted[0].key < x.key {
      assert ([x] + sorted)[1..] == sorted;
      if x.key == key {
        NoneWithKey(sorted, key);
      }
    } else {
      InsertGoesLast(x, sorted[1..], key);
      assert ([sorted[0]] + Insert(x, sorted[1..]))[1..] == Insert(x, sorted[1..]);
    }
  }

  /** Items with the same key keep the order they came in. */
  lemma {:induction false} SortIsStable<T>(items: seq<Keyed<T>>, key: int)
    ensures WithKey(Sort(items), key) == WithKey(items, key)
  {
    if items != [] {
      var front, last := items[..|items| - 1], items[|items| - 1];
      assert items == front + [last];
      SortIsStable(front, key);
      SortSorts(front);
      InsertGoesLast(last, Sort(front), key);
      WithKeyAppend(front, [last], key);
      assert [last][1..] == [];
    }
  }
}
