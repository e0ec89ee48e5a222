/**
 * Python's `list.sort(key=...)`: every key is computed first, then the
 * list is sorted stably on those keys. A sort with `reverse=True` keeps
 * equal keys in their original order too, so it is the same stable sort on
 * negated keys.
 */
module StableSort {

  /** An element decorated with its sort key. */
  datatype Keyed<T> = Keyed(key: int, item: T)

  predicate Ascending<T>(s: seq<Keyed<T>>) {
    forall i, j :: 0 <= i < j < |s| ==> s[i].key <= s[j].key
  }

  /** The undecorated elements, in order. */
  function Items<T>(s: seq<Keyed<T>>): seq<T> {
    if s == [] then [] else [s[0].item] + Items(s[1..])
  }

  lemma {:induction false} ItemsAt<T>(s: seq<Keyed<T>>)
    ensures |Items(s)| == |s|
    ensures forall i :: 0 <= i < |s| ==> Items(s)[i] == s[i].item
    decreases |s|
  {
    if s != [] {
      ItemsAt(s[1..]);
    }
  }

  lemma {:induction false} ItemsConcat<T>(a: seq<Keyed<T>>, b: seq<Keyed<T>>)
    ensures Items(a + b) == Items(a) + Items(b)
    decreases |a|
  {
    if a == [] {
      assert a + b == b;
    } else {
      assert (a + b)[0] == a[0];
      assert (a + b)[1..] == a[1..] + b;
      ItemsConcat(a[1..], b);
    }
  }

  /** The elements with key `k`, in their order in `s`. */
  function WithKey<T>(s: seq<Keyed<T>>, k: int): seq<Keyed<T>> {
    if s == [] then []
    else if s[0].key == k then [s[0]] + WithKey(s[1..], k)
    else WithKey(s[1..], k)
  }

  lemma {:induction false} WithKeyConcat<T>(a: seq<Keyed<T>>, b: seq<Keyed<T>>, k: int)
    ensures WithKey(a + b, k) == WithKey(a, k) + WithKey(b, k)
    decreases |a|
  {
    if a == [] {
      assert a + b == b;
    } else {
      assert (a + b)[0] == a[0];
      assert (a + b)[1..] == a[1..] + b;
      WithKeyConcat(a[1..], b, k);
    }
  }

  lemma {:induction false} WithKeyNone<T>(s: seq<Keyed<T>>, k: int)
    requires forall i :: 0 <= i < |s| ==> s[i].key != k
    ensures WithKey(s, k) == []
    decreases |s|
  {
    if s != [] {
      WithKeyNone(s[1..], k);
    }
  }

  /** The first element with key `k` heads the elements with key `k`. */
  lemma {:induction false} WithKeyFirst<T>(s: seq<Keyed<T>>, i: nat, k: int)
    requires i < |s| && s[i].key == k
    requires forall j :: 0 <= j < i ==> s[j].key != k
    ensures WithKey(s, k) != [] && WithKey(s, k)[0] == s[i]
    decreases i
  {
    if i > 0 {
      WithKeyFirst(s[1..], i - 1, k);
    }
  }

  lemma AscendingCons<T>(x: Keyed<T>, s: seq<Keyed<T>>)
    requires Ascending(s)
    requires s != [] ==> x.key <= s[0].key
    ensures Ascending([x] + s)
  {
    var r := [x] + s;
    forall i, j | 0 <= i < j < |r|
      ensures r[i].key <= r[j].key
    {
      if i == 0 {
        assert r[j] == s[j - 1];
        assert s[0].key <= s[j - 1].key;
      } else {
        assert r[i] == s[i - 1] && r[j] == s[j - 1];
      }
    }
  }

  /** Places `x` after every element whose key does not exceed its own. */
  function Insert<T>(x: Keyed<T>, s: seq<Keyed<T>>): (r: seq<Keyed<T>>)
    requires Ascending(s)
    ensures |r| == |s| + 1
    ensures r[0] == x || (s != [] && r[0] == s[0])
    ensures Ascending(r)
    ensures multiset(r) == multiset(s) + multiset{x}
    decreases |s|
  {
    if s == [] then [x]
    else if s[0].key <= x.key then
      var rest := Insert(x, s[1..]);
      assert |s| > 1 ==> s[0].key <= s[1].key;
      AscendingCons(s[0], rest);
      assert s == [s[0]] + s[1..];
      [s[0]] + rest
    else
      AscendingCons(x, s);
      [x] + s
  }

  lemma {:induction false} InsertItems<T>(x: Keyed<T>, s: seq<Keyed<T>>)
    requires Ascending(s)
    ensures multiset(Items(Insert(x, s))) == multiset(Items(s)) + multiset{x.item}
    decreases |s|
  {
    if s == [] {
    } else if s[0].key <= x.key {
      var rest := Insert(x, s[1..]);
      InsertItems(x, s[1..]);
      assert s == [s[0]] + s[1..];
      ItemsConcat([s[0]], s[1..]);
      ItemsConcat([s[0]], rest);
    } else {
      ItemsConcat([x], s);
    }
  }

  /** Insertion sort, taking the elements from the back so that equal keys keep their order. */
  function SortByKey<T>(s: seq<Keyed<T>>): (r: seq<Keyed<T>>)
    ensures |r| == |s|
    ensures Ascending(r)
    ensures multiset(r) == multiset(s)
    decreases |s|
  {
    if s == [] then []
    else
      var n := |s| - 1;
      assert s == s[..n] + [s[n]];
      Insert(s[n], SortByKey(s[..n]))
  }

  lemma ItemsSnoc<T>(s: seq<Keyed<T>>)
    requires s != []
    ensures multiset(Items(s)) == multiset(Items(s[..|s| - 1])) + multiset{s[|s| - 1].item}
  {
    var n := |s| - 1;
    assert s == s[..n] + [s[n]];
    ItemsConcat(s[..n], [s[n]]);
    assert Items([s[n]]) == [s[n].item];
  }

  /** Sorting rearranges the undecorated elements without adding or losing any. */
  lemma {:induction false} SortItems<T>(s: seq<Keyed<T>>)
    ensures multiset(Items(SortByKey(s))) == multiset(Items(s))
    decreases |s|
  {
    if s != [] {
      var n := |s| - 1;
      var init, last := s[..n], s[n];
      var sorted := SortByKey(init);
      assert SortByKey(s) == Insert(last, sorted);
      SortItems(init);
      InsertItems(last, sorted);
      ItemsSnoc(s);
    }
  }

  lemma {:induction false} InsertIsStable<T>(x: Keyed<T>, s: seq<Keyed<T>>, k: int)
    requires Ascending(s)
    ensures WithKey(Insert(x, s), k) == WithKey(s, k) + (if x.key == k then [x] else [])
    decreases |s|
  {
    if s == [] {
    } else if s[0].key <= x.key {
      InsertIsStable(x, s[1..], k);
      var rest := Insert(x, s[1..]);
      assert ([s[0]] + rest)[1..] == rest;
    } else {
      assert ([x] + s)[1..] == s;
      if x.key == k {
        WithKeyNone(s, k);
      }
    }
  }

  /** One insertion step keeps the elements of key `k` in order, given the sorted prefix does. */
  lemma StableStep<T>(init: seq<Keyed<T>>, last: Keyed<T>, sorted: seq<Keyed<T>>, k: int)
    requires Ascending(sorted)
    requires WithKey(sorted, k) == WithKey(init, k)
    ensures WithKey(Insert(last, sorted), k) == WithKey(init + [last], k)
  {
    InsertIsStable(last, sorted, k);
    WithKeyConcat(init, [last], k);
    assert [last][1..] == [];
  }

  /** Stability: for every key, the elements with that key keep their relative order. */
  lemma {:induction false} SortIsStable<T>(s: seq<Keyed<T>>, k: int)
    ensures WithKey(SortByKey(s), k) == WithKey(s, k)
    decreases |s|
  {
    if s != [] {
      var n := |s| - 1;
      var init, last := s[..n], s[n];
      var sorted := SortByKey(init);
      assert SortByKey(s) == Insert(last, sorted);
      assert s == init + [last];
      SortIsStable(init, k);
      StableStep(init, last, sorted, k);
    }
  }

  /** The position of the first element holding the least key. */
  function FirstMin<T>(s: seq<Keyed<T>>): (i: nat)
    requires |s| > 0
    ensures i < |s|
    ensures forall j :: 0 <= j < |s| ==> s[i].key <= s[j].key
    ensures forall j :: 0 <= j < i ==> s[j].key > s[i].key
    decreases |s|
  {
    if |s| == 1 then 0
    else
      var t := FirstMin(s[..|s| - 1]);
      if s[t].key <= s[|s| - 1].key then t else |s| - 1
  }

  /** The head of the sorted list is the first element, in the original order, with the least key. */
  lemma SortHeadIsFirstMin<T>(s: seq<Keyed<T>>)
    requires |s| > 0
    ensures SortByKey(s)[0] == s[FirstMin(s)]
  {
    var r := SortByKey(s);
    var i := FirstMin(s);
    var k := s[i].key;
    assert r[0] in multiset(s);
    var h :| 0 <= h < |s| && s[h] == r[0];
    assert k <= r[0].key;
    assert s[i] in multiset(r);
    var j :| 0 <= j < |r| && r[j] == s[i];
    assert r[0].key <= k;
    SortIsStable(s, k);
    WithKeyFirst(s, i, k);
    WithKeyFirst(r, 0, k);
  }
}
