/** A stable sort in descending key order, written as an insertion sort.

    Python's `sorted(xs, key=k, reverse=True)` orders by non-increasing key
    and, being stable even when reversed, keeps elements with equal keys in
    their input order. `SortDesc` is that sort. */
module StableSort {

  /** An item together with the integer key it is ranked by. */
  datatype Keyed<T> = Keyed(item: T, key: int)

  /** The items of `s`, in order. */
  function Items<T>(s: seq<Keyed<T>>): (r: seq<T>)
    ensures |r| == |s|
    ensures forall i :: 0 <= i < |s| ==> r[i] == s[i].item
  {
    seq(|s|, i requires 0 <= i < |s| => s[i].item)
  }

  /** Keys never increase from left to right. */
  predicate Descending<T>(s: seq<Keyed<T>>) {
    forall i, j :: 0 <= i < j < |s| ==> s[i].key >= s[j].key
  }

  /** The elements of `s` whose key is `k`, in their order in `s`. */
  function WithKey<T>(s: seq<Keyed<T>>, k: int): seq<Keyed<T>> {
    if s == [] then []
    else (if s[0].key == k then [s[0]] else []) + WithKey(s[1..], k)
  }

  /** Puts `e` just before the first element whose key is not greater than its
      own, so `e` goes ahead of every element with an equal key. */
  function Insert<T>(e: Keyed<T>, xs: seq<Keyed<T>>): (r: seq<Keyed<T>>)
    ensures |r| == |xs| + 1
    ensures multiset(r) == multiset(xs) + multiset{e}
  {
    if xs == [] || xs[0].key <= e.key then [e] + xs
    else
      assert xs == [xs[0]] + xs[1..];
      [xs[0]] + Insert(e, xs[1..])
  }

  /** Prepending an element whose key bounds every key of a descending
      sequence keeps it descending. */
  lemma ConsDescending<T>(h: Keyed<T>, xs: seq<Keyed<T>>)
    requires Descending(xs)
    requires forall j :: 0 <= j < |xs| ==> h.key >= xs[j].key
    ensures Descending([h] + xs)
  {
    var r := [h] + xs;
    forall i, j | 0 <= i < j < |r| ensures r[i].key >= r[j].key {
      assert r[j] == xs[j - 1];
      if i > 0 {
        assert r[i] == xs[i - 1];
      }
    }
  }

  /** Every key of an insertion result is the inserted key or a key of the
      original sequence. */
  lemma InsertBounded<T>(e: Keyed<T>, xs: seq<Keyed<T>>, bound: int)
    requires e.key <= bound
    requires forall x :: x in xs ==> x.key <= bound
    ensures forall j :: 0 <= j < |Insert(e, xs)| ==> Insert(e, xs)[j].key <= bound
  {
    var r := Insert(e, xs);
    forall j | 0 <= j < |r| ensures r[j].key <= bound {
      assert r[j] in multiset(xs) + multiset{e};
    }
  }

  /** Inserting into a descending sequence keeps it descending. */
  lemma {:induction false} InsertDescending<T>(e: Keyed<T>, xs: seq<Keyed<T>>)
    requires Descending(xs)
    ensures Descending(Insert(e, xs))
  {
    if xs == [] || xs[0].key <= e.key {
      ConsDescending(e, xs);
    } else {
      var tail := xs[1..];
      assert Descending(tail);
      InsertDescending(e, tail);
      assert forall x :: x in tail ==> x.key <= xs[0].key;
      InsertBounded(e, tail, xs[0].key);
      ConsDescending(xs[0], Insert(e, tail));
    }
  }

  /** Insertion sort by non-increasing key. The result is a permutation of
      the input and is ordered. */
  function SortDesc<T>(s: seq<Keyed<T>>): (r: seq<Keyed<T>>)
    ensures |r| == |s|
    ensures multiset(r) == multiset(s)
    ensures Descending(r)
  {
    if s == [] then []
    else
      assert s == [s[0]] + s[1..];
      InsertDescending(s[0], SortDesc(s[1..]));
      Insert(s[0], SortDesc(s[1..]))
  }

  /** The elements with key `k` of a sequence with a given head. */
  lemma WithKeyCons<T>(h: Keyed<T>, xs: seq<Keyed<T>>, k: int)
    ensures WithKey([h] + xs, k) == (if h.key == k then [h] else []) + WithKey(xs, k)
  {
    assert ([h] + xs)[1..] == xs;
  }

  /** Inserting `e` adds it in front of the elements that share its key and
      leaves the order of every key class unchanged. */
  lemma {:induction false} InsertStable<T>(e: Keyed<T>, xs: seq<Keyed<T>>, k: int)
    ensures WithKey(Insert(e, xs), k)
         == (if e.key == k then [e] else []) + WithKey(xs, k)
  {
    if xs == [] || xs[0].key <= e.key {
      WithKeyCons(e, xs, k);
    } else {
      var h := xs[0];
      var rest := Insert(e, xs[1..]);
      assert Insert(e, xs) == [h] + rest;
      assert xs == [h] + xs[1..];
      WithKeyCons(h, rest, k);
      WithKeyCons(h, xs[1..], k);
      InsertStable(e, xs[1..], k);
      if e.key == k {
        assert h.key != k;
      }
    }
  }

  /** Stability: for every key, the elements with that key appear in the
      sorted output in the same order as in the input. */
  lemma {:induction false} SortStable<T>(s: seq<Keyed<T>>, k: int)
    ensures WithKey(SortDesc(s), k) == WithKey(s, k)
  {
    if s != [] {
      SortStable(s[1..], k);
      InsertStable(s[0], SortDesc(s[1..]), k);
    }
  }
}
