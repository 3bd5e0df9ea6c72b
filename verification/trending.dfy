/** The "Top Trending Tracks" list: `value_counts().head(5)` over the track
    name column, that is, up to five distinct names ranked by how many rows
    carry them. */
module Trending {
  import opened Seqs
  import opened StableSort

  /** Names shown in the trending list. */
  const TrendingCount := 5

  /** How many rows carry `name`. */
  function Count(names: seq<string>, name: string): nat {
    multiset(names)[name]
  }

  /** `d` follows the order of first occurrence in `names`: every occurrence
      of a later element of `d` is preceded by an occurrence of each earlier
      one. */
  predicate InFirstOccurrenceOrder(names: seq<string>, d: seq<string>) {
    forall i, j, q :: 0 <= i < j < |d| && 0 <= q < |names| && names[q] == d[j] ==> d[i] in names[..q]
  }

  /** The distinct names, in order of first occurrence. */
  function Distinct(names: seq<string>): (d: seq<string>)
    ensures NoDuplicates(d)
    ensures forall x :: x in d <==> x in names
    ensures InFirstOccurrenceOrder(names, d)
  {
    if names == [] then []
    else
      var init := names[..|names| - 1];
      var x := names[|names| - 1];
      var d := Distinct(init);
      assert names == init + [x];
      var r := if x in d then d else d + [x];
      DistinctOrderStep(init, x, d, r);
      r
  }

  /** Appending a name keeps the first-occurrence order: the name joins the
      end of the list if it is new and changes nothing otherwise. */
  lemma DistinctOrderStep(init: seq<string>, x: string, d: seq<string>, r: seq<string>)
    requires forall y :: y in d <==> y in init
    requires InFirstOccurrenceOrder(init, d)
    requires r == if x in d then d else d + [x]
    ensures InFirstOccurrenceOrder(init + [x], r)
  {
    var names := init + [x];
    forall i, j, q | 0 <= i < j < |r| && 0 <= q < |names| && names[q] == r[j]
      ensures r[i] in names[..q]
    {
      if q < |init| {
        assert names[q] == init[q] && init[q] in init;
        assert r[i] == d[i] && r[j] == d[j];
        assert names[..q] == init[..q];
      } else {
        assert names[..q] == init;
        assert r[i] == d[i];
      }
    }
  }

  /** Each distinct name paired with its count, in order of first
      occurrence: the input `value_counts` sorts. */
  function Tally(names: seq<string>): (t: seq<Keyed<string>>)
    ensures |t| == |Elements(names)|
    ensures NoDuplicates(Items(t))
    ensures forall i :: 0 <= i < |t| ==> t[i].item in names && t[i].key == Count(names, t[i].item)
    ensures forall x :: x in names ==> Keyed(x, Count(names, x)) in t
    ensures InFirstOccurrenceOrder(names, Items(t))
  {
    var d := Distinct(names);
    var t := seq(|d|, i requires 0 <= i < |d| => Keyed(d[i], Count(names, d[i])));
    assert Items(t) == d;
    assert Elements(d) == Elements(names);
    DistinctCardinality(d);
    assert forall x :: x in names ==> Keyed(x, Count(names, x)) in t by {
      forall x | x in names ensures Keyed(x, Count(names, x)) in t {
        var j :| 0 <= j < |d| && d[j] == x;
        assert t[j] == Keyed(x, Count(names, x));
      }
    }
    t
  }

  /** The position of the first row carrying `x`. */
  function FirstIndex(names: seq<string>, x: string): (p: nat)
    requires x in names
    ensures p < |names| && names[p] == x
    ensures forall q :: 0 <= q < |names| && names[q] == x ==> p <= q
  {
    if names[0] == x then 0 else 1 + FirstIndex(names[1..], x)
  }

  /** Every element of `d` is a name, and first positions increase along `d`. */
  predicate ByFirstIndex(names: seq<string>, d: seq<string>) {
    && (forall i :: 0 <= i < |d| ==> d[i] in names)
    && (forall i, j :: 0 <= i < j < |d| ==> FirstIndex(names, d[i]) < FirstIndex(names, d[j]))
  }

  /** The first-occurrence order is the order of first positions. */
  lemma FirstOccurrenceByIndex(names: seq<string>, d: seq<string>)
    requires forall i :: 0 <= i < |d| ==> d[i] in names
    requires InFirstOccurrenceOrder(names, d)
    ensures ByFirstIndex(names, d)
  {
    forall i, j | 0 <= i < j < |d| ensures FirstIndex(names, d[i]) < FirstIndex(names, d[j]) {
      var q := FirstIndex(names, d[j]);
      assert d[i] in names[..q];
      var p :| 0 <= p < q && names[..q][p] == d[i];
      assert names[p] == d[i];
    }
  }

  /** Dropping the head keeps a sequence ordered by first position. */
  lemma ByFirstIndexTail(names: seq<string>, d: seq<string>)
    requires d != [] && ByFirstIndex(names, d)
    ensures ByFirstIndex(names, d[1..])
    ensures forall x :: x in d[1..] ==> x in d && x != d[0]
  {
    var t := d[1..];
    forall i, j | 0 <= i < j < |t| ensures FirstIndex(names, t[i]) < FirstIndex(names, t[j]) {
      assert t[i] == d[i + 1] && t[j] == d[j + 1];
    }
    forall x | x in t ensures x in d && x != d[0] {
      var a :| 0 <= a < |t| && t[a] == x;
      assert FirstIndex(names, d[0]) < FirstIndex(names, d[a + 1]);
    }
  }

  /** Two nonempty sequences with the same elements, both ordered by first
      position, start with the same name. */
  lemma ByFirstIndexHead(names: seq<string>, d: seq<string>, e: seq<string>)
    requires d != [] && e != []
    requires ByFirstIndex(names, d) && ByFirstIndex(names, e)
    requires forall x :: x in d <==> x in e
    ensures d[0] == e[0]
  {
    assert d[0] in e && e[0] in d;
    var k :| 0 <= k < |d| && d[k] == e[0];
    var m :| 0 <= m < |e| && e[m] == d[0];
    assert forall j :: 0 <= j < |d| ==> FirstIndex(names, d[0]) <= FirstIndex(names, d[j]);
    assert forall j :: 0 <= j < |e| ==> FirstIndex(names, e[0]) <= FirstIndex(names, e[j]);
    assert FirstIndex(names, d[0]) <= FirstIndex(names, e[0]) <= FirstIndex(names, d[0]);
    assert names[FirstIndex(names, d[0])] == d[0];
  }

  /** Two sequences with the same elements, both ordered by first position,
      are equal. */
  lemma {:induction false} ByFirstIndexUnique(names: seq<string>, d: seq<string>, e: seq<string>)
    requires ByFirstIndex(names, d) && ByFirstIndex(names, e)
    requires forall x :: x in d <==> x in e
    ensures d == e
    decreases |d|
  {
    assert d == [] <==> e == [] by {
      if d != [] {
        assert d[0] in e;
      }
      if e != [] {
        assert e[0] in d;
      }
    }
    if d != [] {
      ByFirstIndexHead(names, d, e);
      ByFirstIndexTail(names, d);
      ByFirstIndexTail(names, e);
      var d', e' := d[1..], e[1..];
      forall x ensures x in d' <==> x in e' {
        if x in d' {
          assert x in e && x != e[0];
          var b :| 0 <= b < |e| && e[b] == x;
          assert e'[b - 1] == x;
        }
        if x in e' {
          assert x in d && x != d[0];
          var a :| 0 <= a < |d| && d[a] == x;
          assert d'[a - 1] == x;
        }
      }
      ByFirstIndexUnique(names, d', e');
      assert d == [d[0]] + d' && e == [e[0]] + e';
    }
  }

  /** `Distinct` is the only duplicate-free list of the names in order of
      first occurrence. */
  lemma DistinctUnique(names: seq<string>, e: seq<string>)
    requires forall x :: x in e <==> x in names
    requires InFirstOccurrenceOrder(names, e)
    ensures e == Distinct(names)
  {
    var d := Distinct(names);
    FirstOccurrenceByIndex(names, d);
    FirstOccurrenceByIndex(names, e);
    ByFirstIndexUnique(names, d, e);
  }

  /** `Tally` is the only list pairing each name once with its count in order
      of first occurrence. */
  lemma TallyUnique(names: seq<string>, t: seq<Keyed<string>>)
    requires forall i :: 0 <= i < |t| ==> t[i].item in names && t[i].key == Count(names, t[i].item)
    requires forall x :: x in names ==> x in Items(t)
    requires InFirstOccurrenceOrder(names, Items(t))
    ensures t == Tally(names)
  {
    var u := Tally(names);
    assert forall x :: x in Items(t) <==> x in names;
    assert forall x :: x in Items(u) <==> x in names by {
      forall x | x in names ensures x in Items(u) {
        var j :| 0 <= j < |u| && u[j] == Keyed(x, Count(names, x));
        assert Items(u)[j] == x;
      }
    }
    DistinctUnique(names, Items(t));
    DistinctUnique(names, Items(u));
    assert forall i :: 0 <= i < |t| ==> t[i] == u[i] by {
      forall i | 0 <= i < |t| ensures t[i] == u[i] {
        assert Items(t)[i] == Items(u)[i];
      }
    }
  }

  /** `value_counts()`: every distinct name once, paired with its count, in
      non-increasing order of count. */
  function RankedTally(names: seq<string>): (s: seq<Keyed<string>>)
    ensures |s| == |Elements(names)|
    ensures NoDuplicates(s)
    ensures Descending(s)
    ensures forall i :: 0 <= i < |s| ==> s[i].item in names && s[i].key == Count(names, s[i].item)
  {
    var t := Tally(names);
    var s := SortDesc(t);
    assert forall i :: 0 <= i < |s| ==> s[i].item in names && s[i].key == Count(names, s[i].item) by {
      forall i | 0 <= i < |s| ensures s[i].item in names && s[i].key == Count(names, s[i].item) {
        assert s[i] in multiset(t);
      }
    }
    assert NoDuplicates(s) by {
      assert NoDuplicates(t) by {
        forall i, j | 0 <= i < j < |t| ensures t[i] != t[j] {
          assert Items(t)[i] != Items(t)[j];
        }
      }
      PermutationNoDuplicates(t, s);
    }
    s
  }

  /** Every name of the column has its entry in the tally. */
  lemma RankedTallyComplete(names: seq<string>, y: string)
    requires y in names
    ensures Keyed(y, Count(names, y)) in RankedTally(names)
  {
    var t := Tally(names);
    assert Keyed(y, Count(names, y)) in multiset(t);
  }

  /** `value_counts().head(5).index.tolist()`. The names are distinct names
      of the column, as many as there are distinct names up to five, in
      non-increasing order of count, and no name left out occurs more often
      than a name listed. */
  function TopTracks(names: seq<string>): (top: seq<string>)
    ensures |top| == Min(TrendingCount, |Elements(names)|)
    ensures NoDuplicates(top)
    ensures forall k :: 0 <= k < |top| ==> top[k] in names
    ensures forall k, l :: 0 <= k < l < |top| ==> Count(names, top[k]) >= Count(names, top[l])
    ensures forall x, y :: x in top && y in names && y !in top ==> Count(names, x) >= Count(names, y)
  {
    var s := RankedTally(names);
    var n := Min(TrendingCount, |s|);
    var top := seq(n, k requires 0 <= k < n => s[k].item);
    TopOfTally(names, top);
    top
  }

  /** The names of a prefix of the tally are distinct, and each counts at
      least as often as any name left out. */
  lemma TopOfTally(names: seq<string>, top: seq<string>)
    requires |top| <= |RankedTally(names)|
    requires forall k :: 0 <= k < |top| ==> top[k] == RankedTally(names)[k].item
    ensures NoDuplicates(top)
    ensures forall x, y :: x in top && y in names && y !in top ==> Count(names, x) >= Count(names, y)
  {
    var s := RankedTally(names);
    var n := |top|;
    assert NoDuplicates(top) by {
      forall k, l | 0 <= k < l < n ensures top[k] != top[l] {
        assert s[k] != s[l];
      }
    }
    forall x, y | x in top && y in names && y !in top
      ensures Count(names, x) >= Count(names, y)
    {
      RankedTallyComplete(names, y);
      assert forall m :: 0 <= m < n ==> s[m].item == top[m] != y;
      TopDominates(names, n, y);
    }
  }

  /** A name outside the first `n` tally entries counts no more than any of
      them. */
  lemma TopDominates(names: seq<string>, n: nat, y: string)
    requires n <= |RankedTally(names)|
    requires Keyed(y, Count(names, y)) in RankedTally(names)
    requires forall m :: 0 <= m < n ==> RankedTally(names)[m].item != y
    ensures forall m :: 0 <= m < n ==> Count(names, RankedTally(names)[m].item) >= Count(names, y)
  {
    var s := RankedTally(names);
    var p :| 0 <= p < |s| && s[p] == Keyed(y, Count(names, y));
    assert s[p].item == y;
  }

  /** With at most five distinct names, every name is trending. */
  lemma FewNamesAllTrending(names: seq<string>)
    requires |Elements(names)| <= TrendingCount
    ensures forall y :: y in names ==> y in TopTracks(names)
  {
    var top := TopTracks(names);
    assert Elements(top) <= Elements(names);
    DistinctCardinality(top);
    assert Elements(names) - Elements(top) == {} by {
      assert |Elements(names) - Elements(top)| == |Elements(names)| - |Elements(top)|;
    }
    assert forall y :: y in names ==> y in Elements(names);
  }
}
