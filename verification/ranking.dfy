/** The `recommend` function: the selected song's row of the similarity
    matrix is ranked by descending score and the tracks at ranked positions
    1 to 5 are returned. Position 0 is dropped whatever column it holds. */
module Ranking {
  import opened Wrappers
  import opened Seqs
  import opened Catalog
  import opened StableSort

  /** Songs recommended per request. */
  const RecommendationCount := 5

  /** `enumerate(row)`: every column paired with its score. */
  function Enumerate(row: seq<int>): (r: seq<Keyed<nat>>)
    ensures |r| == |row|
    ensures forall c :: 0 <= c < |row| ==> r[c] == Keyed(c, row[c])
    ensures AscendingItems(r)
  {
    seq(|row|, c requires 0 <= c < |row| => Keyed(c, row[c]))
  }

  /** `a` is ranked ahead of `b`: a higher score, or an equal score and a
      lower column. */
  predicate Precedes(a: Keyed<nat>, b: Keyed<nat>) {
    a.key > b.key || (a.key == b.key && a.item < b.item)
  }

  /** Every element is ranked ahead of every later one. */
  predicate StrictlyRanked(s: seq<Keyed<nat>>) {
    forall i, j :: 0 <= i < j < |s| ==> Precedes(s[i], s[j])
  }

  /** Columns increase strictly from left to right. */
  predicate AscendingItems(s: seq<Keyed<nat>>) {
    forall i, j :: 0 <= i < j < |s| ==> s[i].item < s[j].item
  }

  /** Prepending an element ranked ahead of every element of a strictly
      ranked sequence keeps it strictly ranked. */
  lemma ConsRanked(h: Keyed<nat>, xs: seq<Keyed<nat>>)
    requires StrictlyRanked(xs)
    requires forall j :: 0 <= j < |xs| ==> Precedes(h, xs[j])
    ensures StrictlyRanked([h] + xs)
  {
    var r := [h] + xs;
    forall i, j | 0 <= i < j < |r| ensures Precedes(r[i], r[j]) {
      assert r[j] == xs[j - 1];
      if i > 0 {
        assert r[i] == xs[i - 1];
      }
    }
  }

  /** Inserting an element with a lower column than all others keeps the
      sequence strictly ranked. */
  lemma {:induction false} InsertRanked(e: Keyed<nat>, xs: seq<Keyed<nat>>)
    requires StrictlyRanked(xs)
    requires forall x :: x in xs ==> e.item < x.item
    ensures StrictlyRanked(Insert(e, xs))
  {
    if xs == [] || xs[0].key <= e.key {
      forall j | 0 <= j < |xs| ensures Precedes(e, xs[j]) {
        assert xs[j] in xs;
        if j > 0 {
          assert Precedes(xs[0], xs[j]);
        }
      }
      ConsRanked(e, xs);
    } else {
      var tail := xs[1..];
      assert StrictlyRanked(tail) by {
        forall i, j | 0 <= i < j < |tail| ensures Precedes(tail[i], tail[j]) {
          assert tail[i] == xs[i + 1] && tail[j] == xs[j + 1];
        }
      }
      InsertRanked(e, tail);
      var rest := Insert(e, tail);
      forall j | 0 <= j < |rest| ensures Precedes(xs[0], rest[j]) {
        assert rest[j] in multiset(tail) + multiset{e};
        if rest[j] != e {
          var k :| 0 <= k < |tail| && tail[k] == rest[j];
          assert Precedes(xs[0], xs[k + 1]);
        }
      }
      ConsRanked(xs[0], rest);
    }
  }

  /** Sorting a sequence whose columns ascend breaks score ties by column. */
  lemma {:induction false} SortRanked(s: seq<Keyed<nat>>)
    requires AscendingItems(s)
    ensures StrictlyRanked(SortDesc(s))
  {
    if s != [] {
      var tail := SortDesc(s[1..]);
      SortRanked(s[1..]);
      forall x | x in tail ensures s[0].item < x.item {
        assert x in multiset(s[1..]);
        var k :| 0 <= k < |s[1..]| && s[1..][k] == x;
        assert x == s[k + 1];
      }
      InsertRanked(s[0], tail);
    }
  }

  /** `sorted(enumerate(row), reverse=True, key=score)`. Every column occurs
      exactly once, paired with its own score, and the order is by descending
      score with equal scores in ascending column order. */
  function Rank(row: seq<int>): (r: seq<Keyed<nat>>)
    ensures |r| == |row|
    ensures multiset(r) == multiset(Enumerate(row))
    ensures forall i :: 0 <= i < |r| ==> r[i].item < |row| && r[i].key == row[r[i].item]
    ensures forall c :: 0 <= c < |row| ==> Keyed(c, row[c]) in r
    ensures forall i, j :: 0 <= i < j < |r| ==> r[i].item != r[j].item
    ensures Descending(r)
    ensures StrictlyRanked(r)
  {
    var e := Enumerate(row);
    SortRanked(e);
    PermutedEnumeration(row, SortDesc(e));
    SortDesc(e)
  }

  /** Every element of a rearranged enumeration is a column with its own
      score, and every column is there. */
  lemma PermutedEnumeration(row: seq<int>, r: seq<Keyed<nat>>)
    requires multiset(r) == multiset(Enumerate(row))
    ensures forall i :: 0 <= i < |r| ==> r[i].item < |row| && r[i].key == row[r[i].item]
    ensures forall c :: 0 <= c < |row| ==> Keyed(c, row[c]) in r
  {
    var e := Enumerate(row);
    forall i | 0 <= i < |r| ensures r[i].item < |row| && r[i].key == row[r[i].item] {
      assert r[i] in multiset(e);
    }
    forall c | 0 <= c < |row| ensures Keyed(c, row[c]) in r {
      assert e[c] in multiset(r);
    }
  }

  /** Stability as Python defines it: for every score, the columns with that
      score keep their `enumerate` order. */
  lemma RankStable(row: seq<int>, score: int)
    ensures WithKey(Rank(row), score) == WithKey(Enumerate(row), score)
  {
    SortStable(Enumerate(row), score);
  }

  /** Two strictly ranked arrangements of the same non-empty elements start
      with the same element. */
  lemma RankedHead(a: seq<Keyed<nat>>, b: seq<Keyed<nat>>)
    requires multiset(a) == multiset(b) && a != []
    requires StrictlyRanked(a) && StrictlyRanked(b)
    ensures b != [] && a[0] == b[0]
  {
    assert a[0] in multiset(b);
    var j :| 0 <= j < |b| && b[j] == a[0];
    assert b[0] in multiset(a);
    var i :| 0 <= i < |a| && a[i] == b[0];
    assert i == 0 || Precedes(a[0], b[0]);
    assert j == 0 || Precedes(b[0], a[0]);
  }

  /** Dropping the head of a sequence removes it from the multiset. */
  lemma MultisetTail<T>(s: seq<T>)
    requires s != []
    ensures multiset(s[1..]) == multiset(s) - multiset{s[0]}
  {
    assert s == [s[0]] + s[1..];
  }

  /** Two strictly ranked arrangements of the same elements are equal. */
  lemma {:induction false} StrictlyRankedUnique(a: seq<Keyed<nat>>, b: seq<Keyed<nat>>)
    requires multiset(a) == multiset(b)
    requires StrictlyRanked(a) && StrictlyRanked(b)
    ensures a == b
  {
    if a == [] {
      assert |b| == |multiset(b)| == 0;
    } else {
      RankedHead(a, b);
      MultisetTail(a);
      MultisetTail(b);
      StrictlyRankedUnique(a[1..], b[1..]);
      assert a == [a[0]] + a[1..] && b == [b[0]] + b[1..];
    }
  }

  /** The ranking is the only arrangement of the enumerated row in which
      every column is ranked ahead of all later ones. */
  lemma RankUnique(row: seq<int>, a: seq<Keyed<nat>>)
    requires multiset(a) == multiset(Enumerate(row))
    requires StrictlyRanked(a)
    ensures a == Rank(row)
  {
    StrictlyRankedUnique(a, Rank(row));
  }

  /** Column `c` paired with its score. */
  function Entry(row: seq<int>, c: nat): Keyed<nat>
    requires c < |row|
  {
    Keyed(c, row[c])
  }

  /** `distances[1:6]`: the columns at ranked positions 1 to 5, or fewer when
      the row is shorter. */
  function RecommendedColumns(row: seq<int>): (cols: seq<nat>)
    ensures |cols| == if |row| == 0 then 0 else Min(RecommendationCount, |row| - 1)
    ensures forall k :: 0 <= k < |cols| ==> cols[k] == Rank(row)[k + 1].item
  {
    var r := Rank(row);
    var top := if |r| <= 1 then [] else r[1..Min(RecommendationCount + 1, |r|)];
    seq(|top|, k requires 0 <= k < |top| => top[k].item)
  }

  /** The recommended columns are distinct valid columns in descending score
      order, equal scores in ascending column order. */
  lemma RecommendedColumnsRanked(row: seq<int>)
    ensures forall k :: 0 <= k < |RecommendedColumns(row)| ==> RecommendedColumns(row)[k] < |row|
    ensures NoDuplicates(RecommendedColumns(row))
    ensures forall k, l :: 0 <= k < l < |RecommendedColumns(row)| ==>
              Precedes(Entry(row, RecommendedColumns(row)[k]), Entry(row, RecommendedColumns(row)[l]))
  {
    var r := Rank(row);
    var cols := RecommendedColumns(row);
    assert forall k :: 0 <= k < |cols| ==> r[k + 1] == Entry(row, cols[k]);
  }

  /** Top-5 dominance: every column left out, other than the one at position
      0, ranks below every recommended column. */
  lemma RecommendedColumnsDominate(row: seq<int>, c: nat)
    requires c < |row| && c !in RecommendedColumns(row) && c != Rank(row)[0].item
    ensures forall k :: 0 <= k < |RecommendedColumns(row)| ==>
              Precedes(Entry(row, RecommendedColumns(row)[k]), Entry(row, c))
  {
    var r := Rank(row);
    var cols := RecommendedColumns(row);
    assert Entry(row, c).item == c;
    var p :| 0 <= p < |r| && r[p] == Entry(row, c);
    assert r[p].item == c;
    assert forall m :: 1 <= m <= |cols| ==> r[m].item == cols[m - 1];
    assert p == 0 || p > |cols|;
    forall k | 0 <= k < |cols| ensures Precedes(Entry(row, cols[k]), Entry(row, c)) {
      assert r[k + 1] == Entry(row, cols[k]);
    }
  }

  /** The query column `q` is ranked first exactly when its own score beats
      every lower column and is not beaten by any higher column. */
  predicate SelfFirst(row: seq<int>, q: nat)
    requires q < |row|
  {
    && (forall c :: 0 <= c < q ==> row[c] < row[q])
    && (forall c :: q < c < |row| ==> row[c] <= row[q])
  }

  lemma SelfFirstIff(row: seq<int>, q: nat)
    requires q < |row|
    ensures Rank(row)[0].item == q <==> SelfFirst(row, q)
  {
    var r := Rank(row);
    if r[0].item == q {
      forall c | 0 <= c < |row| && c != q ensures Precedes(Entry(row, q), Entry(row, c)) {
        var p :| 0 <= p < |r| && r[p] == Entry(row, c);
      }
    } else {
      assert Entry(row, q).item == q;
      var p :| 0 <= p < |r| && r[p] == Entry(row, q);
      assert r[p].item == q;
      assert r[0] == Entry(row, r[0].item);
      assert Precedes(r[0], r[p]);
    }
  }

  /** When the query column is ranked first, dropping position 0 keeps it
      out of its own recommendations. */
  lemma SelfFirstExcluded(row: seq<int>, q: nat)
    requires q < |row| && SelfFirst(row, q)
    ensures q !in RecommendedColumns(row)
  {
    SelfFirstIff(row, q);
  }

  /** When the query column is not ranked first and the row is short enough
      for every position after 0 to be returned, the query column is
      recommended to itself. */
  lemma SelfRecommendedWhenNotFirst(row: seq<int>, q: nat)
    requires q < |row| <= RecommendationCount + 1 && !SelfFirst(row, q)
    ensures q in RecommendedColumns(row)
  {
    SelfFirstIff(row, q);
    var r := Rank(row);
    assert Entry(row, q).item == q;
    var p :| 0 <= p < |r| && r[p] == Entry(row, q);
    assert r[p].item == q;
    assert RecommendedColumns(row)[p - 1] == q;
  }

  /** Two tied columns: querying column 1 ranks column 0 first, so column 1
      is returned as its own recommendation. */
  lemma TiedDiagonalRecommendsItself()
    ensures RecommendedColumns([7, 7]) == [1]
  {
    var row := [7, 7];
    assert !(row[0] < row[1]);
    SelfRecommendedWhenNotFirst(row, 1);
  }

  /** In a three-column row whose own score is the strict maximum, the
      other two columns are recommended by descending score. */
  lemma ThreeColumnOrder(row: seq<int>)
    requires |row| == 3 && row[0] > row[1] && row[0] > row[2] && row[2] > row[1]
    ensures RecommendedColumns(row) == [2, 1]
  {
    var cols := RecommendedColumns(row);
    RecommendedColumnsRanked(row);
    assert SelfFirst(row, 0);
    SelfFirstIff(row, 0);
    assert |cols| == 2;
    var a, b := cols[0], cols[1];
    assert a < 3 && b < 3 && a != b && a != 0 && b != 0;
    assert Precedes(Entry(row, a), Entry(row, b));
    assert row[a] >= row[b];
    assert a == 2 && b == 1;
    assert cols == [a, b];
  }

  /** Querying column 0 of this row ranks column 2 before column 1. */
  lemma ExampleRowRanking()
    ensures RecommendedColumns([9, 1, 5]) == [2, 1]
  {
    ThreeColumnOrder([9, 1, 5]);
  }

  /** `recommend(song)`: the names of the tracks at ranked positions 1 to 5
      of the first row named `song`. A song with no row fails, as
      `.index[0]` on an empty selection raises. */
  function Recommend(catalog: seq<Track>, sim: seq<seq<int>>, song: string): (r: Result<seq<string>, Error>)
    requires Aligned(catalog, sim)
    ensures r.Failure? <==> !HasSong(catalog, song)
    ensures r.Failure? ==> r.error == SongNotFound(song)
    ensures r.Success? ==> |r.value| == Min(RecommendationCount, |catalog| - 1)
    ensures r.Success? ==> forall k :: 0 <= k < |r.value| ==> HasSong(catalog, r.value[k])
    ensures forall q: nat :: FirstRow(catalog, song, q) ==>
              && r.Success?
              && forall k :: 0 <= k < |r.value| ==>
                   r.value[k] == catalog[RecommendedColumns(sim[q])[k]].name
  {
    match FindIndex(catalog, song)
    case None =>
      assert forall q: nat :: FirstRow(catalog, song, q) ==> HasSong(catalog, song);
      Failure(SongNotFound(song))
    case Some(q) =>
      assert forall q': nat :: FirstRow(catalog, song, q') ==> q' == q by {
        forall q': nat | FirstRow(catalog, song, q') ensures q' == q {
          FirstRowUnique(catalog, song, q, q');
        }
      }
      var cols := RecommendedColumns(sim[q]);
      var names := seq(|cols|, k requires 0 <= k < |cols| => catalog[cols[k]].name);
      assert forall k :: 0 <= k < |names| ==> HasSong(catalog, names[k]) by {
        forall k | 0 <= k < |names| ensures HasSong(catalog, names[k]) {
          assert catalog[cols[k]].name == names[k];
        }
      }
      Success(names)
  }
}
