/** What is shown for each recommended song: its artist, album and player
    link, all read from the first catalog row carrying that track name. */
module Details {
  import opened Wrappers
  import opened Seqs
  import opened Catalog
  import opened StableSort
  import opened Links
  import opened Ranking

  /** One recommended song as displayed. */
  datatype Recommendation = Recommendation(name: string, artist: string, album: string, link: Option<string>)

  /** `d` shows `song` with the artist, album and player link of row `t`. */
  predicate ShownAs(d: Recommendation, song: string, t: Track) {
    && d.name == song
    && d.artist == t.artist
    && d.album == t.album
    && d.link == SpotifyLink(t.uri)
  }

  /** The artist, album and link of `song`. The code selects the rows named
      `song` and reads the first of them, and raises when there is none. */
  function Describe(catalog: seq<Track>, song: string): (r: Result<Recommendation, Error>)
    ensures r.Failure? <==> !HasSong(catalog, song)
    ensures r.Failure? ==> r.error == SongNotFound(song)
    ensures forall i: nat :: FirstRow(catalog, song, i) ==> r.Success? && ShownAs(r.value, song, catalog[i])
  {
    match FindIndex(catalog, song)
    case None =>
      assert forall i: nat :: FirstRow(catalog, song, i) ==> HasSong(catalog, song);
      Failure(SongNotFound(song))
    case Some(i) =>
      assert forall j: nat :: FirstRow(catalog, song, j) ==> j == i by {
        forall j: nat | FirstRow(catalog, song, j) ensures j == i {
          FirstRowUnique(catalog, song, i, j);
        }
      }
      var t := catalog[i];
      Success(Recommendation(song, t.artist, t.album, SpotifyLink(t.uri)))
  }

  /** `songs[k]` is the first of `songs` with no catalog row. */
  predicate FirstMissing(catalog: seq<Track>, songs: seq<string>, k: int) {
    && 0 <= k < |songs|
    && !HasSong(catalog, songs[k])
    && forall j :: 0 <= j < k ==> HasSong(catalog, songs[j])
  }

  /** The first missing song of the tail is the first missing song of the
      whole list when the head has a row. */
  lemma FirstMissingShift(catalog: seq<Track>, songs: seq<string>, k: int)
    requires |songs| >= 1 && HasSong(catalog, songs[0])
    requires FirstMissing(catalog, songs[1..], k)
    ensures FirstMissing(catalog, songs, k + 1) && songs[1..][k] == songs[k + 1]
  {
    forall j | 0 < j <= k ensures HasSong(catalog, songs[j]) {
      assert songs[j] == songs[1..][j - 1];
    }
  }

  /** `Describe` applied to each name in turn; the first missing name fails
      the whole request. */
  function DescribeAll(catalog: seq<Track>, songs: seq<string>): (r: Result<seq<Recommendation>, Error>)
    ensures r.Success? <==> forall k :: 0 <= k < |songs| ==> HasSong(catalog, songs[k])
    ensures r.Success? ==> |r.value| == |songs|
    ensures r.Success? ==> forall k :: 0 <= k < |songs| ==> Describe(catalog, songs[k]) == Success(r.value[k])
    ensures r.Failure? ==> exists k :: FirstMissing(catalog, songs, k) && r.error == SongNotFound(songs[k])
  {
    if songs == [] then Success([])
    else
      var tail := songs[1..];
      match Describe(catalog, songs[0])
      case Failure(e) =>
        assert FirstMissing(catalog, songs, 0);
        Failure(e)
      case Success(d) =>
        match DescribeAll(catalog, tail)
        case Failure(e) =>
          var k :| FirstMissing(catalog, tail, k) && e == SongNotFound(tail[k]);
          FirstMissingShift(catalog, songs, k);
          Failure(e)
        case Success(ds) =>
          var all := [d] + ds;
          assert forall k :: 1 <= k < |songs| ==> all[k] == ds[k - 1] && songs[k] == tail[k - 1];
          Success(all)
  }

  /** The "Recommend Similar Songs" button: rank, then describe each of the
      recommended names. Only a song missing from the catalog fails. */
  function RecommendSongs(catalog: seq<Track>, sim: seq<seq<int>>, song: string): (r: Result<seq<Recommendation>, Error>)
    requires Aligned(catalog, sim)
    ensures r.Failure? <==> !HasSong(catalog, song)
    ensures r.Failure? ==> r.error == SongNotFound(song)
    ensures r.Success? ==> |r.value| == Min(RecommendationCount, |catalog| - 1)
    ensures forall q: nat :: FirstRow(catalog, song, q) ==>
              && r.Success?
              && forall k :: 0 <= k < |r.value| ==>
                   r.value[k].name == catalog[RecommendedColumns(sim[q])[k]].name
    ensures r.Success? ==> forall k, i: nat :: 0 <= k < |r.value| && FirstRow(catalog, r.value[k].name, i) ==>
              ShownAs(r.value[k], r.value[k].name, catalog[i])
  {
    match Recommend(catalog, sim, song)
    case Failure(e) => Failure(e)
    case Success(names) =>
      var ds := DescribeAll(catalog, names);
      DescribedInFull(catalog, names);
      ds
  }

  /** When every name has a row, entry `k` of the result is `songs[k]`
      shown from the first row carrying that name. */
  lemma DescribedInFull(catalog: seq<Track>, songs: seq<string>)
    requires forall k :: 0 <= k < |songs| ==> HasSong(catalog, songs[k])
    ensures DescribeAll(catalog, songs).Success?
    ensures forall k :: 0 <= k < |songs| ==> DescribeAll(catalog, songs).value[k].name == songs[k]
    ensures forall k, i: nat :: 0 <= k < |songs| && FirstRow(catalog, songs[k], i) ==>
              ShownAs(DescribeAll(catalog, songs).value[k], songs[k], catalog[i])
  {
    var all := DescribeAll(catalog, songs).value;
    forall k | 0 <= k < |songs| ensures all[k].name == songs[k] {
      var f := FindIndex(catalog, songs[k]).value;
      assert FirstRow(catalog, songs[k], f);
    }
  }

  /** The example catalog: two rows share the name "A". */
  function DuplicateNameCatalog(): seq<Track> {
    [Track("B", "b", "b", None), Track("A", "first", "x", None), Track("A", "second", "y", None)]
  }

  /** Both rows named "A" are shown from the first of them. */
  lemma DuplicateNamesDescribed()
    ensures DescribeAll(DuplicateNameCatalog(), ["A", "A"])
            == Success([Recommendation("A", "first", "x", None), Recommendation("A", "first", "x", None)])
  {
    var catalog := DuplicateNameCatalog();
    var songs := ["A", "A"];
    assert FirstRow(catalog, "A", 1);
    DescribedInFull(catalog, songs);
    var all := DescribeAll(catalog, songs).value;
    assert |all| == 2;
    assert SpotifyLink(catalog[1].uri) == None;
    assert ShownAs(all[0], "A", catalog[1]) && ShownAs(all[1], "A", catalog[1]);
    var shown := Recommendation("A", "first", "x", None);
    assert all[0] == shown && all[1] == shown;
    assert all == [shown, shown];
  }

  /** The example catalog and matrix fit together. */
  lemma ExampleAligned(sim: seq<seq<int>>)
    requires sim == [[9, 1, 5], [1, 9, 1], [5, 1, 9]]
    ensures Aligned(DuplicateNameCatalog(), sim)
  {
    assert |sim[0]| == 3 && |sim[1]| == 3 && |sim[2]| == 3;
  }

  /** Song "B" is recommended the names of columns 2 and 1, both "A". */
  lemma DuplicateNamesRecommended(sim: seq<seq<int>>)
    requires sim == [[9, 1, 5], [1, 9, 1], [5, 1, 9]]
    ensures Aligned(DuplicateNameCatalog(), sim)
    ensures Recommend(DuplicateNameCatalog(), sim, "B") == Success(["A", "A"])
  {
    var catalog := DuplicateNameCatalog();
    ExampleRowRanking();
    assert sim[0] == [9, 1, 5];
    assert FirstRow(catalog, "B", 0);
    ExampleAligned(sim);
    var names := Recommend(catalog, sim, "B");
    assert names.Success? && |names.value| == 2;
    assert catalog[2].name == "A" && catalog[1].name == "A";
    assert names.value[0] == "A" && names.value[1] == "A";
    assert names.value == ["A", "A"];
  }

  /** With duplicate track names the details come from the first row with the
      name, not from the row that was ranked: column 2 ("A", artist "second")
      is ranked first, yet both entries show artist "first". */
  lemma DetailsComeFromFirstRow()
    ensures RecommendSongs(DuplicateNameCatalog(), [[9, 1, 5], [1, 9, 1], [5, 1, 9]], "B")
            == Success([Recommendation("A", "first", "x", None), Recommendation("A", "first", "x", None)])
  {
    DuplicateNamesRecommended([[9, 1, 5], [1, 9, 1], [5, 1, 9]]);
    DuplicateNamesDescribed();
  }
}
