# Music recommendation core, modelled in Dafny

The Streamlit app picks a song and recommends five similar ones. It keeps a
catalog of tracks (`Track_Name`, `Artist_Name`, `Album_Name`, `Track_URI`)
and a square similarity matrix whose row and column `i` belong to catalog
row `i`. This project models the logic behind the page as pure functions:

- **Name lookup** (`Catalog`): a song name resolves to the first catalog row
  with that name. A name with no row is an error.
- **Ranking** (`StableSort`, `Ranking`): the query row of the matrix is
  enumerated and sorted by descending score with a stable insertion sort.
  This is Python's `sorted(..., reverse=True)`, which keeps ties in input
  order. Positions 1 to 5 of the result are mapped back to track names.
- **Details and links** (`Links`, `Details`): each recommended name shows the
  artist, album and URI of the first row with that name. The track id is the
  last `:`-separated segment of the URI. The link is
  `https://open.spotify.com/track/<id>`, and a missing URI gives no link.
- **Trending** (`Trending`): up to five distinct track names, ranked by how
  many rows carry them.

Scores are `int`, because the code only compares them. The catalog is a
`seq<Track>`; a missing URI is `None`. Python exceptions become
`Result.Failure`.

Two behaviours of the code are worth spelling out:

- The query song is not removed by column. The code drops sorted position 0,
  whatever column sits there. Dropping position 0 removes the query column
  exactly when it ranks first, that is, when its score is above every lower
  column's and at least every higher column's (`Ranking.SelfFirstIff`,
  `Ranking.SelfFirstExcluded`). When N ≤ 6, a query column that does not
  rank first is recommended to itself (`Ranking.SelfRecommendedWhenNotFirst`,
  `Ranking.TiedDiagonalRecommendsItself`). For larger N it can also fall
  beyond position 5 and be left out anyway.
- Track names need not be unique. The code uses the first row with a name,
  both for the query and for the details of each recommendation
  (`Details.DetailsComeFromFirstRow`).

## Model

| member | source | states |
|---|---|---|
| Catalog.FindIndex | streamlit/streamlit_app.py:43 | a row is found exactly when some row has the name, and the row found is the first such row |
| Ranking.Enumerate | streamlit/streamlit_app.py:44 | `enumerate(row)` pairs every column with its own score, in ascending column order |
| StableSort.SortDesc | streamlit/streamlit_app.py:44 | the sorted sequence has the same length, is a permutation of the input, and has non-increasing keys |
| StableSort.SortStable | streamlit/streamlit_app.py:44 | for every key, the elements with that key keep their input order, as Python's stable sort keeps them even with `reverse=True` |
| Ranking.Rank | streamlit/streamlit_app.py:44 | every column 0..N-1 occurs exactly once with its own score, scores never increase, and equal scores are in ascending column order |
| Ranking.RankStable | streamlit/streamlit_app.py:44 | the columns sharing a score keep their `enumerate` order |
| Ranking.RankUnique | streamlit/streamlit_app.py:44 | any arrangement of the enumerated row ordered by descending score, ties by column, is the ranking |
| Ranking.RecommendedColumns | streamlit/streamlit_app.py:46-47 | `distances[1:6]` has min(5, N-1) columns for N ≥ 1 (none for N = 0), taken from ranked positions 1 to 5 in order |
| Ranking.RecommendedColumnsRanked | streamlit/streamlit_app.py:44-47 | the recommended columns are distinct valid columns, in descending score order with ties by column |
| Ranking.RecommendedColumnsDominate | streamlit/streamlit_app.py:44-47 | every column not recommended, other than the one at position 0, ranks below every recommended column |
| Ranking.SelfFirstIff | streamlit/streamlit_app.py:44 | the query column ranks first if and only if its score is above every lower column's and not below any higher column's |
| Ranking.SelfFirstExcluded | streamlit/streamlit_app.py:44-46 | a query column that ranks first is not among its own recommendations |
| Ranking.SelfRecommendedWhenNotFirst | streamlit/streamlit_app.py:44-46 | a query column that does not rank first is recommended to itself when N ≤ 6 |
| Ranking.TiedDiagonalRecommendsItself | streamlit/streamlit_app.py:44-46 | with the row [7, 7], querying column 1 recommends column 1 |
| Ranking.Recommend | streamlit/streamlit_app.py:42-48 | fails with SongNotFound exactly when no row has the song; otherwise returns min(5, N-1) catalog names, those of the recommended columns of the song's first row |
| Links.Split | streamlit/streamlit_app.py:90 | `split(':')` yields one more piece than there are separators, and no piece holds a separator |
| Links.JoinSplit | streamlit/streamlit_app.py:90 | joining the pieces of a split with the separator gives the string back |
| Links.SplitJoin | streamlit/streamlit_app.py:90 | splitting separator-free pieces joined by the separator gives the pieces back |
| Links.SplitLastPiece | streamlit/streamlit_app.py:90 | the last piece of `split(':')` has no `:`, is a suffix of the URI, is preceded by `:` when the URI has one, and is the whole URI otherwise |
| Links.TrackId | streamlit/streamlit_app.py:90 | the track id has no `:`, is a suffix of the URI, is preceded by `:` when the URI has one, and is the whole URI otherwise |
| Links.SpotifyLink | streamlit/streamlit_app.py:89-91 | a link exists exactly when a URI exists; it is the player URL prefix followed by the URI's track id, which has no `:` |
| Links.TrackUriRoundTrip | streamlit/streamlit_app.py:89-91 | `spotify:track:<id>` gives back `<id>` and links to the player URL followed by `<id>` |
| Links.TrackUriExample | streamlit/streamlit_app.py:89-91 | `spotify:track:abc123` links to the player URL `https://open.spotify.com/track/` followed by `abc123` |
| Details.Describe | streamlit/streamlit_app.py:85-91 | fails exactly when no row has the name; otherwise the artist, album and link come from the first row with the name, with a link exactly when that row has a URI |
| Details.DescribeAll | streamlit/streamlit_app.py:84-91 | succeeds exactly when every name has a row, with one description per name in order; a failure names the first song with no row |
| Details.DescribedInFull | streamlit/streamlit_app.py:84-91 | when every name has a row, entry k carries name k, with artist, album and link from the first row with that name |
| Details.RecommendSongs | streamlit/streamlit_app.py:79-91 | fails only for a song with no row; otherwise min(5, N-1) entries named as the ranking says, with artist, album and link all from the first row of each name |
| Details.DetailsComeFromFirstRow | streamlit/streamlit_app.py:85-87 | in the three-row catalog whose rows 1 and 2 are both named "A", with the matrix [[9, 1, 5], [1, 9, 1], [5, 1, 9]], recommending "B" shows "A" twice, both times with row 1's artist "first" and album "x" |
| Trending.Distinct | streamlit/streamlit_app.py:63 | the distinct names are exactly the names of the column, each once, in order of first occurrence |
| Trending.DistinctUnique | streamlit/streamlit_app.py:63 | any list holding exactly the column's names, in order of first occurrence, is the distinct-name list |
| Trending.Tally | streamlit/streamlit_app.py:63 | one entry per distinct name, no name twice, every name of the column present with the number of rows carrying it, in order of first occurrence |
| Trending.TallyUnique | streamlit/streamlit_app.py:63 | any list of names paired with their counts that covers every name of the column, in order of first occurrence, is the tally |
| Trending.RankedTally | streamlit/streamlit_app.py:63 | one entry per distinct name, each with its occurrence count, in non-increasing order of count |
| Trending.TopTracks | streamlit/streamlit_app.py:63 | min(5, number of distinct names) distinct names of the column, in non-increasing order of count, none left out occurring more often than one listed |
| Trending.TopOfTally | streamlit/streamlit_app.py:63 | the names of a prefix of the ranked tally are distinct, and none left out occurs more often than one in the prefix |
| Trending.FewNamesAllTrending | streamlit/streamlit_app.py:63 | with at most five distinct names, every name is listed |

## Left out

- Page setup, styling, headers, dividers, the select box, the button, the
  metrics and the footer (streamlit/streamlit_app.py:7-35, 51-61, 65-82,
  92-122): these are rendering calls into the UI framework. `RecommendSongs`
  models what the button computes, not how it is shown.
- Loading the catalog and the matrix with `pickle.load`
  (streamlit/streamlit_app.py:38-39): this is file I/O. The model takes both
  as parameters and requires `Catalog.Aligned`: the matrix is N×N for a
  catalog of N rows. The code does not check this.
- Floating-point scores: scores are `int`. Only comparison is used, and NaN
  scores, which break Python's ordering, are not modelled.
- pandas row labels: `.index[0]` returns a label that the code then uses as
  a position. The model assumes the default 0..N-1 index, where the two agree.
- pandas' handling of non-string cells: track names are always strings, and
  `pd.notna` is modelled as `Option`.
- Trending.TopTracks: pandas does not define the order of names with equal
  counts. The model breaks such ties by first occurrence, and its contract
  states only the count ordering and dominance, not a tie order.
