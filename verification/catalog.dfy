/** The song catalog: one row per track, looked up by its track name. */
module Catalog {
  import opened Wrappers

  /** A catalog row. A track without a URI has `uri == None`. */
  datatype Track = Track(name: string, artist: string, album: string, uri: Option<string>)

  /** Raised when a track name has no row in the catalog. */
  datatype Error = SongNotFound(song: string)

  /** Row `i` is the first row of `catalog` named `name`. */
  predicate FirstRow(catalog: seq<Track>, name: string, i: nat) {
    && i < |catalog|
    && catalog[i].name == name
    && forall j :: 0 <= j < i ==> catalog[j].name != name
  }

  /** Some row of `catalog` is named `name`. */
  predicate HasSong(catalog: seq<Track>, name: string) {
    exists i :: 0 <= i < |catalog| && catalog[i].name == name
  }

  /** The position of the first row whose track name equals `name`, if any. */
  function FindIndex(catalog: seq<Track>, name: string): (r: Option<nat>)
    ensures r.Some? <==> HasSong(catalog, name)
    ensures r.Some? ==> FirstRow(catalog, name, r.value)
  {
    if catalog == [] then None
    else if catalog[0].name == name then Some(0)
    else
      match FindIndex(catalog[1..], name)
      case None => None
      case Some(i) => Some(i + 1)
  }

  /** At most one row is the first row with a given name. */
  lemma FirstRowUnique(catalog: seq<Track>, name: string, i: nat, j: nat)
    requires FirstRow(catalog, name, i) && FirstRow(catalog, name, j)
    ensures i == j
  {
  }

  /** The similarity matrix is square and has one row and column per catalog row. */
  predicate Aligned(catalog: seq<Track>, sim: seq<seq<int>>) {
    && |sim| == |catalog|
    && forall i :: 0 <= i < |sim| ==> |sim[i]| == |catalog|
  }
}
