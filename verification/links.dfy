/** From a track URI to a web player link: the track id is the last
    `:`-separated segment of the URI (`track_uri.split(':')[-1]`). */
module Links {
  import opened Wrappers

  /** The separator of the segments of a track URI. */
  const Colon: char := ':'

  /** The web player link template; the track id is appended to it. */
  const TrackUrlPrefix: string := "https://open.spotify.com/track/"

  /** The number of occurrences of `sep` in `s`. */
  function Occurrences(s: string, sep: char): nat {
    if s == [] then 0 else (if s[0] == sep then 1 else 0) + Occurrences(s[1..], sep)
  }

  /** `s.split(sep)`: the pieces between occurrences of `sep`. There is always
      one piece more than there are separators, and no piece holds one. */
  function Split(s: string, sep: char): (parts: seq<string>)
    ensures |parts| == Occurrences(s, sep) + 1
    ensures forall i :: 0 <= i < |parts| ==> sep !in parts[i]
  {
    if s == [] then [[]]
    else
      var rest := Split(s[1..], sep);
      if s[0] == sep then [[]] + rest
      else [[s[0]] + rest[0]] + rest[1..]
  }

  /** `sep.join(parts)`. */
  function Join(parts: seq<string>, sep: char): string
    requires |parts| >= 1
  {
    if |parts| == 1 then parts[0] else parts[0] + [sep] + Join(parts[1..], sep)
  }

  /** Joining the pieces of a split gives the string back. */
  lemma {:induction false} JoinSplit(s: string, sep: char)
    ensures Join(Split(s, sep), sep) == s
  {
    if s != [] {
      var rest := Split(s[1..], sep);
      JoinSplit(s[1..], sep);
      if s[0] == sep {
        assert ([[]] + rest)[1..] == rest;
      } else {
        var parts := Split(s, sep);
        assert parts[1..] == rest[1..];
        if |rest| == 1 {
          assert s == [s[0]] + s[1..];
        } else {
          assert Join(rest, sep) == rest[0] + [sep] + Join(rest[1..], sep);
          assert s == [s[0]] + s[1..];
        }
      }
    }
  }

  /** Splitting pieces joined with a separator they do not contain gives the
      pieces back. */
  lemma {:induction false} SplitJoin(parts: seq<string>, sep: char)
    requires |parts| >= 1
    requires forall i :: 0 <= i < |parts| ==> sep !in parts[i]
    ensures Split(Join(parts, sep), sep) == parts
  {
    if |parts| == 1 {
      SplitPiece(parts[0], sep);
    } else {
      var tail := Join(parts[1..], sep);
      SplitJoin(parts[1..], sep);
      SplitPrefix(parts[0], tail, sep);
    }
  }

  /** A string without the separator splits into itself. */
  lemma {:induction false} SplitPiece(p: string, sep: char)
    requires sep !in p
    ensures Split(p, sep) == [p]
  {
    if p != [] {
      SplitPiece(p[1..], sep);
      assert p[0] != sep;
      assert [p[0]] + p[1..] == p;
    }
  }

  /** Splitting `p + [sep] + t` where `p` has no separator: `p` is the first
      piece and the pieces of `t` follow. */
  lemma {:induction false} SplitPrefix(p: string, t: string, sep: char)
    requires sep !in p
    ensures Split(p + [sep] + t, sep) == [p] + Split(t, sep)
  {
    var s := p + [sep] + t;
    if p == [] {
      assert s[1..] == t;
    } else {
      assert s[1..] == p[1..] + [sep] + t;
      SplitPrefix(p[1..], t, sep);
      assert [p[0]] + p[1..] == p;
    }
  }

  /** The last of a non-empty list of pieces (`parts[-1]`). */
  function LastPart(parts: seq<string>): string
    requires |parts| >= 1
  {
    parts[|parts| - 1]
  }

  /** `track_uri.split(':')[-1]`: the part of the URI after its last `:`,
      or the whole URI when it has none. */
  function TrackId(uri: string): (id: string)
    ensures Colon !in id
    ensures |id| <= |uri| && uri[|uri| - |id|..] == id
    ensures Colon !in uri ==> id == uri
    ensures Colon in uri ==> |id| < |uri| && uri[|uri| - |id| - 1] == Colon
  {
    SplitLastPiece(uri);
    LastPart(Split(uri, Colon))
  }

  /** The last piece of a split on `:` is the whole string when its first
      character is not `:` and the rest has none, and otherwise the last
      piece of the rest. */
  lemma SplitLastPieceStep(uri: string)
    requires uri != []
    ensures LastPart(Split(uri, Colon))
            == if uri[0] != Colon && Colon !in uri[1..] then uri else LastPart(Split(uri[1..], Colon))
  {
    var t := uri[1..];
    var rest := Split(t, Colon);
    if uri[0] == Colon {
      assert Split(uri, Colon) == [[]] + rest;
    } else {
      assert Split(uri, Colon) == [[uri[0]] + rest[0]] + rest[1..];
      if Colon !in t {
        SplitPiece(t, Colon);
        assert [uri[0]] + t == uri;
      } else {
        OccurrencesZero(t, Colon);
        assert |rest| >= 2;
      }
    }
  }

  /** The last piece of a split on `:` is the suffix of the URI after its last
      `:`, or the whole URI when it has no `:`. */
  lemma {:induction false} SplitLastPiece(uri: string)
    ensures var id := LastPart(Split(uri, Colon));
            && Colon !in id
            && |id| <= |uri| && uri[|uri| - |id|..] == id
            && (Colon !in uri ==> id == uri)
            && (Colon in uri ==> |id| < |uri| && uri[|uri| - |id| - 1] == Colon)
  {
    if uri != [] {
      var id := LastPart(Split(uri, Colon));
      var t := uri[1..];
      SplitLastPiece(t);
      SplitLastPieceStep(uri);
      assert Colon in uri <==> uri[0] == Colon || Colon in t;
      if !(uri[0] != Colon && Colon !in t) {
        assert uri[|uri| - |id|..] == t[|t| - |id|..];
        if Colon !in t {
          assert uri[|uri| - |id| - 1] == uri[0];
        } else {
          assert uri[|uri| - |id| - 1] == t[|t| - |id| - 1];
        }
      }
    }
  }

  /** A string has no separator exactly when none is counted in it. */
  lemma {:induction false} OccurrencesZero(s: string, sep: char)
    ensures Occurrences(s, sep) == 0 <==> sep !in s
  {
    if s != [] {
      OccurrencesZero(s[1..], sep);
      assert sep in s <==> s[0] == sep || sep in s[1..];
    }
  }

  /** The link shown next to a recommended track: the track id placed in the
      web player template, or no link when the catalog has no URI. */
  function SpotifyLink(uri: Option<string>): (link: Option<string>)
    ensures link.Some? <==> uri.Some?
    ensures link.Some? ==>
              && |TrackUrlPrefix| <= |link.value|
              && link.value[..|TrackUrlPrefix|] == TrackUrlPrefix
              && Colon !in link.value[|TrackUrlPrefix|..]
    ensures uri.Some? ==> link == Some(TrackUrlPrefix + TrackId(uri.value))
  {
    match uri
    case None => None
    case Some(u) =>
      var l := TrackUrlPrefix + TrackId(u);
      assert l[|TrackUrlPrefix|..] == TrackId(u);
      Some(l)
  }

  /** A well-formed track URI `spotify:track:<id>` links to `<id>`. */
  lemma TrackUriRoundTrip(id: string)
    requires Colon !in id
    ensures TrackId("spotify:track:" + id) == id
    ensures SpotifyLink(Some("spotify:track:" + id)) == Some(TrackUrlPrefix + id)
  {
    var parts := ["spotify", "track", id];
    assert Join(parts, Colon) == "spotify:track:" + id by {
      assert Join(parts[2..], Colon) == id;
      assert Join(parts[1..], Colon) == "track:" + id;
    }
    SplitJoin(parts, Colon);
  }

  /** A typical track URI, `spotify:track:abc123`, links to the player URL
      followed by `abc123`. */
  lemma TrackUriExample()
    ensures SpotifyLink(Some("spotify:track:abc123")) == Some(TrackUrlPrefix + "abc123")
  {
    assert TrackId("spotify:track:abc123") == "abc123" by {
      assert "spotify:track:abc123" == "spotify:track:" + "abc123";
      TrackUriRoundTrip("abc123");
    }
  }
}
