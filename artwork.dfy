/**
 * Album-art lookup against the iTunes Search API: the ordered list of search
 * queries built from the track's metadata, the rule that turns a decoded
 * search response into an artwork URL, and the first-success selection of a
 * downloaded image. The network is a pair of parameters: `search` answers a
 * query with a decoded response, `fetch` answers a URL with a download.
 */
module Artwork {
  import opened Wrappers
  import opened Text

  type Bytes = seq<bv8>

  /** Python truthiness of an optional string: absent and `""` are both false. */
  predicate Truthy(o: Option<string>) {
    o.Some? && o.value != []
  }

  /** The `entity` parameter of a search request. */
  datatype Entity = Song | Album

  /** A search request: the `term` and the `entity` searched for. */
  datatype Query = Query(term: string, entity: Entity)

  /** The four kinds of query, in the order they are tried. */
  datatype QueryKind = ArtistTitle | ArtistAlbum | TitleOnly | AlbumOnly

  function Rank(k: QueryKind): nat {
    match k
    case ArtistTitle => 0
    case ArtistAlbum => 1
    case TitleOnly => 2
    case AlbumOnly => 3
  }

  const AllKinds: seq<QueryKind> := [ArtistTitle, ArtistAlbum, TitleOnly, AlbumOnly]

  /** A kind of query is built exactly when every field it is made from is present and non-empty. */
  predicate Applies(k: QueryKind, artist: Option<string>, title: Option<string>, album: Option<string>) {
    match k
    case ArtistTitle => Truthy(artist) && Truthy(title)
    case ArtistAlbum => Truthy(artist) && Truthy(album)
    case TitleOnly => Truthy(title)
    case AlbumOnly => Truthy(album)
  }

  /** The request of a kind: `"<artist> <title>"` for a song, `"<artist> <album>"` for an album, or the field alone. */
  function QueryFor(k: QueryKind, artist: Option<string>, title: Option<string>, album: Option<string>): (q: Query)
    requires Applies(k, artist, title, album)
    ensures q.term != []
    ensures q.entity == Song <==> k == ArtistTitle || k == TitleOnly
  {
    match k
    case ArtistTitle => Query(artist.value + " " + title.value, Song)
    case ArtistAlbum => Query(artist.value + " " + album.value, Album)
    case TitleOnly => Query(title.value, Song)
    case AlbumOnly => Query(album.value, Album)
  }

  /** The kinds among `kinds` that apply, in their order. */
  function Select(kinds: seq<QueryKind>, artist: Option<string>, title: Option<string>, album: Option<string>): seq<QueryKind>
    decreases |kinds|
  {
    if kinds == [] then []
    else
      var here := if Applies(kinds[0], artist, title, album) then [kinds[0]] else [];
      here + Select(kinds[1..], artist, title, album)
  }

  predicate Ascending(ks: seq<QueryKind>) {
    forall i, j :: 0 <= i < j < |ks| ==> Rank(ks[i]) < Rank(ks[j])
  }

  /** Selecting keeps exactly the applicable kinds, and never more than there were. */
  lemma {:induction false} SelectMembers(kinds: seq<QueryKind>, artist: Option<string>, title: Option<string>, album: Option<string>)
    ensures var r := Select(kinds, artist, title, album);
      |r| <= |kinds| && forall k :: k in r <==> k in kinds && Applies(k, artist, title, album)
    decreases |kinds|
  {
    if kinds != [] {
      SelectMembers(kinds[1..], artist, title, album);
      assert kinds == [kinds[0]] + kinds[1..];
    }
  }

  lemma AscendingTail(kinds: seq<QueryKind>)
    requires kinds != [] && Ascending(kinds)
    ensures Ascending(kinds[1..]) && forall k :: k in kinds[1..] ==> Rank(kinds[0]) < Rank(k)
  {
    forall i, j | 0 <= i < j < |kinds[1..]| ensures Rank(kinds[1..][i]) < Rank(kinds[1..][j]) {
      assert kinds[1..][i] == kinds[i + 1] && kinds[1..][j] == kinds[j + 1];
    }
    forall k | k in kinds[1..] ensures Rank(kinds[0]) < Rank(k) {
      var j :| 0 <= j < |kinds[1..]| && kinds[1..][j] == k;
      assert kinds[j + 1] == k;
    }
  }

  /** Selecting keeps the order of the kinds. */
  lemma {:induction false} SelectAscending(kinds: seq<QueryKind>, artist: Option<string>, title: Option<string>, album: Option<string>)
    requires Ascending(kinds)
    ensures Ascending(Select(kinds, artist, title, album))
    decreases |kinds|
  {
    if kinds != [] {
      AscendingTail(kinds);
      SelectAscending(kinds[1..], artist, title, album);
      SelectMembers(kinds[1..], artist, title, album);
    }
  }

  /** The kinds of query built for the metadata, in the order they are tried. */
  function Plan(artist: Option<string>, title: Option<string>, album: Option<string>): seq<QueryKind> {
    Select(AllKinds, artist, title, album)
  }

  /** The search requests built for the metadata, in the order they are tried. */
  function Queries(artist: Option<string>, title: Option<string>, album: Option<string>): seq<Query> {
    var plan := Plan(artist, title, album);
    SelectMembers(AllKinds, artist, title, album);
    seq(|plan|, i requires 0 <= i < |plan| => QueryFor(plan[i], artist, title, album))
  }

  /** The plan written out kind by kind. */
  lemma PlanUnfold(artist: Option<string>, title: Option<string>, album: Option<string>)
    ensures Plan(artist, title, album) ==
      (if Applies(ArtistTitle, artist, title, album) then [ArtistTitle] else [])
      + (if Applies(ArtistAlbum, artist, title, album) then [ArtistAlbum] else [])
      + (if Applies(TitleOnly, artist, title, album) then [TitleOnly] else [])
      + (if Applies(AlbumOnly, artist, title, album) then [AlbumOnly] else [])
  {
    assert AllKinds[1..][1..][1..][1..] == [];
  }

  /** At most four requests are built. */
  lemma PlanLength(artist: Option<string>, title: Option<string>, album: Option<string>)
    ensures |Plan(artist, title, album)| <= 4
  {
    SelectMembers(AllKinds, artist, title, album);
  }

  /** A kind of request is built exactly when its fields are present. */
  lemma PlanMembers(artist: Option<string>, title: Option<string>, album: Option<string>)
    ensures forall k :: k in Plan(artist, title, album) <==> Applies(k, artist, title, album)
  {
    AllKindsListed();
    SelectMembers(AllKinds, artist, title, album);
  }

  /**
   * The requests come in the fixed order artist+title, artist+album, title,
   * album, and no kind is built twice.
   */
  lemma PlanOrdered(artist: Option<string>, title: Option<string>, album: Option<string>)
    ensures Ascending(Plan(artist, title, album))
  {
    AllKindsListed();
    SelectAscending(AllKinds, artist, title, album);
  }

  /** The fixed order lists every kind, once each, by rank. */
  lemma AllKindsListed()
    ensures Ascending(AllKinds) && forall k :: k in AllKinds
  {
    forall k ensures k in AllKinds {
      assert AllKinds[Rank(k)] == k;
    }
  }

  /** The query list written out kind by kind. */
  lemma QueriesUnfold(artist: Option<string>, title: Option<string>, album: Option<string>)
    ensures Queries(artist, title, album) ==
      (if Truthy(artist) && Truthy(title) then [Query(artist.value + " " + title.value, Song)] else [])
      + (if Truthy(artist) && Truthy(album) then [Query(artist.value + " " + album.value, Album)] else [])
      + (if Truthy(title) then [Query(title.value, Song)] else [])
      + (if Truthy(album) then [Query(album.value, Album)] else [])
  {
    PlanUnfold(artist, title, album);
  }

  /** A title with no usable artist and no usable album yields exactly one song search for the title. */
  lemma QueriesTitleOnly(artist: Option<string>, title: Option<string>, album: Option<string>)
    requires !Truthy(artist) && Truthy(title) && !Truthy(album)
    ensures Queries(artist, title, album) == [Query(title.value, Song)]
  {
    QueriesUnfold(artist, title, album);
  }

  /** With every field present, all four requests are made, in order. */
  lemma QueriesAllPresent(artist: string, title: string, album: string)
    requires artist != [] && title != [] && album != []
    ensures Queries(Some(artist), Some(title), Some(album)) ==
      [Query(artist + " " + title, Song), Query(artist + " " + album, Album), Query(title, Song), Query(album, Album)]
  {
    QueriesUnfold(Some(artist), Some(title), Some(album));
  }

  /** With neither a title nor an album there is no request at all, whatever the artist. */
  lemma QueriesNonePresent(artist: Option<string>, title: Option<string>, album: Option<string>)
    requires !Truthy(title) && !Truthy(album)
    ensures Queries(artist, title, album) == []
  {
    QueriesUnfold(artist, title, album);
  }

  /** The query list of `find_album_art`, built by appending one request per applicable kind. */
  method BuildQueries(artist: Option<string>, title: Option<string>, album: Option<string>) returns (queries: seq<Query>)
    ensures queries == Queries(artist, title, album)
  {
    queries := [];
    if Truthy(artist) && Truthy(title) {
      queries := queries + [Query(artist.value + " " + title.value, Song)];
    }
    if Truthy(artist) && Truthy(album) {
      queries := queries + [Query(artist.value + " " + album.value, Album)];
    }
    if Truthy(title) {
      queries := queries + [Query(title.value, Song)];
    }
    if Truthy(album) {
      queries := queries + [Query(album.value, Album)];
    }
    QueriesUnfold(artist, title, album);
  }

  /**
   * A decoded search response. `SearchFailed` stands for every way the
   * request or its decoding raises (transport error, HTTP error status,
   * invalid JSON, an unexpected shape); otherwise the `artworkUrl100` field
   * of each result, `None` where it is missing, null or not a string.
   */
  datatype SearchResponse = SearchFailed | SearchResults(artwork: seq<Option<string>>)

  const SmallSize: string := "100x100"
  const LargeSize: string := "600x600"

  /**
   * `_search_itunes` after decoding: no URL when the search failed, returned
   * no results, or the first result has no usable `artworkUrl100`; otherwise
   * that URL with every `100x100` turned into `600x600`.
   */
  function SearchArtwork(resp: SearchResponse): Option<string> {
    if resp.SearchFailed? || resp.artwork == [] || !Truthy(resp.artwork[0]) then None
    else Some(ReplaceAll(resp.artwork[0].value, SmallSize, LargeSize))
  }

  /**
   * Only the first result counts. A URL comes back exactly when it has a
   * non-empty `artworkUrl100`; it has that URL's length, holds no `100x100`
   * any more, and is that URL itself when it held no `100x100`.
   */
  lemma SearchArtworkSpec(resp: SearchResponse)
    ensures SearchArtwork(resp).Some? <==> resp.SearchResults? && resp.artwork != [] && Truthy(resp.artwork[0])
    ensures SearchArtwork(resp).Some? ==>
      var url := SearchArtwork(resp).value;
      var original := resp.artwork[0].value;
      && |url| == |original| && url != []
      && !Contains(url, SmallSize)
      && (!Contains(original, SmallSize) ==> url == original)
  {
    if SearchArtwork(resp).Some? {
      var original := resp.artwork[0].value;
      ReplaceAllLength(original, SmallSize, LargeSize);
      ReplaceAllRemoves(original, SmallSize, LargeSize);
      if !Contains(original, SmallSize) {
        ReplaceAllAbsent(original, SmallSize, LargeSize);
      }
    }
  }

  /** The results after the first never matter. */
  lemma SearchArtworkFirstOnly(first: Option<string>, rest1: seq<Option<string>>, rest2: seq<Option<string>>)
    ensures SearchArtwork(SearchResults([first] + rest1)) == SearchArtwork(SearchResults([first] + rest2))
  {
  }

  /** A download attempt: `DownloadFailed` when the request raised, otherwise the status, body and `Content-Type`. */
  datatype Download = DownloadFailed | Fetched(status: int, content: Bytes, contentType: Option<string>)

  /** `raise_for_status` raises for the client and server error classes. */
  predicate ErrorStatus(status: int) {
    400 <= status < 600
  }

  /** A download that is used: no error, a non-empty body and a `Content-Type` starting with `image/`. */
  predicate IsImage(d: Download) {
    && d.Fetched?
    && !ErrorStatus(d.status)
    && d.content != []
    && StartsWith(d.contentType.GetOr(""), "image/")
  }

  /** The query yields an image: its search gives a URL, and downloading that URL gives an image. */
  predicate Succeeds(q: Query, search: Query -> SearchResponse, fetch: string -> Download) {
    var url := SearchArtwork(search(q));
    Truthy(url) && IsImage(fetch(url.value))
  }

  /** The body of the first query, in order, that yields an image. */
  function FirstImage(queries: seq<Query>, search: Query -> SearchResponse, fetch: string -> Download): Option<Bytes>
    decreases |queries|
  {
    if queries == [] then None
    else if Succeeds(queries[0], search, fetch) then Some(fetch(SearchArtwork(search(queries[0])).value).content)
    else FirstImage(queries[1..], search, fetch)
  }

  /**
   * No image exactly when no query succeeds; otherwise the image is the body
   * downloaded for the earliest query that succeeds, and it is non-empty.
   */
  lemma {:induction false} FirstImageSpec(queries: seq<Query>, search: Query -> SearchResponse, fetch: string -> Download)
    ensures FirstImage(queries, search, fetch).None? <==>
      forall i :: 0 <= i < |queries| ==> !Succeeds(queries[i], search, fetch)
    ensures FirstImage(queries, search, fetch).Some? ==>
      exists i :: 0 <= i < |queries| && Succeeds(queries[i], search, fetch)
        && FirstImage(queries, search, fetch).value == fetch(SearchArtwork(search(queries[i])).value).content
        && FirstImage(queries, search, fetch).value != []
        && forall j :: 0 <= j < i ==> !Succeeds(queries[j], search, fetch)
    decreases |queries|
  {
    if queries != [] {
      FirstImageSpec(queries[1..], search, fetch);
      if !Succeeds(queries[0], search, fetch) {
        if FirstImage(queries, search, fetch).Some? {
          var i :| 0 <= i < |queries[1..]| && Succeeds(queries[1..][i], search, fetch)
            && FirstImage(queries, search, fetch).value == fetch(SearchArtwork(search(queries[1..][i])).value).content
            && FirstImage(queries, search, fetch).value != []
            && forall j :: 0 <= j < i ==> !Succeeds(queries[1..][j], search, fetch);
          assert queries[i + 1] == queries[1..][i];
          forall j | 0 <= j < i + 1 ensures !Succeeds(queries[j], search, fetch) {
            if j > 0 {
              assert queries[j] == queries[1..][j - 1];
            }
          }
        } else {
          forall i | 0 <= i < |queries| ensures !Succeeds(queries[i], search, fetch) {
            if i > 0 {
              assert queries[i] == queries[1..][i - 1];
            }
          }
        }
      }
    }
  }

  /**
   * `find_album_art`: builds the query list, then tries the queries in order
   * and returns the body of the first download that is an image.
   */
  method FindAlbumArt(artist: Option<string>, title: Option<string>, album: Option<string>,
                      search: Query -> SearchResponse, fetch: string -> Download)
    returns (art: Option<Bytes>)
    ensures art == FirstImage(Queries(artist, title, album), search, fetch)
  {
    var queries := BuildQueries(artist, title, album);
    var i := 0;
    while i < |queries|
      invariant i <= |queries|
      invariant FirstImage(queries[i..], search, fetch) == FirstImage(queries, search, fetch)
    {
      assert queries[i..][1..] == queries[i + 1..];
      var url := SearchArtwork(search(queries[i]));
      if url.Some? && url.value != [] {
        var r := fetch(url.value);
        if r.Fetched? && !ErrorStatus(r.status) && r.content != [] && StartsWith(r.contentType.GetOr(""), "image/") {
          return Some(r.content);
        }
      }
      i := i + 1;
    }
    return None;
  }
}
