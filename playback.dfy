/**
 * The reaction to a metadata message: only a player that is playing or
 * paused triggers an artwork lookup, and only a found image counts as a
 * change.
 */
module Playback {
  import opened Wrappers
  import opened Text
  import opened Artwork

  /** The fields of a metadata message that the update reads; `None` where a field is missing or null. */
  datatype Meta = Meta(state: Option<string>, title: Option<string>, artist: Option<string>, album: Option<string>)

  /** The state as compared: a missing or null state reads as `""`, and case is ignored. */
  function NormalState(state: Option<string>): string {
    Lower(state.GetOr(""))
  }

  /** Lookups happen only for the states `playing` and `paused`. */
  predicate LookupAllowed(state: Option<string>) {
    NormalState(state) in {"playing", "paused"}
  }

  /** The gate accepts exactly the states that spell `playing` or `paused` in any mix of case. */
  lemma LookupAllowedIff(state: Option<string>)
    ensures LookupAllowed(state) <==>
      state.Some? && (SpellsIgnoringCase(state.value, "playing") || SpellsIgnoringCase(state.value, "paused"))
  {
    var s := state.GetOr("");
    LowerEqualsIff(s, "playing");
    LowerEqualsIff(s, "paused");
    if state.None? {
      assert !SpellsIgnoringCase("", "playing") && !SpellsIgnoringCase("", "paused");
    }
  }

  /** The image an update stores, if any: the first image found, and nothing when the gate is closed. */
  function UpdateOutcome(meta: Meta, search: Query -> SearchResponse, fetch: string -> Download): Option<Bytes> {
    if !LookupAllowed(meta.state) then None
    else
      var art := FirstImage(Queries(meta.artist, meta.title, meta.album), search, fetch);
      if art.Some? && art.value != [] then art else None
  }

  /**
   * With the gate closed nothing is looked up: the outcome is "no change"
   * whatever the search service and the downloads would have answered.
   */
  lemma ClosedGateIgnoresNetwork(meta: Meta, search1: Query -> SearchResponse, fetch1: string -> Download,
                                 search2: Query -> SearchResponse, fetch2: string -> Download)
    requires !LookupAllowed(meta.state)
    ensures UpdateOutcome(meta, search1, fetch1) == UpdateOutcome(meta, search2, fetch2) == None
  {
  }

  /**
   * With the gate open the update stores exactly the image of the earliest
   * successful query, and reports no change when no query succeeds.
   */
  lemma OpenGateStoresFirstImage(meta: Meta, search: Query -> SearchResponse, fetch: string -> Download)
    requires LookupAllowed(meta.state)
    ensures var queries := Queries(meta.artist, meta.title, meta.album);
      && (UpdateOutcome(meta, search, fetch).None? <==> forall i :: 0 <= i < |queries| ==> !Succeeds(queries[i], search, fetch))
      && (UpdateOutcome(meta, search, fetch).Some? ==>
            exists i :: 0 <= i < |queries| && Succeeds(queries[i], search, fetch)
              && UpdateOutcome(meta, search, fetch).value == fetch(SearchArtwork(search(queries[i])).value).content
              && forall j :: 0 <= j < i ==> !Succeeds(queries[j], search, fetch))
  {
    FirstImageSpec(Queries(meta.artist, meta.title, meta.album), search, fetch);
  }

  /**
   * `update_art_from_meta`: `changed` is the returned flag and `stored` the
   * bytes written to the album-art file when it is set.
   */
  method UpdateArtFromMeta(meta: Meta, search: Query -> SearchResponse, fetch: string -> Download)
    returns (changed: bool, stored: Option<Bytes>)
    ensures changed <==> stored.Some?
    ensures stored == UpdateOutcome(meta, search, fetch)
    ensures !LookupAllowed(meta.state) ==> !changed
  {
    var state := Lower(meta.state.GetOr(""));
    if state != "playing" && state != "paused" {
      return false, None;
    }
    var art := FindAlbumArt(meta.artist, meta.title, meta.album, search, fetch);
    if art.None? || art.value == [] {
      return false, None;
    }
    return true, art;
  }
}
