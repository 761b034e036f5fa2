/**
  The movie listing endpoint `GET /movies/`: its query-parameter bounds,
  the parsing of the `imdb_id` list (one id or several separated by
  commas), the forwarding of every parameter to the store's
  `get_movie_data`, and the 500 response for a store failure.

  `get_movie_data` itself is not part of this model: the store is a
  function argument that either answers with a payload or raises.
 */
module MoviesRouter {
  import opened Wrappers
  import opened Seqs
  import Strings

  // ---------------------------------------------------------------------------
  // The imdb_id list
  // ---------------------------------------------------------------------------

  /** `[id.strip() for id in parts if id.strip()]`. */
  function StrippedNonEmpty(parts: seq<string>): (ids: seq<string>)
    ensures forall i :: 0 <= i < |ids| ==> ids[i] != []
    ensures IsSubsequence(ids, Stripped(parts))
  {
    if parts == [] then []
    else
      var init := parts[..|parts| - 1];
      var id := Strings.Strip(parts[|parts| - 1]);
      var front := StrippedNonEmpty(init);
      if id != [] then
        SubsequenceAppendBoth(front, Stripped(init), id);
        front + [id]
      else
        SubsequenceOfPrefix(front, Stripped(init), id);
        front
  }

  /** How many of the strings are non-empty. */
  function NonBlankCount(xs: seq<string>): nat {
    if xs == [] then 0
    else NonBlankCount(xs[..|xs| - 1]) + (if xs[|xs| - 1] != [] then 1 else 0)
  }

  /**
    Nothing non-blank is dropped: every stripped piece that is non-empty is
    kept, and there are exactly as many ids as such pieces.
   */
  lemma {:induction false} StrippedNonEmptyKeepsEveryId(parts: seq<string>)
    ensures var st := Stripped(parts);
      forall j :: 0 <= j < |st| && st[j] != [] ==> st[j] in StrippedNonEmpty(parts)
    ensures |StrippedNonEmpty(parts)| == NonBlankCount(Stripped(parts))
  {
    if parts != [] {
      var init := parts[..|parts| - 1];
      var id := Strings.Strip(parts[|parts| - 1]);
      StrippedNonEmptyKeepsEveryId(init);
      var st := Stripped(parts);
      var front := StrippedNonEmpty(init);
      assert st == Stripped(init) + [id];
      assert StrippedNonEmpty(parts) == front + (if id != [] then [id] else []);
      assert st[..|st| - 1] == Stripped(init);
      forall j | 0 <= j < |st| && st[j] != [] ensures st[j] in StrippedNonEmpty(parts) {
        if j < |st| - 1 {
          assert st[j] == Stripped(init)[j];
        }
      }
    }
  }

  /** Every piece stripped, empty ones included. */
  function Stripped(parts: seq<string>): seq<string> {
    if parts == [] then [] else Stripped(parts[..|parts| - 1]) + [Strings.Strip(parts[|parts| - 1])]
  }

  /** One stripped piece per piece. */
  lemma {:induction false} StrippedLength(parts: seq<string>)
    ensures |Stripped(parts)| == |parts|
  {
    if parts != [] {
      StrippedLength(parts[..|parts| - 1]);
    }
  }

  /** The stripped piece at `i` is the strip of the piece at `i`. */
  lemma {:induction false} StrippedIndex(parts: seq<string>, i: int)
    requires 0 <= i < |parts|
    ensures i < |Stripped(parts)| && Stripped(parts)[i] == Strings.Strip(parts[i])
  {
    var init := parts[..|parts| - 1];
    var last := parts[|parts| - 1];
    var st, front := Stripped(parts), Stripped(init);
    assert st == front + [Strings.Strip(last)];
    if i < |init| {
      StrippedIndex(init, i);
      assert st[i] == front[i] && init[i] == parts[i];
    } else {
      StrippedLength(init);
      assert i == |front| && last == parts[i];
    }
  }

  /** The `i`-th stripped piece is the strip of the `i`-th piece. */
  lemma StrippedAt(parts: seq<string>)
    ensures |Stripped(parts)| == |parts|
    ensures forall i :: 0 <= i < |parts| ==> Stripped(parts)[i] == Strings.Strip(parts[i])
  {
    StrippedLength(parts);
    forall i | 0 <= i < |parts| ensures Stripped(parts)[i] == Strings.Strip(parts[i]) {
      StrippedIndex(parts, i);
    }
  }

  /** Each stripped piece is the strip of some piece. */
  lemma {:induction false} StrippedElements(parts: seq<string>, id: string)
    requires id in Stripped(parts)
    ensures exists i :: 0 <= i < |parts| && id == Strings.Strip(parts[i])
  {
    var init := parts[..|parts| - 1];
    if id in Stripped(init) {
      StrippedElements(init, id);
      var i :| 0 <= i < |init| && id == Strings.Strip(init[i]);
      assert init[i] == parts[i];
    } else {
      assert id == Strings.Strip(parts[|parts| - 1]);
    }
  }

  /** The `imdb_ids` handed to the store: `None` when the parameter is absent or empty, else the cleaned pieces. */
  function ParseImdbIds(imdbId: Option<string>): (r: Option<seq<string>>)
    ensures r.None? <==> imdbId.None? || imdbId.value == ""
    ensures r.Some? ==> IsSubsequence(r.value, Stripped(Strings.Split(imdbId.value, ',')))
    ensures r.Some? ==> forall i :: 0 <= i < |r.value| ==> r.value[i] != []
  {
    if imdbId.None? || imdbId.value == "" then None
    else Some(StrippedNonEmpty(Strings.Split(imdbId.value, ',')))
  }

  /** An id fit to come out of the parser: non-empty, no comma, no whitespace at either end. */
  predicate CleanId(id: string) {
    id != [] && ',' !in id && !Strings.IsSpace(id[0]) && !Strings.IsSpace(id[|id| - 1])
  }

  /** Every parsed id is non-empty, holds no comma and has no whitespace at either end. */
  lemma ParsedIdsAreClean(s: string)
    requires s != ""
    ensures forall id :: id in ParseImdbIds(Some(s)).value ==> CleanId(id)
  {
    var parts := Strings.Split(s, ',');
    var ids := StrippedNonEmpty(parts);
    SubsequenceElements(ids, Stripped(parts));
    forall id | id in ids ensures CleanId(id) {
      StrippedElements(parts, id);
      var i :| 0 <= i < |parts| && id == Strings.Strip(parts[i]);
      Strings.StripIsTrimmedSlice(parts[i]);
      Strings.StripChars(parts[i]);
    }
  }

  /** An absent or empty parameter means no id filter; a non-empty one always gives a list, possibly empty. */
  lemma ParseImdbIdsNoneIffEmpty(imdbId: Option<string>)
    ensures ParseImdbIds(imdbId).None? <==> imdbId.None? || imdbId.value == ""
    ensures ParseImdbIds(Some(",")) == Some([])
    ensures ParseImdbIds(Some(" , ")) == Some([])
  {
    var commas, spaced := ["", ""], [" ", " "];
    assert Strings.JoinWith(commas, ',') == ",";
    assert Strings.JoinWith(spaced, ',') == " , ";
    Strings.SplitJoinWith(commas, ',');
    Strings.SplitJoinWith(spaced, ',');
    StripBlanks();
    NoIdsFromBlankPieces(commas);
    NoIdsFromBlankPieces(spaced);
  }

  /** A lone space and the empty string strip to nothing. */
  lemma StripBlanks()
    ensures Strings.Strip(" ") == [] && Strings.Strip("") == []
  {
    assert Strings.IsSpace(" "[0]) && " "[1..] == [];
  }

  /** Pieces that are all blank give no ids at all. */
  lemma {:induction false} NoIdsFromBlankPieces(parts: seq<string>)
    requires forall i :: 0 <= i < |parts| ==> Strings.Strip(parts[i]) == []
    ensures StrippedNonEmpty(parts) == []
  {
    if parts != [] {
      var init := parts[..|parts| - 1];
      forall i | 0 <= i < |init| ensures Strings.Strip(init[i]) == [] {
        assert init[i] == parts[i];
      }
      NoIdsFromBlankPieces(init);
    }
  }

  /** A space before a clean id is dropped by `strip()`. */
  lemma StripSpacedId(id: string)
    requires CleanId(id)
    ensures Strings.Strip(" " + id) == id
  {
    var s := " " + id;
    assert Strings.IsSpace(s[0]) && s[1..] == id;
    assert Strings.LStrip(s) == Strings.LStrip(id);
    Strings.StripTrimmed(id);
  }

  /** Two ids typed with a space after the comma (`"tt1, tt2"`) give exactly those two ids. */
  lemma ParsesSpacedPair(a: string, b: string)
    requires CleanId(a) && CleanId(b)
    ensures ParseImdbIds(Some(a + ", " + b)) == Some([a, b])
  {
    var parts := [a, " " + b];
    assert Strings.JoinWith(parts, ',') == a + ", " + b;
    CleanIdsAreKept([a]);
    StripSpacedId(b);
    ParsePaddedIds(parts, [a, b]);
  }

  /**
    Round trip with padding: pieces without commas whose strips are the
    non-empty `ids` parse, once joined with commas, to exactly `ids`.
   */
  lemma ParsePaddedIds(parts: seq<string>, ids: seq<string>)
    requires |parts| >= 1 && |parts| == |ids|
    requires forall i :: 0 <= i < |parts| ==> ',' !in parts[i] && ids[i] != [] && Strings.Strip(parts[i]) == ids[i]
    ensures ParseImdbIds(Some(Strings.JoinWith(parts, ','))) == Some(ids)
  {
    assert Strings.Strip([]) == [];
    Strings.SplitJoinWith(parts, ',');
    JoinWithNonEmpty(parts);
    KeepsPaddedPieces(parts, ids);
  }

  /** Round trip: joining clean ids with commas and parsing gives the ids back. */
  lemma ParseJoinedIds(ids: seq<string>)
    requires |ids| >= 1
    requires forall i :: 0 <= i < |ids| ==> CleanId(ids[i])
    ensures ParseImdbIds(Some(Strings.JoinWith(ids, ','))) == Some(ids)
  {
    CleanIdsAreKept(ids);
    ParsePaddedIds(ids, ids);
  }

  /** A clean id has no comma and is its own strip. */
  lemma CleanIdsAreKept(ids: seq<string>)
    requires forall i :: 0 <= i < |ids| ==> CleanId(ids[i])
    ensures forall i :: 0 <= i < |ids| ==> ',' !in ids[i] && ids[i] != [] && Strings.Strip(ids[i]) == ids[i]
  {
    forall i | 0 <= i < |ids| ensures Strings.Strip(ids[i]) == ids[i] {
      Strings.StripTrimmed(ids[i]);
    }
  }

  lemma {:induction false} JoinWithNonEmpty(parts: seq<string>)
    requires |parts| >= 1 && parts[0] != []
    ensures Strings.JoinWith(parts, ',') != []
  {
  }

  /** Pieces whose strips are the non-empty `ids` give exactly `ids`. */
  lemma {:induction false} KeepsPaddedPieces(parts: seq<string>, ids: seq<string>)
    requires |parts| == |ids|
    requires forall i :: 0 <= i < |parts| ==> ids[i] != [] && Strings.Strip(parts[i]) == ids[i]
    ensures StrippedNonEmpty(parts) == ids
  {
    if parts != [] {
      var init := parts[..|parts| - 1];
      var front := ids[..|ids| - 1];
      forall i | 0 <= i < |init| ensures front[i] != [] && Strings.Strip(init[i]) == front[i] {
        assert init[i] == parts[i] && front[i] == ids[i];
      }
      KeepsPaddedPieces(init, front);
      assert StrippedNonEmpty(parts) == front + [ids[|ids| - 1]];
      InitLast(ids);
    }
  }

  // ---------------------------------------------------------------------------
  // Query parameters
  // ---------------------------------------------------------------------------

  /** The query parameters of `get_movies` after type conversion. */
  datatype MoviesQuery = MoviesQuery(
    mediaType: Option<string>,
    labelValue: Option<string>,
    reviewed: Option<bool>,
    humanLabeled: Option<bool>,
    anomalous: Option<bool>,
    prediction: Option<int>,
    cmValue: Option<string>,
    imdbId: Option<string>,
    mediaTitle: Option<string>,
    releaseYear: Option<int>,
    limit: int,
    offset: int,
    sortBy: string,
    sortOrder: string)

  /** Every parameter left out: the defaults `limit=100`, `offset=0`, `sort_by=training_created_at`, `sort_order=desc`. */
  const DefaultQuery := MoviesQuery(None, None, None, None, None, None, None, None, None, None, 100, 0, "training_created_at", "desc")

  const ConfusionValues: seq<string> := ["tn", "tp", "fn", "fp"]

  /** The 36 values the `sort_by` pattern allows. */
  const MovieSortFields: seq<string> := [
    "imdb_id", "tmdb_id", "label", "media_type", "media_title", "season", "episode",
    "release_year", "budget", "revenue", "runtime", "origin_country", "production_companies",
    "production_countries", "production_status", "original_language", "spoken_languages",
    "genre", "original_media_title", "tagline", "overview", "tmdb_rating", "tmdb_votes",
    "rt_score", "metascore", "imdb_rating", "imdb_votes", "human_labeled", "anomalous",
    "reviewed", "prediction", "probability", "cm_value", "training_created_at",
    "training_updated_at", "prediction_created_at"]

  /** What the framework checks before the handler runs. */
  predicate QueryWithinBounds(q: MoviesQuery) {
    && (q.prediction.None? || 0 <= q.prediction.value <= 1)
    && (q.cmValue.None? || q.cmValue.value in ConfusionValues)
    && (q.releaseYear.None? || 1850 <= q.releaseYear.value <= 2100)
    && 1 <= q.limit <= 1000
    && q.offset >= 0
    && q.sortBy in MovieSortFields
    && (q.sortOrder == "asc" || q.sortOrder == "desc")
  }

  /** The arguments `get_movie_data` receives. */
  datatype MovieDataRequest = MovieDataRequest(
    mediaType: Option<string>,
    labelValue: Option<string>,
    reviewed: Option<bool>,
    humanLabeled: Option<bool>,
    anomalous: Option<bool>,
    imdbIds: Option<seq<string>>,
    prediction: Option<int>,
    cmValue: Option<string>,
    mediaTitle: Option<string>,
    releaseYear: Option<int>,
    limit: int,
    offset: int,
    sortBy: string,
    sortOrder: string)

  /** The response of the endpoint: a 422 for a parameter out of bounds, the store's payload, or a 500. */
  datatype Response<T> = ValidationError | Success(payload: T) | ServerError(detail: string)

  /** `get_movies`: reject out-of-bounds parameters, parse the ids, forward everything, map a store exception to 500. */
  function GetMovies<T>(q: MoviesQuery, store: MovieDataRequest -> Result<T, string>): (r: Response<T>)
    ensures r.ValidationError? <==> !QueryWithinBounds(q)
    ensures r.Success? ==> store(Forwarded(q)) == Ok(r.payload)
    ensures r.ServerError? <==> QueryWithinBounds(q) && store(Forwarded(q)).Err?
    ensures r.ServerError? ==> r.detail == "Failed to fetch movie data: " + store(Forwarded(q)).error
  {
    if !QueryWithinBounds(q) then ValidationError
    else
      match store(Forwarded(q))
      case Ok(payload) => Success(payload)
      case Err(message) => ServerError("Failed to fetch movie data: " + message)
  }

  /** The store call made for a query: every parameter as given, with `imdb_id` parsed into `imdb_ids`. */
  function Forwarded(q: MoviesQuery): (req: MovieDataRequest)
    ensures req.imdbIds == ParseImdbIds(q.imdbId)
    ensures req.limit == q.limit && req.offset == q.offset
    ensures req.sortBy == q.sortBy && req.sortOrder == q.sortOrder
  {
    MovieDataRequest(q.mediaType, q.labelValue, q.reviewed, q.humanLabeled, q.anomalous,
      ParseImdbIds(q.imdbId), q.prediction, q.cmValue, q.mediaTitle, q.releaseYear,
      q.limit, q.offset, q.sortBy, q.sortOrder)
  }

  /** The defaults are within bounds, and a limit just past either end is rejected rather than clamped. */
  lemma BoundsAtTheEdges(q: MoviesQuery)
    ensures QueryWithinBounds(DefaultQuery)
    ensures QueryWithinBounds(q) ==> QueryWithinBounds(q.(limit := 1)) && QueryWithinBounds(q.(limit := 1000))
    ensures !QueryWithinBounds(q.(limit := 0)) && !QueryWithinBounds(q.(limit := 1001))
    ensures !QueryWithinBounds(q.(offset := -1))
    ensures !QueryWithinBounds(q.(sortOrder := "ASC"))
  {
  }
}
