/**
  The training endpoints: `GET /training` forwards a few of its query
  parameters to `get_training_data`, and `PATCH /training/{imdb_id}/label`
  refuses a body whose `imdb_id` differs from the path's before it touches
  the store, then hands the store's answer back unchanged.
 */
module TrainingRouter {
  import opened Wrappers
  import Db

  /** The `LabelUpdateRequest` body. */
  datatype LabelUpdateRequest = LabelUpdateRequest(imdbId: string, labelValue: string)

  /** The detail of the 500 the listing raises. */
  datatype ErrorDetail = ErrorDetail(error: string, details: string)

  /** A handler's answer: its return value, or an HTTP error. */
  datatype Response<T, D> = Body(body: T) | ServerError(detail: D)

  const MismatchResult := Db.UpdateResult(false, Some("IMDB ID mismatch"), "Path IMDB ID and body IMDB ID do not match")

  /** The filters the listing hands on: only `media_type` and `label`; the three flags stay unset. */
  function ForwardedFilters(mediaType: Option<string>, labelValue: Option<string>): (f: Db.TrainingFilters)
    ensures f.mediaType == mediaType && f.labelValue == labelValue
    ensures f.reviewed.None? && f.humanLabeled.None? && f.anomalous.None?
  {
    Db.TrainingFilters(mediaType, labelValue, None, None, None)
  }

  /**
    The label handler on the table's contents: a missing body makes the
    handler raise (an unhandled server error); a mismatch is refused with
    the table untouched; otherwise the store's `update_label` decides.
   */
  function UpdateLabelResponse(rows: map<string, Db.TrainingRow>, imdbId: string, request: Option<LabelUpdateRequest>,
                               now: Db.Timestamp, fault: Db.DbFault)
    : (out: (map<string, Db.TrainingRow>, Response<Db.UpdateResult, string>))
    ensures request.None? ==> out == (rows, ServerError("Internal server error"))
    ensures request.Some? && request.value.imdbId != imdbId ==> out == (rows, Body(MismatchResult))
    ensures request.Some? && request.value.imdbId == imdbId ==>
      var (rows', result) := Db.UpdateLabelOutcome(rows, imdbId, request.value.labelValue, now, fault);
      out == (rows', Body(result))
  {
    if request.None? then (rows, ServerError("Internal server error"))
    else if request.value.imdbId != imdbId then (rows, Body(MismatchResult))
    else
      var (rows', result) := Db.UpdateLabelOutcome(rows, imdbId, request.value.labelValue, now, fault);
      (rows', Body(result))
  }

  /** Only a matching, existing id with no database failure changes the table; the mismatch answer is never a success. */
  lemma UpdateLabelChangesOnlyOnMatch(rows: map<string, Db.TrainingRow>, imdbId: string, request: Option<LabelUpdateRequest>,
                                      now: Db.Timestamp, fault: Db.DbFault)
    ensures var out := UpdateLabelResponse(rows, imdbId, request, now, fault);
      && (out.0 != rows ==> request.Some? && request.value.imdbId == imdbId && imdbId in rows && fault == Db.NoFault)
      && (out.1.Body? && out.1.body.success <==> request.Some? && request.value.imdbId == imdbId && imdbId in rows && fault == Db.NoFault)
      && (out.1.Body? && out.1.body.success ==>
            && out.0[imdbId].labelValue == request.value.labelValue
            && out.0[imdbId].humanLabeled && out.0[imdbId].reviewed)
  {
  }

  /** A failure from the store reaches the client as the store wrote it, `Training data not found` included. */
  lemma UpdateLabelPassesFailureThrough(rows: map<string, Db.TrainingRow>, imdbId: string, labelValue: string, now: Db.Timestamp)
    requires imdbId !in rows
    ensures UpdateLabelResponse(rows, imdbId, Some(LabelUpdateRequest(imdbId, labelValue)), now, Db.NoFault)
         == (rows, Body(Db.NotFoundResult(imdbId)))
  {
  }

  /** The training router's two handlers over one store. */
  class TrainingHandlers {
    const store: Db.DatabaseService

    constructor (store: Db.DatabaseService)
      ensures this.store == store
    {
      this.store := store;
    }

    /** `PATCH /{imdb_id}/label`. */
    method UpdateLabel(imdbId: string, request: Option<LabelUpdateRequest>, now: Db.Timestamp, fault: Db.DbFault)
      returns (r: Response<Db.UpdateResult, string>)
      requires store.Valid()
      modifies store
      ensures store.Valid()
      ensures (store.training, r) == UpdateLabelResponse(old(store.training), imdbId, request, now, fault)
    {
      if request.None? {
        // `request.imdb_id` on `None` raises AttributeError, which no handler catches.
        return ServerError("Internal server error");
      }
      if request.value.imdbId != imdbId {
        return Body(MismatchResult);
      }
      var result := store.UpdateLabel(imdbId, request.value.labelValue, now, fault);
      r := Body(result);
    }

    /**
      `GET /training`: `limit` and `offset` are passed on unchecked; a store
      exception becomes a 500 whose detail says "Database error occurred".
     */
    method ListTrainingData(mediaType: Option<string>, labelValue: Option<string>, limit: int, offset: int,
                            sortBy: string, sortOrder: string, ordering: seq<string>, fault: Option<string>)
      returns (r: Response<Db.TrainingPage, ErrorDetail>)
      requires store.Valid()
      requires Db.IsOrderingOf(ordering, store.training)
      ensures r.ServerError? <==> fault.Some? || limit < 0 || offset < 0
      ensures r.ServerError? ==> r.detail.error == "Database error occurred"
      ensures r.ServerError? && fault.Some? ==> r.detail.details == fault.value
      ensures r.Body? ==>
        var f := ForwardedFilters(mediaType, labelValue);
        && r.body.pagination == Db.Paginate(|Db.MatchingKeys(store.training, f)|, limit, offset)
        && r.body.data == Db.RowsOf(Db.Window(Db.Selected(ordering, store.training, f), offset, limit), store.training)
        && (forall row :: row in r.body.data ==> Db.MatchesFilters(row, f))
    {
      var result, _ := store.GetTrainingData(ForwardedFilters(mediaType, labelValue), limit, offset, sortBy, sortOrder, ordering, fault);
      match result
      case Ok(page) =>
        r := Body(page);
      case Err(message) =>
        r := ServerError(ErrorDetail("Database error occurred", message));
    }
  }
}
