# rear-differential core, modelled in Dafny

rear-differential is a FastAPI service in front of a Postgres database (the
`atp` schema) and a Transmission BitTorrent daemon. This project models the
parts of it that carry behaviour of their own, each over abstract state:

- **Training record store** (`db_service.dfy`, module `Db`).
  - The `atp.training` table is a map from `imdb_id` to a row.
  - `get_training_data` is modelled in full: the WHERE-clause builder is a method, and its clauses and bound parameters grow together. The sort allow-lists are modelled, and so are the count, the LIMIT/OFFSET window and the `next`/`previous` pagination links.
  - `update_label` forces `human_labeled` and `reviewed` to true. `update_reviewed` sets only `reviewed`. Both check first that the row exists, and both roll back on a database error.
- **Library file-deletion gateway** (`file_service.dfy`, module `Files`).
  - The filesystem maps each path to a kind: file, directory or other. A per-path record says which removals raise, and with what.
  - `_delete_path` removes one path.
  - `delete_media` builds the ordered candidate list. Only the recorded path is skipped when it is already listed, so the other candidates can repeat. It tries every candidate in a loop and reports the ones it deleted.
  - `delete_directory` guesses the media type from the parent path.
  - `os.path.join` is modelled, including its rule that an absolute component replaces everything before it.
- **Torrent removal gateway** (`transmission_service.dfy`, module `Transmission`).
  - The daemon maps each info-hash to a torrent name.
  - `torrent_exists` and `remove_torrent` never raise. A `TransmissionError` from the lookup counts as "not found".
- **Request validators** (`api_models.dfy`, module `ApiModels`): the hash, IMDB id, release year and rejection status checks. Python's `$` also matches just before a final newline, and the model keeps that.
- **Routers**.
  - `movies_router.dfy` (module `MoviesRouter`): the query bounds of `GET /movies/`, the comma-separated `imdb_id` parsing, and what is forwarded to the store.
  - `training_router.dfy` (module `TrainingRouter`): the label handler refuses a path/body id mismatch before it touches the store. The listing handler forwards only some of its parameters.
- **Rejection scenarios** (`reject_scenarios.dfy`): what the integration tests assert about rejecting a title. These facts are derived only from the three modelled operations.
- **Shared helpers**.
  - `strings.dfy`: the Python `str` operations the code uses (`strip`, `rstrip('/')`, `split(',')`, `lower`, `in`, `str(n)`).
  - `wrappers.dfy`: `Option`, `Result` and facts about subsequences.

Several things are explicit arguments rather than modelled:

- Database and RPC failures are explicit fault arguments.
- `NOW()` is a timestamp argument.
- The row order an `ORDER BY` yields is an argument that lists every key exactly once.

## Model

| member | source | states |
|---|---|---|
| ApiModels.HexLineIsPattern | app/models/api.py:44 | the hash check decides exactly what `re.match(r'^[a-f0-9]+$')` accepts, `$` before a final newline included |
| ApiModels.ImdbLineIsPattern | app/models/api.py:50 | the IMDB check decides exactly what `re.match(r'^tt[0-9]{7,8}$')` accepts |
| ApiModels.ValidateHash | app/models/api.py:42-46 | on success the value is returned unchanged; on failure the error is the hash message |
| ApiModels.ValidateHashAccepts | app/models/api.py:77-81 | accepted iff the pattern matches and the length is 40, i.e. 40 lowercase hex characters or 39 of them and a newline |
| ApiModels.ValidateHashRejectsUppercase | app/models/api.py:44 | any uppercase hex digit makes the check fail |
| ApiModels.HashWithFinalNewlineAccepted | app/models/api.py:44 | 39 hex characters followed by `\n` pass the 40-character check |
| ApiModels.ValidateImdbId | app/models/api.py:48-52 | the value comes back unchanged on success; a failure carries the IMDB message |
| ApiModels.ValidateImdbIdAccepts | app/models/api.py:49-51 | accepted iff `None` or the pattern matches; an accepted id is 9 to 11 characters and starts with `tt` |
| ApiModels.ImdbIdShapesAccepted | app/models/api.py:50 | `tt` and 7 or 8 digits pass, with or without one final newline |
| ApiModels.ValidateReleaseYear | app/models/api.py:54-58 | accepted iff `None` or 1850 <= year <= 2100, value unchanged |
| ApiModels.ValidateRejectionStatus | app/models/api.py:70-75 | accepted iff one of unfiltered, accepted, rejected, override, value unchanged |
| Db.BuildWhereClauses | app/services/db_service.py:67-88 | one parameter per clause, each of its column's type. Columns come in the code's fixed order. A column is filtered iff its filter applies (a non-empty string, or a flag that is not `None`). A row satisfies the clauses iff it matches the filters |
| Db.EffectiveSortBy | app/services/db_service.py:95-103 | the sort column is always one of the 21 allow-listed fields |
| Db.EffectiveSortOrder | app/services/db_service.py:106-108 | the direction is always `asc` or `desc` |
| Db.SortTokensAreAllowListed | app/services/db_service.py:95-103 | an allow-listed `sort_by` is kept; any other value, compared case-sensitively, becomes `created_at` |
| Db.RejectedSortByNeverReachesQuery | app/services/db_service.py:118-124 | two rejected `sort_by` values produce the identical query text |
| Db.SortOrderIgnoresCase | app/services/db_service.py:106-108 | values equal up to ASCII case sort alike; `ASC` gives asc, `ascending` gives desc |
| Db.SortValidationIdempotent | app/services/db_service.py:102-108 | validating an already validated sort changes nothing |
| Db.Paginate | app/services/db_service.py:130-138 | total, limit and offset are echoed. `next` exists iff rows remain past the page and starts inside the result at offset+limit. `previous` exists iff the offset is positive and lies at offset-limit. Both keep the limit |
| Db.LinkUrlIdentifiesPage | app/services/db_service.py:136-137 | two link texts are equal iff they name the same offset and limit |
| Db.NextThenPrevious | app/services/db_service.py:130-131 | `next` is `offset+limit`, and from there `previous` leads back to the same page |
| Db.PreviousThenNext | app/services/db_service.py:130-131 | `previous` is `offset-limit`, and from there `next` leads back when the page starts inside the result |
| Db.PreviousCanBeNegative | app/services/db_service.py:131 | `previous` is not clamped: with 0 < offset < limit it is negative |
| Db.PaginationEnds | app/services/db_service.py:130-138 | no `next` iff offset+limit >= total; no `previous` iff offset <= 0 |
| Db.Selected | app/services/db_service.py:118-127 | the selected keys all match the filters and keep the ORDER BY order |
| Db.SelectWhereIsSelected | app/services/db_service.py:111-127 | the database's selection with the built clauses equals the filter selection |
| Db.SelectedCount | app/services/db_service.py:111-115 | over a duplicate-free order, the number selected is the number of matching keys |
| Db.SelectedCountsAllMatches | app/services/db_service.py:111-115 | `total` counts every matching row, whatever the order, limit or offset |
| Db.Window | app/services/db_service.py:118-127 | a LIMIT/OFFSET page holds at most `limit` rows |
| Db.PageRowsMatch | app/services/db_service.py:118-127 | every row on a returned page matches the filters |
| Db.ConsecutivePagesDisjoint | app/services/db_service.py:118-127 | consecutive pages of a duplicate-free result share no row |
| Db.UpdateLabelOutcome | app/services/db_service.py:153-199 | success iff no database error and the row exists. Otherwise the table is unchanged: a missing row gives "Training data not found", a database failure "Database error" |
| Db.UpdateReviewedOutcome | app/services/db_service.py:204-249 | the same outcome rules for `update_reviewed`, with the reviewed update on success |
| Db.LabelUpdateForcesFlags | app/services/db_service.py:178-189 | the row gets the label, `human_labeled` and `reviewed` true and the new timestamp; every other field and row is kept |
| Db.LabelUpdateIdempotent | app/services/db_service.py:178-189 | setting the same label twice equals setting it once at the later time |
| Db.RepeatedLabelOnlyTouchesTimestamp | app/services/db_service.py:178-189 | re-applying a label the row already has changes only `updated_at` |
| Db.ReviewedUpdateKeepsLabel | app/services/db_service.py:228-239 | only `reviewed` and `updated_at` change; label, `human_labeled` and other rows are kept |
| Db.ReviewedAfterLabelAddsNothing | app/services/db_service.py:228-239 | marking reviewed after a label update leaves what the label update alone leaves |
| Db.DatabaseService.GetTrainingData | app/services/db_service.py:35-146 | a fault or a negative limit/offset raises. Otherwise: the pagination block for the full match count, the page of matching rows in order, at most `limit` rows, each stored under its own `imdb_id`; the page query's text carries the built WHERE clause and the validated ORDER BY column and direction |
| Db.DatabaseService.UpdateLabel | app/services/db_service.py:153-199 | the table and result are those of `UpdateLabelOutcome`; the key invariant is kept |
| Db.DatabaseService.UpdateReviewed | app/services/db_service.py:204-249 | the table and result are those of `UpdateReviewedOutcome`; the key invariant is kept |
| Files.Resolved | app/services/file_service.py:33 | the entry a path names: it has no trailing `/` unless it is the root, and a non-empty path never resolves to the empty key |
| Files.RemoveTree | app/services/file_service.py:43-45 | `rmtree` removes the directory and exactly the entries beneath it |
| Files.Join | app/services/file_service.py:87-101 | an absolute component is the result; otherwise the prefix is kept and at most one `/` is added between the parts |
| Files.JoinAbsolute | app/services/file_service.py:87 | an absolute component discards the prefix |
| Files.JoinRelative | app/services/file_service.py:97 | a relative component is appended after the prefix, with at most one `/` between them |
| Files.DeletePathOutcome | app/services/file_service.py:23-57 | `exists` iff the path names an entry (empty path: nothing; trailing `/`: a directory only). `deleted` iff it names a file or directory whose removal does not raise; then it and, for a directory, everything under it are gone and nothing else is. Otherwise nothing changes, and the error is "Not a file or directory", `Permission denied: <path>` or the exception's text |
| Files.Run | app/services/file_service.py:106-111 | the deleted paths are a subsequence of the candidates, named an entry before and name none after. Entries only disappear and failures are unchanged. Nothing deleted means nothing changed |
| Files.RunRemovesOnlyUnderReported | app/services/file_service.py:43-45 | every entry that disappears lies under some reported path |
| Files.RunListsEveryRemoval | app/services/file_service.py:106-111 | a candidate that named an entry which is gone afterwards is reported, or lies under another reported path |
| Files.RunDeletedDistinct | app/services/file_service.py:106-111 | no path is reported deleted twice, even when it is a candidate twice |
| Files.RunLeavesOnlyBlocked | app/services/file_service.py:106-111 | every candidate is attempted: after the run, a surviving candidate is one that cannot be deleted |
| Files.RunDeletesSomething | app/services/file_service.py:106-111 | one removable candidate guarantees that something is deleted |
| Files.RunNothingPresent | app/services/file_service.py:106-111 | if no candidate exists, the state is unchanged and nothing is deleted |
| Files.RemovableWhenDeleted | app/services/file_service.py:108-110 | a deleted path was a removable file or directory at the start |
| Files.Candidates | app/services/file_service.py:83-103 | one to four candidates, the recorded path always among them, and only it when no root is configured |
| Files.CandidatesMembers | app/services/file_service.py:83-103 | the candidates are exactly the configured locations plus the recorded path. Incomplete comes before complete before library, and the recorded path is appended last unless already listed |
| Files.CandidatesAbsoluteTarget | app/services/file_service.py:87-101 | with an absolute target path every candidate is the target itself |
| Files.Config.LibraryBase | app/services/file_service.py:80 | the movies root iff the media type is `movie`; the TV root for any other value |
| Files.DeleteMediaOutcome | app/services/file_service.py:59-127 | always `success`. Disabled deletion changes nothing. `deleted` iff paths were listed, and they are a subsequence of the candidates. The message counts the paths or names the target |
| Files.DeleteMediaReportsRealDeletions | app/services/file_service.py:113-120 | the reported paths are distinct, named an entry before and name none after; every removed entry lies under a reported path |
| Files.DeleteMediaDeletedIff | app/services/file_service.py:106-127 | `deleted` iff some candidate was a removable file or directory |
| Files.DeleteMediaClearsCandidates | app/services/file_service.py:106-111 | every candidate that could be removed is gone afterwards |
| Files.DeleteMediaNothingFound | app/services/file_service.py:121-127 | with no candidate on disk, nothing changes and `deleted` is false |
| Files.EmptyTargetRemovesLibraryRoot | app/services/file_service.py:96-98 | with an empty target path the library candidate is the root followed by `/`, so the whole library root is removed and reported |
| Files.DeleteMediaTwice | app/services/file_service.py:106-127 | a second call deletes nothing and changes nothing |
| Files.InferMediaType | app/services/file_service.py:137 | the guess is `movie` or `tv` |
| Files.InferMediaTypeIsSubstringTest | app/services/file_service.py:137 | `movie` iff `/movies` occurs somewhere in the parent path |
| Files.FileService.constructor | app/services/file_service.py:16-21 | the three roots are stored without trailing `/` |
| Files.FileService.DeletePath | app/services/file_service.py:23-57 | the filesystem and result are those of `DeletePathOutcome` |
| Files.FileService.PathsToTry | app/services/file_service.py:83-103 | the appended list equals `Candidates` for the configured roots |
| Files.FileService.DeleteMedia | app/services/file_service.py:59-127 | the loop's state and result are those of `DeleteMediaOutcome`: every candidate is tried in order |
| Files.FileService.DeleteDirectory | app/services/file_service.py:130-138 | `delete_media` with the media type inferred from the parent path |
| Transmission.Lookup | app/services/transmission_service.py:70-73 | the lookup yields the stored name iff the hash is present and the lookup does not fail |
| Transmission.RemovalOutcome | app/services/transmission_service.py:55-106 | `found` implies success and holds iff there is no fault and the hash is present. Then exactly that torrent is removed and its name reported. Otherwise the daemon is unchanged, and a failure reports "Transmission error" or "Connection error" |
| Transmission.ExistsOutcome | app/services/transmission_service.py:45-53 | true iff neither creating the client nor the lookup raises and the hash is present |
| Transmission.ExistsIffRemovalFinds | app/services/transmission_service.py:45-53 | `torrent_exists` is true iff the hash is present, iff removal would find it |
| Transmission.ExistsFalseOnFailure | app/services/transmission_service.py:49-53 | any client or lookup failure answers false |
| Transmission.RemoveAbsentSucceeds | app/services/transmission_service.py:70-78 | an unknown hash gives success, not found, the not-found message and no change |
| Transmission.RemoveAbsentWithOtherError | app/services/transmission_service.py:99-106 | if the library raises another exception for an unknown hash, the call reports "Connection error" |
| Transmission.LookupErrorReadsAsNotFound | app/services/transmission_service.py:70-78 | a `TransmissionError` during the lookup reads as not found, even for a present torrent |
| Transmission.RemovalTouchesOnlyHash | app/services/transmission_service.py:80-89 | other torrents are untouched, and the hash is gone afterwards iff it was absent or found |
| Transmission.DeleteDataForwarded | app/services/transmission_service.py:80-81 | the data is deleted with the torrent exactly when `delete_data` is true |
| Transmission.RemoveTwice | app/services/transmission_service.py:66-89 | a second removal finds nothing and changes nothing |
| Transmission.TransmissionService.TorrentExists | app/services/transmission_service.py:35-53 | the answer is that of `ExistsOutcome`; true only for a present hash |
| Transmission.TransmissionService.RemoveTorrent | app/services/transmission_service.py:55-106 | daemon and result are those of `RemovalOutcome`, with `delete_data` defaulting to true |
| MoviesRouter.StrippedNonEmpty | app/routers/movies.py:81 | the kept ids are non-empty and are a subsequence of the stripped pieces |
| MoviesRouter.StrippedNonEmptyKeepsEveryId | app/routers/movies.py:81 | every non-empty stripped piece is kept, and there are exactly as many ids as non-blank pieces |
| MoviesRouter.StrippedAt | app/routers/movies.py:81 | the i-th stripped piece is the strip of the i-th piece |
| MoviesRouter.ParseImdbIds | app/routers/movies.py:78-81 | `None` iff the parameter is absent or empty; otherwise non-empty ids in the order of their pieces |
| MoviesRouter.ParsedIdsAreClean | app/routers/movies.py:81 | every parsed id is non-empty, contains no comma and has no whitespace at either end |
| MoviesRouter.ParseImdbIdsNoneIffEmpty | app/routers/movies.py:78-81 | `None` iff the parameter is absent or empty; `","` and `" , "` give an empty list |
| MoviesRouter.NoIdsFromBlankPieces | app/routers/movies.py:81 | pieces that all strip to nothing give no ids |
| MoviesRouter.ParseJoinedIds | app/routers/movies.py:78-81 | parsing a comma-join of clean ids gives those ids back |
| MoviesRouter.ParsePaddedIds | app/routers/movies.py:78-81 | comma-free pieces whose strips are non-empty ids parse, once joined, to exactly those ids |
| MoviesRouter.ParsesSpacedPair | app/routers/movies.py:78-81 | two clean ids typed as `a, b` give exactly `[a, b]` |
| MoviesRouter.GetMovies | app/routers/movies.py:74-106 | 422 iff a parameter is out of bounds. Otherwise the store's payload, or a 500 with "Failed to fetch movie data: " and the error |
| MoviesRouter.Forwarded | app/routers/movies.py:84-99 | the store receives the parsed id list and the paging and sort values as given |
| MoviesRouter.QueryWithinBounds | app/routers/movies.py:26-44 | the declared bounds: prediction 0..1, a confusion value, year 1850..2100, limit 1..1000, offset >= 0, an allow-listed sort field, `asc` or `desc` |
| MoviesRouter.BoundsAtTheEdges | app/routers/movies.py:26-44 | the defaults are accepted; a limit of 0 or 1001, offset -1 or sort order `ASC` is rejected, not clamped |
| TrainingRouter.ForwardedFilters | app/routers/training.py:24-31 | only media type and label are forwarded; the three flag filters are unset |
| TrainingRouter.UpdateLabelResponse | app/routers/training.py:39-60 | no body gives a server error; a mismatch gives "IMDB ID mismatch" with the table unchanged; otherwise the store's result unchanged |
| TrainingRouter.UpdateLabelChangesOnlyOnMatch | app/routers/training.py:48-58 | the table changes, and the answer is a success, only for a matching, existing id with no database failure |
| TrainingRouter.UpdateLabelPassesFailureThrough | app/routers/training.py:55-60 | the store's not-found result reaches the client unchanged |
| TrainingRouter.TrainingHandlers.UpdateLabel | app/routers/training.py:39-60 | store and response are those of `UpdateLabelResponse` |
| TrainingRouter.TrainingHandlers.ListTrainingData | app/routers/training.py:11-37 | 500 with "Database error occurred" iff the store raises. Otherwise the store's page for the forwarded filters |
| RejectScenarios.RejectOnce | test/test_file_deletion.py:368-402 | for either `delete_data`: after a rejection the label is `would_not_watch` with both flags set. A file is deleted iff a candidate was removable. A present torrent is removed, its data only when `delete_data` is true, and `torrent_exists` is false afterwards |
| RejectScenarios.RejectWithoutFiles | test/test_file_deletion.py:431-451 | with no file on disk the label is still set and the filesystem is untouched |
| RejectScenarios.RejectTwice | test/test_file_deletion.py:453-471 | for either `delete_data`, a second rejection succeeds and keeps the label; it deletes nothing more and finds no torrent |
| Strings.Split | app/routers/movies.py:81 | at least one piece; no piece contains the separator; joining the pieces gives the input back |
| Strings.SplitJoinWith | app/routers/movies.py:81 | splitting undoes joining on separator-free pieces |
| Strings.SplitPieceCount | app/routers/movies.py:81 | one more piece than separators |
| Strings.Strip | app/routers/movies.py:81 | never longer than its input (the ends it removes are stated by `StripIsTrimmedSlice`) |
| Strings.StripIsTrimmedSlice | app/routers/movies.py:81 | `strip()` gives a contiguous slice with only whitespace around it and none at its ends |
| Strings.StripEmptyIffAllSpace | app/routers/movies.py:81 | `strip()` is empty iff the string is all whitespace |
| Strings.RStripChar | app/services/file_service.py:19-21 | `rstrip('/')` removes exactly the trailing run of `/` |
| Strings.RStripCharIdempotent | app/services/file_service.py:19-21 | stripping twice strips nothing more |
| Strings.LowerAscii | app/services/db_service.py:106 | `lower()` maps each character, leaving the length |
| Strings.ContainsIffOccurs | app/services/file_service.py:137 | the `in` test holds iff the substring occurs at some index |
| Strings.IntToStringInjective | app/services/db_service.py:136-137 | distinct integers render to distinct texts |
| Strings.NatToStringRoundTrip | app/services/file_service.py:118 | the count rendered in the message reads back as that count |

## Left out

- Postgres connections, cursors, `search_path`, commit and close are not modelled. A failing connection or statement is a fault argument, and a rolled-back UPDATE leaves the table unchanged.
- SQL execution and collation: the order an `ORDER BY` produces is an argument. The model checks that only allow-listed tokens reach the ORDER BY text, not how Postgres sorts them.
- `NOW()`: the timestamp is an argument.
- Metadata and floating-point columns of `atp.training` (ratings, budget, probability) are not modelled. Only the columns the code filters on or updates are kept.
- `get_movie_data`, `get_media_data`, `get_prediction_data` and `get_flyway_schema_history` are not in the modelled store. `GetMovies` takes the store as a function argument.
- The media, prediction and flyway routers and `app/main.py` are framework plumbing and are not modelled. The same goes for the reject and soft-delete endpoints, whose step order the shown routers do not define. The rejection scenarios combine only the three modelled operations.
- `app/core/config.py`: the settings are constructor arguments.
- The Transmission client and network: the daemon is a map, and every RPC failure is a fault argument. Which exception the client library raises for an unknown hash is a service setting. With `TransmissionError` the call is "not found", a success; with anything else it is "Connection error" (both are stated).
- The filesystem calls are not modelled. A path names an entry after its trailing `/` are dropped, and a trailing `/` names only a directory; the empty path names nothing. Inside a path, `.`, `..` and doubled `/` are assumed absent, and symbolic links are not modelled.
- `shutil.rmtree` is all-or-nothing here: a directory removal that raises removes nothing, while the real call may have removed part of the tree before the error.
- `Files.DeletePathOutcome`: the outcome of each removal is a per-path record of the target; an error raised deep inside a tree is attributed to the tree's root.
- `str.lower()` is modelled on ASCII letters only. A non-ASCII letter in `sort_order` already falls back to `desc`, since no lowercase form of it is `asc` or `desc`.
- `MoviesRouter.QueryWithinBounds`: the `cm_value`, `sort_by` and `sort_order` patterns are modelled as exact membership. This is what a full-string match gives. A `$` that also matched before a final newline, depending on the validation library's regex engine, would additionally admit the value followed by `\n`.
- The `MediaType` and `LabelType` enumerations are not part of this model: their values reach the store as plain strings.
- Logging is not modelled.
