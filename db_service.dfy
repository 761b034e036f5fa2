/**
  The training-record store: the `atp.training` table as a map from
  `imdb_id` to its row, the filtered, sorted and paginated listing, and the
  two field updates (`update_label`, `update_reviewed`).

  The database itself is abstract. A failing connection or statement is an
  explicit fault argument; `NOW()` is a timestamp argument; the row order an
  `ORDER BY` produces is an argument that lists every key once.
 */
module Db {
  import opened Wrappers
  import opened Seqs
  import Strings

  /** An opaque server timestamp, the value `NOW()` had when a statement ran. */
  type Timestamp = nat

  /** A row of `atp.training`; the numeric and floating-point metadata columns are not modelled. */
  datatype TrainingRow = TrainingRow(
    imdbId: string,
    mediaType: string,
    mediaTitle: string,
    labelValue: string,
    humanLabeled: bool,
    anomalous: bool,
    reviewed: bool,
    createdAt: Timestamp,
    updatedAt: Timestamp)

  /** Every row is stored under its own `imdb_id`, the table's key. */
  ghost predicate KeyedByImdbId(rows: map<string, TrainingRow>) {
    forall k :: k in rows ==> rows[k].imdbId == k
  }

  // ---------------------------------------------------------------------------
  // Filtering: the WHERE clause and its bound parameters
  // ---------------------------------------------------------------------------

  /** The columns the listing can filter on, in the order the filters are examined. */
  datatype Column = MediaTypeColumn | LabelColumn | ReviewedColumn | HumanLabeledColumn | AnomalousColumn
  {
    function Name(): string {
      match this
      case MediaTypeColumn => "media_type"
      case LabelColumn => "label"
      case ReviewedColumn => "reviewed"
      case HumanLabeledColumn => "human_labeled"
      case AnomalousColumn => "anomalous"
    }

    /** Position of the column's `if` in the listing code. */
    function Rank(): (r: nat)
      ensures r < 5
    {
      match this
      case MediaTypeColumn => 0
      case LabelColumn => 1
      case ReviewedColumn => 2
      case HumanLabeledColumn => 3
      case AnomalousColumn => 4
    }

    predicate IsText() {
      this == MediaTypeColumn || this == LabelColumn
    }
  }

  /** A value bound to a `%s` placeholder. */
  datatype Param = Text(text: string) | Flag(flag: bool)

  /** The value a row holds in a filterable column. */
  function ColumnValue(row: TrainingRow, c: Column): Param {
    match c
    case MediaTypeColumn => Text(row.mediaType)
    case LabelColumn => Text(row.labelValue)
    case ReviewedColumn => Flag(row.reviewed)
    case HumanLabeledColumn => Flag(row.humanLabeled)
    case AnomalousColumn => Flag(row.anomalous)
  }

  /** A parameter of the kind its column holds. */
  predicate Fits(c: Column, p: Param) {
    if c.IsText() then p.Text? else p.Flag?
  }

  /** The optional filters of `get_training_data`. */
  datatype TrainingFilters = TrainingFilters(
    mediaType: Option<string>,
    labelValue: Option<string>,
    reviewed: Option<bool>,
    humanLabeled: Option<bool>,
    anomalous: Option<bool>)

  /** Python truthiness of an optional string: present and not empty. */
  predicate Truthy(s: Option<string>) {
    s.Some? && s.value != ""
  }

  /**
    Reference reading of the filters: a string filter applies only when it is
    truthy, a boolean filter whenever it is not `None` (so `False` filters too).
   */
  predicate MatchesFilters(row: TrainingRow, f: TrainingFilters) {
    && (Truthy(f.mediaType) ==> row.mediaType == f.mediaType.value)
    && (Truthy(f.labelValue) ==> row.labelValue == f.labelValue.value)
    && (f.reviewed.Some? ==> row.reviewed == f.reviewed.value)
    && (f.humanLabeled.Some? ==> row.humanLabeled == f.humanLabeled.value)
    && (f.anomalous.Some? ==> row.anomalous == f.anomalous.value)
  }

  /** How the database evaluates `WHERE c0 = %s AND c1 = %s ...` with `params` bound in order. */
  predicate SatisfiesWhere(row: TrainingRow, clauses: seq<Column>, params: seq<Param>)
    requires |clauses| == |params|
  {
    forall i :: 0 <= i < |clauses| ==> ColumnValue(row, clauses[i]) == params[i]
  }

  lemma SatisfiesWhereAppend(row: TrainingRow, clauses: seq<Column>, params: seq<Param>, c: Column, p: Param)
    requires |clauses| == |params|
    ensures SatisfiesWhere(row, clauses + [c], params + [p])
      <==> SatisfiesWhere(row, clauses, params) && ColumnValue(row, c) == p
  {
    if SatisfiesWhere(row, clauses, params) && ColumnValue(row, c) == p {
      forall i | 0 <= i < |clauses| + 1 ensures ColumnValue(row, (clauses + [c])[i]) == (params + [p])[i] {
        if i < |clauses| {
          assert (clauses + [c])[i] == clauses[i];
          assert (params + [p])[i] == params[i];
        }
      }
    }
    if SatisfiesWhere(row, clauses + [c], params + [p]) {
      forall i | 0 <= i < |clauses| ensures ColumnValue(row, clauses[i]) == params[i] {
        assert (clauses + [c])[i] == clauses[i];
        assert (params + [p])[i] == params[i];
      }
      assert (clauses + [c])[|clauses|] == c;
    }
  }

  /** The columns of `clauses` appear in strictly increasing rank: fixed order, none twice. */
  predicate InColumnOrder(clauses: seq<Column>) {
    forall i, j :: 0 <= i < j < |clauses| ==> clauses[i].Rank() < clauses[j].Rank()
  }

  /** Whether the listing adds a clause for column `c` given the filters. */
  predicate Applies(c: Column, f: TrainingFilters) {
    match c
    case MediaTypeColumn => Truthy(f.mediaType)
    case LabelColumn => Truthy(f.labelValue)
    case ReviewedColumn => f.reviewed.Some?
    case HumanLabeledColumn => f.humanLabeled.Some?
    case AnomalousColumn => f.anomalous.Some?
  }

  /** The parameter the listing binds for column `c`: the filter's own value. */
  function FilterParam(c: Column, f: TrainingFilters): Param
    requires Applies(c, f)
  {
    match c
    case MediaTypeColumn => Text(f.mediaType.value)
    case LabelColumn => Text(f.labelValue.value)
    case ReviewedColumn => Flag(f.reviewed.value)
    case HumanLabeledColumn => Flag(f.humanLabeled.value)
    case AnomalousColumn => Flag(f.anomalous.value)
  }

  /** The filters of rank below `n` that apply all hold for `row`. */
  ghost predicate MatchesUpTo(row: TrainingRow, f: TrainingFilters, n: nat) {
    forall c: Column :: c.Rank() < n && Applies(c, f) ==> ColumnValue(row, c) == FilterParam(c, f)
  }

  lemma MatchesAllFilters(row: TrainingRow, f: TrainingFilters)
    ensures MatchesUpTo(row, f, 5) <==> MatchesFilters(row, f)
  {
    if MatchesFilters(row, f) {
      forall c: Column | c.Rank() < 5 && Applies(c, f) ensures ColumnValue(row, c) == FilterParam(c, f) {
      }
    }
    if MatchesUpTo(row, f, 5) {
      assert Applies(MediaTypeColumn, f) ==> ColumnValue(row, MediaTypeColumn) == FilterParam(MediaTypeColumn, f);
      assert Applies(LabelColumn, f) ==> ColumnValue(row, LabelColumn) == FilterParam(LabelColumn, f);
      assert Applies(ReviewedColumn, f) ==> ColumnValue(row, ReviewedColumn) == FilterParam(ReviewedColumn, f);
      assert Applies(HumanLabeledColumn, f) ==> ColumnValue(row, HumanLabeledColumn) == FilterParam(HumanLabeledColumn, f);
      assert Applies(AnomalousColumn, f) ==> ColumnValue(row, AnomalousColumn) == FilterParam(AnomalousColumn, f);
    }
  }

  /** The state of the clause list once the filters of rank below `n` have been examined. */
  ghost predicate Built(clauses: seq<Column>, params: seq<Param>, f: TrainingFilters, n: nat) {
    && |clauses| == |params|
    && (forall i :: 0 <= i < |clauses| ==> clauses[i].Rank() < n && Fits(clauses[i], params[i]))
    && InColumnOrder(clauses)
    && (forall c: Column :: c in clauses <==> c.Rank() < n && Applies(c, f))
    && (forall row :: SatisfiesWhere(row, clauses, params) <==> MatchesUpTo(row, f, n))
  }

  /** Examining the filter for column `c`: append its clause and parameter together, or nothing. */
  lemma BuiltStep(clauses: seq<Column>, params: seq<Param>, clauses': seq<Column>, params': seq<Param>,
                  f: TrainingFilters, c: Column)
    requires Built(clauses, params, f, c.Rank())
    requires Applies(c, f) ==> clauses' == clauses + [c] && params' == params + [FilterParam(c, f)]
    requires !Applies(c, f) ==> clauses' == clauses && params' == params
    ensures Built(clauses', params', f, c.Rank() + 1)
  {
    ShapeStep(clauses, params, clauses', params', f, c);
    forall row ensures SatisfiesWhere(row, clauses', params') <==> MatchesUpTo(row, f, c.Rank() + 1) {
      RowStep(row, clauses, params, clauses', params', f, c);
    }
  }

  /** One step keeps the clause list's shape: lengths, ranks, order and membership. */
  lemma ShapeStep(clauses: seq<Column>, params: seq<Param>, clauses': seq<Column>, params': seq<Param>,
                  f: TrainingFilters, c: Column)
    requires |clauses| == |params|
    requires forall i :: 0 <= i < |clauses| ==> clauses[i].Rank() < c.Rank() && Fits(clauses[i], params[i])
    requires InColumnOrder(clauses)
    requires forall d: Column :: d in clauses <==> d.Rank() < c.Rank() && Applies(d, f)
    requires Applies(c, f) ==> clauses' == clauses + [c] && params' == params + [FilterParam(c, f)]
    requires !Applies(c, f) ==> clauses' == clauses && params' == params
    ensures |clauses'| == |params'|
    ensures forall i :: 0 <= i < |clauses'| ==> clauses'[i].Rank() < c.Rank() + 1 && Fits(clauses'[i], params'[i])
    ensures InColumnOrder(clauses')
    ensures forall d: Column :: d in clauses' <==> d.Rank() < c.Rank() + 1 && Applies(d, f)
  {
    var n := c.Rank();
    if Applies(c, f) {
      forall i | 0 <= i < |clauses'| ensures clauses'[i].Rank() < n + 1 && Fits(clauses'[i], params'[i]) {
        if i < |clauses| {
          assert clauses'[i] == clauses[i] && params'[i] == params[i];
        }
      }
    }
    forall d: Column ensures d in clauses' <==> d.Rank() < n + 1 && Applies(d, f) {
      if d.Rank() == n {
        assert d == c;
      }
    }
  }

  /** One step keeps the meaning of the WHERE clause for a given row. */
  lemma RowStep(row: TrainingRow, clauses: seq<Column>, params: seq<Param>, clauses': seq<Column>, params': seq<Param>,
                f: TrainingFilters, c: Column)
    requires |clauses| == |params|
    requires SatisfiesWhere(row, clauses, params) <==> MatchesUpTo(row, f, c.Rank())
    requires Applies(c, f) ==> clauses' == clauses + [c] && params' == params + [FilterParam(c, f)]
    requires !Applies(c, f) ==> clauses' == clauses && params' == params
    ensures |clauses'| == |params'|
    ensures SatisfiesWhere(row, clauses', params') <==> MatchesUpTo(row, f, c.Rank() + 1)
  {
    if Applies(c, f) {
      SatisfiesWhereAppend(row, clauses, params, c, FilterParam(c, f));
    }
    MatchesUpToStep(row, f, c);
  }

  /** Raising the bound past `c` adds exactly `c`'s filter. */
  lemma MatchesUpToStep(row: TrainingRow, f: TrainingFilters, c: Column)
    ensures MatchesUpTo(row, f, c.Rank() + 1)
      <==> MatchesUpTo(row, f, c.Rank()) && (Applies(c, f) ==> ColumnValue(row, c) == FilterParam(c, f))
  {
    var n := c.Rank();
    if MatchesUpTo(row, f, n) && (Applies(c, f) ==> ColumnValue(row, c) == FilterParam(c, f)) {
      forall d: Column | d.Rank() < n + 1 && Applies(d, f) ensures ColumnValue(row, d) == FilterParam(d, f) {
        if d != c {
          assert d.Rank() != n;
        }
      }
    }
  }

  /** The column whose filter is examined `k`-th. */
  function ColumnAt(k: nat): (c: Column)
    requires k < 5
    ensures c.Rank() == k
  {
    [MediaTypeColumn, LabelColumn, ReviewedColumn, HumanLabeledColumn, AnomalousColumn][k]
  }

  /** The clauses and parameters collected once the first `n` filters have been examined. */
  function Examined(f: TrainingFilters, n: nat): (seq<Column>, seq<Param>)
    requires n <= 5
  {
    if n == 0 then ([], [])
    else
      var (clauses, params) := Examined(f, n - 1);
      var c := ColumnAt(n - 1);
      if Applies(c, f) then (clauses + [c], params + [FilterParam(c, f)]) else (clauses, params)
  }

  lemma {:induction false} ExaminedIsBuilt(f: TrainingFilters, n: nat)
    requires n <= 5
    ensures Built(Examined(f, n).0, Examined(f, n).1, f, n)
  {
    if n > 0 {
      ExaminedIsBuilt(f, n - 1);
      var (clauses, params) := Examined(f, n - 1);
      BuiltStep(clauses, params, Examined(f, n).0, Examined(f, n).1, f, ColumnAt(n - 1));
    }
  }

  /**
    The WHERE clause construction of `get_training_data`: one clause and one
    parameter per applied filter, appended together, in the order the filters
    are examined. The clauses hold constant column names; every value goes
    into `params`.
   */
  method BuildWhereClauses(f: TrainingFilters) returns (clauses: seq<Column>, params: seq<Param>)
    ensures (clauses, params) == Examined(f, 5)
    ensures |clauses| == |params|
    ensures forall i :: 0 <= i < |clauses| ==> Fits(clauses[i], params[i])
    ensures InColumnOrder(clauses)
    ensures forall c: Column :: c in clauses <==> Applies(c, f)
    ensures forall row :: SatisfiesWhere(row, clauses, params) <==> MatchesFilters(row, f)
  {
    clauses, params := [], [];
    if f.mediaType.Some? && f.mediaType.value != "" {
      clauses, params := clauses + [MediaTypeColumn], params + [Text(f.mediaType.value)];
    }
    assert (clauses, params) == Examined(f, 1);
    if f.labelValue.Some? && f.labelValue.value != "" {
      clauses, params := clauses + [LabelColumn], params + [Text(f.labelValue.value)];
    }
    assert (clauses, params) == Examined(f, 2);
    if f.reviewed.Some? {
      clauses, params := clauses + [ReviewedColumn], params + [Flag(f.reviewed.value)];
    }
    assert (clauses, params) == Examined(f, 3);
    if f.humanLabeled.Some? {
      clauses, params := clauses + [HumanLabeledColumn], params + [Flag(f.humanLabeled.value)];
    }
    assert (clauses, params) == Examined(f, 4);
    if f.anomalous.Some? {
      clauses, params := clauses + [AnomalousColumn], params + [Flag(f.anomalous.value)];
    }
    assert (clauses, params) == Examined(f, 5);
    ExaminedMeansFilters(f);
  }

  /** Once all five filters have been examined, the collected clauses say exactly what the filters say. */
  lemma ExaminedMeansFilters(f: TrainingFilters)
    ensures var (clauses, params) := Examined(f, 5);
      && |clauses| == |params|
      && (forall i :: 0 <= i < |clauses| ==> Fits(clauses[i], params[i]))
      && InColumnOrder(clauses)
      && (forall c: Column :: c in clauses <==> Applies(c, f))
      && (forall row :: SatisfiesWhere(row, clauses, params) <==> MatchesFilters(row, f))
  {
    ExaminedIsBuilt(f, 5);
    BuiltAll(Examined(f, 5).0, Examined(f, 5).1, f);
  }

  /** Once all five filters have been examined, the clauses are exactly the applied filters. */
  lemma BuiltAll(clauses: seq<Column>, params: seq<Param>, f: TrainingFilters)
    requires Built(clauses, params, f, 5)
    ensures forall c: Column :: c in clauses <==> Applies(c, f)
    ensures forall row :: SatisfiesWhere(row, clauses, params) <==> MatchesFilters(row, f)
  {
    forall c: Column ensures c in clauses <==> Applies(c, f) {
      assert c.Rank() < 5;
    }
    forall row ensures SatisfiesWhere(row, clauses, params) <==> MatchesFilters(row, f) {
      MatchesAllFilters(row, f);
    }
  }

  /** `" AND ".join(...)` of the clause texts `column = %s`. */
  function JoinAnd(clauses: seq<Column>): string
    requires |clauses| >= 1
  {
    if |clauses| == 1 then clauses[0].Name() + " = %s"
    else clauses[0].Name() + " = %s AND " + JoinAnd(clauses[1..])
  }

  /** The WHERE text: empty when there are no clauses. */
  function WhereText(clauses: seq<Column>): string {
    if clauses == [] then "" else "WHERE " + JoinAnd(clauses)
  }

  // ---------------------------------------------------------------------------
  // Sorting: the only values placed into the query text
  // ---------------------------------------------------------------------------

  /** The 21 columns `sort_by` may name. */
  const SortFields: seq<string> := [
    "created_at", "updated_at", "media_title", "release_year",
    "media_type", "label", "imdb_id", "tmdb_id", "budget",
    "revenue", "runtime", "original_language", "tmdb_rating",
    "tmdb_votes", "rt_score", "metascore", "imdb_rating",
    "imdb_votes", "human_labeled", "anomalous", "reviewed"]

  /** `sort_by` after validation: itself when allow-listed (case-sensitively), otherwise `created_at`. */
  function EffectiveSortBy(sortBy: string): (r: string)
    ensures r in SortFields
  {
    if sortBy in SortFields then sortBy else "created_at"
  }

  /** `sort_order` after validation: lowercased, and `desc` unless that gives `asc` or `desc`. */
  function EffectiveSortOrder(sortOrder: string): (r: string)
    ensures r == "asc" || r == "desc"
  {
    var lowered := Strings.LowerAscii(sortOrder);
    if lowered == "asc" || lowered == "desc" then lowered else "desc"
  }

  /** The page query with its ORDER BY; LIMIT and OFFSET stay placeholders. */
  function DataQueryText(clauses: seq<Column>, sortBy: string, sortOrder: string): string {
    "SELECT * FROM atp.training " + WhereText(clauses)
      + " ORDER BY " + sortBy + " " + sortOrder + " LIMIT %s OFFSET %s"
  }

  /**
    The sort values placed into the ORDER BY text are always allow-listed,
    whatever the caller sent: an allow-listed `sort_by` is kept, anything
    else (compared case-sensitively) becomes `created_at`.
   */
  lemma SortTokensAreAllowListed(sortBy: string, sortOrder: string)
    ensures EffectiveSortBy(sortBy) in SortFields
    ensures EffectiveSortOrder(sortOrder) in {"asc", "desc"}
    ensures sortBy in SortFields ==> EffectiveSortBy(sortBy) == sortBy
    ensures sortBy !in SortFields ==> EffectiveSortBy(sortBy) == "created_at"
  {
  }

  /** The text of the query does not depend on a rejected `sort_by`: any two rejected values give the same query. */
  lemma RejectedSortByNeverReachesQuery(clauses: seq<Column>, s1: string, s2: string, sortOrder: string)
    requires s1 !in SortFields && s2 !in SortFields
    ensures DataQueryText(clauses, EffectiveSortBy(s1), EffectiveSortOrder(sortOrder))
         == DataQueryText(clauses, EffectiveSortBy(s2), EffectiveSortOrder(sortOrder))
  {
  }

  /** `sort_order` is case-insensitive: `"ASC"` and `"asc"` sort the same way, and anything else is `desc`. */
  lemma SortOrderIgnoresCase(o1: string, o2: string)
    requires Strings.LowerAscii(o1) == Strings.LowerAscii(o2)
    ensures EffectiveSortOrder(o1) == EffectiveSortOrder(o2)
    ensures EffectiveSortOrder("ASC") == "asc" && EffectiveSortOrder("Desc") == "desc"
    ensures EffectiveSortOrder("ascending") == "desc"
  {
    assert Strings.LowerAscii("ASC") == "asc";
    assert Strings.LowerAscii("Desc") == "desc";
    assert Strings.LowerAscii("ascending") == "ascending";
  }

  /** Validating an already validated sort is a no-op. */
  lemma SortValidationIdempotent(sortBy: string, sortOrder: string)
    ensures EffectiveSortBy(EffectiveSortBy(sortBy)) == EffectiveSortBy(sortBy)
    ensures EffectiveSortOrder(EffectiveSortOrder(sortOrder)) == EffectiveSortOrder(sortOrder)
  {
    assert Strings.LowerAscii("asc") == "asc";
    assert Strings.LowerAscii("desc") == "desc";
  }

  // ---------------------------------------------------------------------------
  // Pagination
  // ---------------------------------------------------------------------------

  /** A `next` / `previous` link: `/rear-diff/training?offset=<offset>&limit=<limit>`. */
  datatype PageLink = PageLink(offset: int, limit: int)
  {
    function Url(): string {
      "/rear-diff/training?offset=" + Strings.IntToString(offset) + "&limit=" + Strings.IntToString(limit)
    }
  }

  /** The link text is the fixed path, the offset, an `&` and the limit part; the offset has no `&` in it. */
  lemma UrlParts(link: PageLink)
    ensures link.Url() == "/rear-diff/training?offset=" + (Strings.IntToString(link.offset) + ['&'] + ("limit=" + Strings.IntToString(link.limit)))
    ensures '&' !in Strings.IntToString(link.offset)
  {
  }

  /** The link text names its page: two links read the same exactly when they have the same offset and limit. */
  lemma LinkUrlIdentifiesPage(a: PageLink, b: PageLink)
    ensures a.Url() == b.Url() <==> a == b
  {
    if a.Url() == b.Url() {
      var oa, la := Strings.IntToString(a.offset), Strings.IntToString(a.limit);
      var ob, lb := Strings.IntToString(b.offset), Strings.IntToString(b.limit);
      UrlParts(a);
      UrlParts(b);
      Strings.CancelPrefix("/rear-diff/training?offset=", oa + ['&'] + ("limit=" + la), ob + ['&'] + ("limit=" + lb));
      Strings.SplitAtFirst(oa, "limit=" + la, ob, "limit=" + lb, '&');
      Strings.CancelPrefix("limit=", la, lb);
      Strings.IntToStringInjective(a.offset, b.offset);
      Strings.IntToStringInjective(a.limit, b.limit);
    }
  }

  datatype Pagination = Pagination(total: nat, limit: int, offset: int, next: Option<PageLink>, previous: Option<PageLink>)

  /** The pagination block: `next` while rows remain past this page, `previous` whenever the offset is positive. */
  function Paginate(total: nat, limit: int, offset: int): (r: Pagination)
    ensures r.total == total && r.limit == limit && r.offset == offset
    ensures r.next.Some? <==> offset + limit < total
    ensures r.next.Some? ==> r.next.value.offset < total && r.next.value.offset - limit == offset && r.next.value.limit == limit
    ensures r.previous.Some? <==> offset > 0
    ensures r.previous.Some? ==> r.previous.value.offset + limit == offset && r.previous.value.limit == limit
  {
    Pagination(total, limit, offset,
      if offset + limit < total then Some(PageLink(offset + limit, limit)) else None,
      if offset > 0 then Some(PageLink(offset - limit, limit)) else None)
  }

  /** Following `next` and then `previous` returns to the same page. */
  lemma NextThenPrevious(total: nat, limit: int, offset: int)
    requires Paginate(total, limit, offset).next.Some?
    requires offset + limit > 0
    ensures var n := Paginate(total, limit, offset).next.value;
      n.offset == offset + limit && n.limit == limit &&
      Paginate(total, n.limit, n.offset).previous == Some(PageLink(offset, limit))
  {
  }

  /** Following `previous` and then `next` returns to the same page when that page starts inside the result. */
  lemma PreviousThenNext(total: nat, limit: int, offset: int)
    requires Paginate(total, limit, offset).previous.Some?
    requires offset < total
    ensures var p := Paginate(total, limit, offset).previous.value;
      p.offset == offset - limit &&
      Paginate(total, p.limit, p.offset).next == Some(PageLink(offset, limit))
  {
  }

  /** `previous` is not clamped: from a positive offset below the limit it points at a negative offset. */
  lemma PreviousCanBeNegative(total: nat, limit: int, offset: int)
    requires 0 < offset < limit
    ensures Paginate(total, limit, offset).previous == Some(PageLink(offset - limit, limit))
    ensures Paginate(total, limit, offset).previous.value.offset < 0
  {
  }

  /** The last page has no `next`, the first no `previous`. */
  lemma PaginationEnds(total: nat, limit: int, offset: int)
    ensures offset + limit >= total <==> Paginate(total, limit, offset).next.None?
    ensures offset <= 0 <==> Paginate(total, limit, offset).previous.None?
  {
  }

  // ---------------------------------------------------------------------------
  // Query results
  // ---------------------------------------------------------------------------

  /** `ordering` is an answer to the ORDER BY: every key of the table, each exactly once. */
  ghost predicate IsOrderingOf(ordering: seq<string>, rows: map<string, TrainingRow>) {
    Distinct(ordering) && (forall k :: k in ordering <==> k in rows)
  }

  /** The keys of `ordering` whose rows match the filters, in that order. */
  function Selected(ordering: seq<string>, rows: map<string, TrainingRow>, f: TrainingFilters): (r: seq<string>)
    requires forall k :: k in ordering ==> k in rows
    ensures forall k :: k in r ==> k in rows && MatchesFilters(rows[k], f)
    ensures IsSubsequence(r, ordering)
  {
    if ordering == [] then []
    else
      var init := ordering[..|ordering| - 1];
      var last := ordering[|ordering| - 1];
      assert forall k :: k in init ==> k in ordering;
      var front := Selected(init, rows, f);
      assert ordering == init + [last];
      if MatchesFilters(rows[last], f) then
        SubsequenceAppendBoth(front, init, last);
        front + [last]
      else
        SubsequenceOfPrefix(front, init, last);
        front
  }

  /** The rows the database returns for `WHERE` with the built clauses, in `ordering`. */
  function SelectWhere(ordering: seq<string>, rows: map<string, TrainingRow>, clauses: seq<Column>, params: seq<Param>): seq<string>
    requires forall k :: k in ordering ==> k in rows
    requires |clauses| == |params|
  {
    if ordering == [] then []
    else
      var init := ordering[..|ordering| - 1];
      var last := ordering[|ordering| - 1];
      assert forall k :: k in init ==> k in ordering;
      SelectWhere(init, rows, clauses, params)
        + (if SatisfiesWhere(rows[last], clauses, params) then [last] else [])
  }

  /** When the WHERE clause means the filters, the database selects exactly `Selected`. */
  lemma {:induction false} SelectWhereIsSelected(ordering: seq<string>, rows: map<string, TrainingRow>, f: TrainingFilters, clauses: seq<Column>, params: seq<Param>)
    requires forall k :: k in ordering ==> k in rows
    requires |clauses| == |params|
    requires forall row :: SatisfiesWhere(row, clauses, params) <==> MatchesFilters(row, f)
    ensures SelectWhere(ordering, rows, clauses, params) == Selected(ordering, rows, f)
  {
    if ordering != [] {
      var init := ordering[..|ordering| - 1];
      assert forall k :: k in init ==> k in ordering;
      SelectWhereIsSelected(init, rows, f, clauses, params);
    }
  }

  /** The keys of the table whose rows match, as a set. */
  ghost function MatchingKeys(rows: map<string, TrainingRow>, f: TrainingFilters): set<string> {
    set k | k in rows && MatchesFilters(rows[k], f)
  }

  /** The listed keys whose rows match, as a set. */
  ghost function ListedMatches(ordering: seq<string>, rows: map<string, TrainingRow>, f: TrainingFilters): set<string>
    requires forall k :: k in ordering ==> k in rows
  {
    set k | k in ordering && MatchesFilters(rows[k], f)
  }

  /** Listing one more key adds it to the matching set exactly when its row matches. */
  lemma ListedMatchesStep(ordering: seq<string>, rows: map<string, TrainingRow>, f: TrainingFilters)
    requires ordering != []
    requires forall k :: k in ordering ==> k in rows
    ensures forall k :: k in ordering[..|ordering| - 1] ==> k in rows
    ensures ListedMatches(ordering, rows, f)
      == ListedMatches(ordering[..|ordering| - 1], rows, f)
         + (if MatchesFilters(rows[ordering[|ordering| - 1]], f) then {ordering[|ordering| - 1]} else {})
  {
    InitLast(ordering);
  }

  /** Selecting from a duplicate-free listing yields as many keys as match among the listed ones. */
  lemma {:induction false} SelectedCount(ordering: seq<string>, rows: map<string, TrainingRow>, f: TrainingFilters)
    requires forall k :: k in ordering ==> k in rows
    requires Distinct(ordering)
    ensures |Selected(ordering, rows, f)| == |ListedMatches(ordering, rows, f)|
  {
    if ordering != [] {
      var init := ordering[..|ordering| - 1];
      var last := ordering[|ordering| - 1];
      ListedMatchesStep(ordering, rows, f);
      DistinctInit(ordering);
      SelectedCount(init, rows, f);
      assert last !in ListedMatches(init, rows, f);
    }
  }

  /** `total` counts every matching row of the table, whatever the order, limit or offset. */
  lemma SelectedCountsAllMatches(ordering: seq<string>, rows: map<string, TrainingRow>, f: TrainingFilters)
    requires IsOrderingOf(ordering, rows)
    ensures |Selected(ordering, rows, f)| == |MatchingKeys(rows, f)|
  {
    SelectedCount(ordering, rows, f);
    assert ListedMatches(ordering, rows, f) == MatchingKeys(rows, f);
  }

  /** `LIMIT limit OFFSET offset` applied to a result. */
  function Window<T>(s: seq<T>, offset: nat, limit: nat): (r: seq<T>)
    ensures |r| <= limit
    ensures forall x :: x in r ==> x in s
  {
    var start := if offset < |s| then offset else |s|;
    var end := if offset + limit < |s| then offset + limit else |s|;
    s[start..end]
  }

  /** Consecutive pages of a duplicate-free result share no row. */
  lemma ConsecutivePagesDisjoint<T>(s: seq<T>, offset: nat, limit: nat)
    requires Distinct(s)
    ensures forall x :: x in Window(s, offset, limit) ==> x !in Window(s, offset + limit, limit)
  {
    var a := Window(s, offset, limit);
    var b := Window(s, offset + limit, limit);
    var aStart := if offset < |s| then offset else |s|;
    var bStart := if offset + limit < |s| then offset + limit else |s|;
    forall i, j | 0 <= i < |a| && 0 <= j < |b| ensures a[i] != b[j] {
      assert a[i] == s[aStart + i] && b[j] == s[bStart + j];
    }
  }

  /** The rows stored under `keys`, in order. */
  function RowsOf(keys: seq<string>, rows: map<string, TrainingRow>): (r: seq<TrainingRow>)
    requires forall k :: k in keys ==> k in rows
    ensures |r| == |keys|
    ensures forall i :: 0 <= i < |keys| ==> r[i] == rows[keys[i]]
  {
    seq(|keys|, i requires 0 <= i < |keys| => rows[keys[i]])
  }

  /** Every row on a page of the listing matches the filters. */
  lemma PageRowsMatch(ordering: seq<string>, rows: map<string, TrainingRow>, f: TrainingFilters, offset: nat, limit: nat)
    requires forall k :: k in ordering ==> k in rows
    ensures forall row :: row in RowsOf(Window(Selected(ordering, rows, f), offset, limit), rows) ==> MatchesFilters(row, f)
  {
    var keys := Window(Selected(ordering, rows, f), offset, limit);
    var page := RowsOf(keys, rows);
    forall row | row in page ensures MatchesFilters(row, f) {
      var i :| 0 <= i < |page| && page[i] == row;
      assert keys[i] in keys;
    }
  }

  /** A page of the listing. */
  datatype TrainingPage = TrainingPage(data: seq<TrainingRow>, pagination: Pagination)

  // ---------------------------------------------------------------------------
  // Field updates
  // ---------------------------------------------------------------------------

  /** The dictionary `update_label` / `update_reviewed` return. */
  datatype UpdateResult = UpdateResult(success: bool, error: Option<string>, message: string)

  /** Where a database failure strikes: before the existence check, or at the UPDATE/commit. */
  datatype DbFault = NoFault | ConnectionFails(message: string) | WriteFails(message: string)

  function NotFoundResult(imdbId: string): UpdateResult {
    UpdateResult(false, Some("Training data not found"), "No training data found with IMDB ID: " + imdbId)
  }

  function DatabaseErrorResult(message: string): UpdateResult {
    UpdateResult(false, Some("Database error"), message)
  }

  /** The row after `SET label = %s, human_labeled = TRUE, reviewed = TRUE, updated_at = NOW()`. */
  function LabelUpdated(rows: map<string, TrainingRow>, imdbId: string, labelValue: string, now: Timestamp): map<string, TrainingRow>
    requires imdbId in rows
  {
    rows[imdbId := rows[imdbId].(labelValue := labelValue, humanLabeled := true, reviewed := true, updatedAt := now)]
  }

  /** The row after `SET reviewed = TRUE, updated_at = NOW()`. */
  function ReviewedUpdated(rows: map<string, TrainingRow>, imdbId: string, now: Timestamp): map<string, TrainingRow>
    requires imdbId in rows
  {
    rows[imdbId := rows[imdbId].(reviewed := true, updatedAt := now)]
  }

  /** The table and the result after `update_label`. */
  function UpdateLabelOutcome(rows: map<string, TrainingRow>, imdbId: string, labelValue: string, now: Timestamp, fault: DbFault)
    : (out: (map<string, TrainingRow>, UpdateResult))
    ensures out.1.success <==> fault == NoFault && imdbId in rows
    ensures !out.1.success ==> out.0 == rows
    ensures out.1.success ==> out.0 == LabelUpdated(rows, imdbId, labelValue, now)
    ensures out.1 == NotFoundResult(imdbId) <==> !fault.ConnectionFails? && imdbId !in rows
    ensures out.1.error == Some("Database error") <==> fault.ConnectionFails? || (fault.WriteFails? && imdbId in rows)
  {
    if fault.ConnectionFails? then (rows, DatabaseErrorResult(fault.message))
    else if imdbId !in rows then (rows, NotFoundResult(imdbId))
    else if fault.WriteFails? then (rows, DatabaseErrorResult(fault.message))
    else (LabelUpdated(rows, imdbId, labelValue, now), UpdateResult(true, None, "Label updated successfully"))
  }

  /** The table and the result after `update_reviewed`. */
  function UpdateReviewedOutcome(rows: map<string, TrainingRow>, imdbId: string, now: Timestamp, fault: DbFault)
    : (out: (map<string, TrainingRow>, UpdateResult))
    ensures out.1.success <==> fault == NoFault && imdbId in rows
    ensures !out.1.success ==> out.0 == rows
    ensures out.1.success ==> out.0 == ReviewedUpdated(rows, imdbId, now)
    ensures out.1 == NotFoundResult(imdbId) <==> !fault.ConnectionFails? && imdbId !in rows
    ensures out.1.error == Some("Database error") <==> fault.ConnectionFails? || (fault.WriteFails? && imdbId in rows)
  {
    if fault.ConnectionFails? then (rows, DatabaseErrorResult(fault.message))
    else if imdbId !in rows then (rows, NotFoundResult(imdbId))
    else if fault.WriteFails? then (rows, DatabaseErrorResult(fault.message))
    else (ReviewedUpdated(rows, imdbId, now), UpdateResult(true, None, "Reviewed status updated successfully"))
  }

  /** Setting a label always marks the row human-labeled and reviewed, and touches no other row. */
  lemma LabelUpdateForcesFlags(rows: map<string, TrainingRow>, imdbId: string, labelValue: string, now: Timestamp)
    requires imdbId in rows
    ensures var after := LabelUpdated(rows, imdbId, labelValue, now);
      && after.Keys == rows.Keys
      && after[imdbId].labelValue == labelValue && after[imdbId].humanLabeled && after[imdbId].reviewed
      && after[imdbId].updatedAt == now
      && after[imdbId].(labelValue := rows[imdbId].labelValue, humanLabeled := rows[imdbId].humanLabeled,
                        reviewed := rows[imdbId].reviewed, updatedAt := rows[imdbId].updatedAt) == rows[imdbId]
      && (forall k :: k in rows && k != imdbId ==> after[k] == rows[k])
    ensures KeyedByImdbId(rows) ==> KeyedByImdbId(LabelUpdated(rows, imdbId, labelValue, now))
  {
  }

  /** Setting the same label twice is the same as setting it once, at the later time. */
  lemma LabelUpdateIdempotent(rows: map<string, TrainingRow>, imdbId: string, labelValue: string, t1: Timestamp, t2: Timestamp)
    requires imdbId in rows
    ensures LabelUpdated(LabelUpdated(rows, imdbId, labelValue, t1), imdbId, labelValue, t2) == LabelUpdated(rows, imdbId, labelValue, t2)
  {
  }

  /** Re-applying a label a row already carries changes nothing but `updated_at`. */
  lemma RepeatedLabelOnlyTouchesTimestamp(rows: map<string, TrainingRow>, imdbId: string, labelValue: string, now: Timestamp)
    requires imdbId in rows
    requires rows[imdbId].labelValue == labelValue && rows[imdbId].humanLabeled && rows[imdbId].reviewed
    ensures LabelUpdated(rows, imdbId, labelValue, now) == rows[imdbId := rows[imdbId].(updatedAt := now)]
  {
  }

  /** Marking reviewed keeps the label and `human_labeled`, and touches no other row. */
  lemma ReviewedUpdateKeepsLabel(rows: map<string, TrainingRow>, imdbId: string, now: Timestamp)
    requires imdbId in rows
    ensures var after := ReviewedUpdated(rows, imdbId, now);
      && after.Keys == rows.Keys
      && after[imdbId].reviewed && after[imdbId].updatedAt == now
      && after[imdbId].labelValue == rows[imdbId].labelValue
      && after[imdbId].humanLabeled == rows[imdbId].humanLabeled
      && after[imdbId].anomalous == rows[imdbId].anomalous
      && (forall k :: k in rows && k != imdbId ==> after[k] == rows[k])
    ensures KeyedByImdbId(rows) ==> KeyedByImdbId(ReviewedUpdated(rows, imdbId, now))
  {
  }

  /** `update_reviewed` after `update_label` leaves what `update_label` alone would leave at the later time. */
  lemma ReviewedAfterLabelAddsNothing(rows: map<string, TrainingRow>, imdbId: string, labelValue: string, t1: Timestamp, t2: Timestamp)
    requires imdbId in rows
    ensures ReviewedUpdated(LabelUpdated(rows, imdbId, labelValue, t1), imdbId, t2) == LabelUpdated(rows, imdbId, labelValue, t2)
  {
  }

  // ---------------------------------------------------------------------------
  // The service
  // ---------------------------------------------------------------------------

  /** `DatabaseService`, holding the contents of `atp.training`. */
  class DatabaseService {
    var training: map<string, TrainingRow>

    ghost predicate Valid()
      reads this
    {
      KeyedByImdbId(training)
    }

    constructor (rows: map<string, TrainingRow>)
      requires KeyedByImdbId(rows)
      ensures Valid() && training == rows
    {
      training := rows;
    }

    /**
      `get_training_data`: build the WHERE clause, validate the sort, count
      the matching rows, fetch one window of them and compute the links.
      `ordering` is the order the database returns the table in for the
      validated ORDER BY; `fault` a failure of the connection or a query.
      PostgreSQL refuses a negative OFFSET or LIMIT, and the exception
      propagates to the caller. `query` is the page query's text, whose
      ORDER BY holds only the validated column and direction.
     */
    method GetTrainingData(f: TrainingFilters, limit: int, offset: int, sortBy: string, sortOrder: string,
                           ordering: seq<string>, fault: Option<string>)
      returns (r: Result<TrainingPage, string>, query: string)
      requires Valid()
      requires IsOrderingOf(ordering, training)
      ensures fault.None? ==> query == DataQueryText(Examined(f, 5).0, EffectiveSortBy(sortBy), EffectiveSortOrder(sortOrder))
      ensures fault.Some? ==> r == Err(fault.value)
      ensures fault.None? ==> (r.Err? <==> limit < 0 || offset < 0)
      ensures r.Ok? ==>
        var matching := Selected(ordering, training, f);
        && limit >= 0 && offset >= 0
        && r.value.pagination == Paginate(|MatchingKeys(training, f)|, limit, offset)
        && r.value.data == RowsOf(Window(matching, offset, limit), training)
        && |r.value.data| <= limit
        && (forall row :: row in r.value.data ==> MatchesFilters(row, f))
        && (forall row :: row in r.value.data ==> row.imdbId in training && training[row.imdbId] == row)
    {
      if fault.Some? {
        return Err(fault.value), "";
      }
      var clauses, params := BuildWhereClauses(f);
      query := DataQueryText(clauses, EffectiveSortBy(sortBy), EffectiveSortOrder(sortOrder));

      // COUNT(*) with the same WHERE clause.
      var matching := SelectWhere(ordering, training, clauses, params);
      SelectWhereIsSelected(ordering, training, f, clauses, params);
      SelectedCountsAllMatches(ordering, training, f);
      var total := |matching|;

      if offset < 0 {
        return Err("OFFSET must not be negative"), query;
      }
      if limit < 0 {
        return Err("LIMIT must not be negative"), query;
      }
      var window := Window(matching, offset, limit);
      var data := RowsOf(window, training);
      PageRowsMatch(ordering, training, f, offset, limit);
      r := Ok(TrainingPage(data, Paginate(total, limit, offset)));
      forall row | row in data ensures row.imdbId in training && training[row.imdbId] == row {
        var i :| 0 <= i < |data| && data[i] == row;
        assert window[i] in training;
      }
    }

    /** `update_label`: refuse a missing row; otherwise set the label and force `human_labeled` and `reviewed`. */
    method UpdateLabel(imdbId: string, labelValue: string, now: Timestamp, fault: DbFault) returns (r: UpdateResult)
      requires Valid()
      modifies this
      ensures Valid()
      ensures (training, r) == UpdateLabelOutcome(old(training), imdbId, labelValue, now, fault)
      ensures r.success ==> training[imdbId].labelValue == labelValue && training[imdbId].humanLabeled && training[imdbId].reviewed
      ensures !r.success ==> training == old(training)
    {
      if fault.ConnectionFails? {
        return DatabaseErrorResult(fault.message);
      }
      if imdbId !in training {
        return NotFoundResult(imdbId);
      }
      if fault.WriteFails? {
        // The UPDATE is rolled back.
        return DatabaseErrorResult(fault.message);
      }
      training := training[imdbId := training[imdbId].(labelValue := labelValue, humanLabeled := true, reviewed := true, updatedAt := now)];
      r := UpdateResult(true, None, "Label updated successfully");
    }

    /** `update_reviewed`: refuse a missing row; otherwise set only `reviewed` (and `updated_at`). */
    method UpdateReviewed(imdbId: string, now: Timestamp, fault: DbFault) returns (r: UpdateResult)
      requires Valid()
      modifies this
      ensures Valid()
      ensures (training, r) == UpdateReviewedOutcome(old(training), imdbId, now, fault)
      ensures r.success ==> training[imdbId].reviewed && training[imdbId].labelValue == old(training)[imdbId].labelValue
      ensures !r.success ==> training == old(training)
    {
      if fault.ConnectionFails? {
        return DatabaseErrorResult(fault.message);
      }
      if imdbId !in training {
        return NotFoundResult(imdbId);
      }
      if fault.WriteFails? {
        return DatabaseErrorResult(fault.message);
      }
      training := training[imdbId := training[imdbId].(reviewed := true, updatedAt := now)];
      r := UpdateResult(true, None, "Reviewed status updated successfully");
    }
  }
}
