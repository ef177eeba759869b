/**
 * Normalisation of the caller's query parameters (`page`, `limit`, `sortBy`,
 * `sortOrder`). Normalisation never fails: anything out of range or unknown is
 * silently replaced. A parsed integer is `Some(n)`; `None` stands for a value
 * that is absent or that `parseInt` turns into NaN.
 */
module Params {
  import opened Wrappers
  import opened Corpus

  const DefaultPage := 1
  const DefaultLimit := 10
  const MaxListLimit := 100
  const MaxSearchLimit := 50
  const AllowedSortFields: seq<string> := ["title", "createdAt", "_id"]

  function Max(a: int, b: int): int { if a < b then b else a }
  function Min(a: int, b: int): int { if a < b then a else b }

  /** `parseInt(v) || d`: NaN and 0 are falsy, so both give way to `d`. */
  function OrDefault(parsed: Option<int>, d: int): int
  {
    if parsed.None? || parsed.value == 0 then d else parsed.value
  }

  /** `Math.max(1, parseInt(page) || 1)`. */
  function NormalizePage(parsed: Option<int>): (page: nat)
    ensures page >= 1
    ensures parsed.Some? && parsed.value >= 1 ==> page == parsed.value
    ensures parsed.None? || parsed.value < 1 ==> page == 1
  {
    Max(1, OrDefault(parsed, DefaultPage))
  }

  /** `Math.min(maxLimit, Math.max(1, parseInt(limit) || 10))`. A negative
      limit is truthy and so is clamped to 1, not defaulted to 10. */
  function NormalizeLimit(parsed: Option<int>, maxLimit: int): (limit: nat)
    requires DefaultLimit <= maxLimit
    ensures 1 <= limit <= maxLimit
    ensures parsed.None? || parsed.value == 0 ==> limit == DefaultLimit
    ensures parsed.Some? && 1 <= parsed.value <= maxLimit ==> limit == parsed.value
    ensures parsed.Some? && parsed.value < 0 ==> limit == 1
    ensures parsed.Some? && parsed.value > maxLimit ==> limit == maxLimit
  {
    Min(maxLimit, Max(1, OrDefault(parsed, DefaultLimit)))
  }

  /** The allow-list lookup `allowedSortFields.includes(name)`. */
  function ParseSortField(name: string): (f: Option<SortField>)
    ensures f.Some? <==> name in AllowedSortFields
    ensures f.Some? ==> FieldName(f.value) == name
  {
    if name == "title" then Some(Title)
    else if name == "createdAt" then Some(CreatedAt)
    else if name == "_id" then Some(Id)
    else None
  }

  /** `sortBy || "createdAt"`, then the allow-list with `createdAt` as fallback. */
  function NormalizeSortBy(raw: Option<string>): (f: SortField)
    ensures raw.Some? && raw.value in AllowedSortFields ==> FieldName(f) == raw.value
    ensures !(raw.Some? && raw.value in AllowedSortFields) ==> f == CreatedAt
  {
    var name := if raw.None? || raw.value == "" then "createdAt" else raw.value;
    match ParseSortField(name)
    case Some(f) => f
    case None => CreatedAt
  }

  /** `sortOrder === "asc" ? 1 : -1`. */
  function NormalizeDirection(raw: Option<string>): (d: Direction)
    ensures d == Asc <==> raw == Some("asc")
  {
    if raw == Some("asc") then Asc else Desc
  }

  /** The raw query string of `GET /api/blogs`. */
  datatype ListQuery = ListQuery(page: Option<int>, limit: Option<int>, sortBy: Option<string>, sortOrder: Option<string>)

  /** A normalised listing request. */
  datatype ListRequest = ListRequest(page: nat, limit: nat, field: SortField, direction: Direction)

  function NormalizeListQuery(q: ListQuery): (r: ListRequest)
    ensures r.page >= 1 && 1 <= r.limit <= MaxListLimit
    ensures r.page == NormalizePage(q.page) && r.limit == NormalizeLimit(q.limit, MaxListLimit)
    ensures r.field == NormalizeSortBy(q.sortBy) && r.direction == NormalizeDirection(q.sortOrder)
  {
    ListRequest(NormalizePage(q.page), NormalizeLimit(q.limit, MaxListLimit),
                NormalizeSortBy(q.sortBy), NormalizeDirection(q.sortOrder))
  }

  /** Normalising an already normalised request changes nothing. */
  lemma NormalizeIdempotent(q: ListQuery)
    ensures var r := NormalizeListQuery(q);
      NormalizeListQuery(ListQuery(Some(r.page), Some(r.limit), Some(FieldName(r.field)),
                                   if r.direction == Asc then Some("asc") else Some("desc"))) == r
  {
  }
}
