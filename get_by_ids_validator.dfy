/** The request for products by id and its validation. */
module GetByIdsValidator {
  import opened Wrappers
  import opened Text

  /** `GetByIdsRequest`: the `ids` query array, which may be null and whose
      elements may be null. */
  datatype GetByIdsRequest = GetByIdsRequest(ids: Option<seq<Option<string>>>)

  /** The `(ok, error)` pair `Validate` returns. */
  datatype Validation = Validation(ok: bool, error: Option<string>)

  const IdsRequired: string := "Query 'ids' is required"
  const IdsMustBeNonEmpty: string := "All ids must be non-empty"

  /** `ids.Any(string.IsNullOrWhiteSpace)`. */
  function AnyNullOrWhiteSpace(ids: seq<Option<string>>): (r: bool)
    ensures r <==> exists i :: 0 <= i < |ids| && IsNullOrWhiteSpace(ids[i])
  {
    if ids == [] then false
    else IsNullOrWhiteSpace(ids[0]) || AnyNullOrWhiteSpace(ids[1..])
  }

  /** A request the catalogue can serve: at least one id, none of them null
      or white space only. */
  predicate WellFormed(req: GetByIdsRequest) {
    && req.ids.Some?
    && |req.ids.value| > 0
    && forall i :: 0 <= i < |req.ids.value| ==> !IsNullOrWhiteSpace(req.ids.value[i])
  }

  /** `GetByIdsValidator.Validate`: a missing or empty array is reported
      before a blank element. */
  function Validate(req: GetByIdsRequest): (r: Validation)
    ensures req.ids.None? || req.ids.value == [] ==> r == Validation(false, Some(IdsRequired))
    ensures req.ids.Some? && req.ids.value != [] && !WellFormed(req) ==>
              r == Validation(false, Some(IdsMustBeNonEmpty))
    ensures WellFormed(req) <==> r == Validation(true, None)
    ensures r.ok <==> r.error.None?
  {
    if req.ids.None? || |req.ids.value| == 0 then Validation(false, Some(IdsRequired))
    else if AnyNullOrWhiteSpace(req.ids.value) then Validation(false, Some(IdsMustBeNonEmpty))
    else Validation(true, None)
  }

  /** The ids of a request that passed validation, without the nulls. */
  function RequestedIds(req: GetByIdsRequest): (ids: seq<string>)
    requires WellFormed(req)
    ensures |ids| == |req.ids.value|
    ensures forall i :: 0 <= i < |ids| ==> req.ids.value[i] == Some(ids[i]) && !IsBlank(ids[i])
  {
    seq(|req.ids.value|, i requires 0 <= i < |req.ids.value| => req.ids.value[i].value)
  }
}
