/** Problem details for HTTP APIs (RFC 9457): the `status`, `title` and
    `detail` members of section 3.1 and a `traceId` extension member
    (section 3.2). */
module Errors {
  import opened Wrappers
  import opened Text

  /** `ProblemDetails` with its extension members; `type` and `instance`
      are never set here. */
  datatype ProblemDetails = ProblemDetails(
    status: int,
    title: string,
    detail: string,
    extensions: map<string, string>)

  const TraceIdKey: string := "traceId"
  const UnexpectedErrorTitle: string := "Unexpected error"
  const UnexpectedErrorDetail: string := "An unexpected error occurred."

  /** `ProblemDetailsFactoryEx.Create`: the three members as given, plus the
      trace id when there is a non-blank one. */
  function Create(status: int, title: string, detail: string, traceId: Option<string>): (pd: ProblemDetails)
    ensures pd.status == status && pd.title == title && pd.detail == detail
    ensures TraceIdKey in pd.extensions <==> !IsNullOrWhiteSpace(traceId)
    ensures TraceIdKey in pd.extensions ==> pd.extensions[TraceIdKey] == traceId.value
    ensures pd.extensions.Keys <= {TraceIdKey}
  {
    var pd := ProblemDetails(status, title, detail, map[]);
    if !IsNullOrWhiteSpace(traceId) then pd.(extensions := pd.extensions[TraceIdKey := traceId.value])
    else pd
  }

  /** `ProblemDetailsFactoryEx.FromUnhandled`: a fixed 500 problem that
      always carries the request's trace identifier. */
  function FromUnhandled(traceIdentifier: string): (pd: ProblemDetails)
    ensures pd.status == 500
    ensures pd.title == UnexpectedErrorTitle && pd.detail == UnexpectedErrorDetail
    ensures TraceIdKey in pd.extensions && pd.extensions[TraceIdKey] == traceIdentifier
    ensures pd.extensions.Keys == {TraceIdKey}
  {
    var pd := ProblemDetails(500, UnexpectedErrorTitle, UnexpectedErrorDetail, map[]);
    pd.(extensions := pd.extensions[TraceIdKey := traceIdentifier])
  }

  /** The two factories agree on a non-blank trace identifier; on a blank
      one only `FromUnhandled` keeps it. */
  lemma FromUnhandledVersusCreate(traceIdentifier: string)
    ensures var c := Create(500, UnexpectedErrorTitle, UnexpectedErrorDetail, Some(traceIdentifier));
      && (!IsBlank(traceIdentifier) <==> FromUnhandled(traceIdentifier) == c)
      && (IsBlank(traceIdentifier) ==> c.extensions == map[])
  {
    var c := Create(500, UnexpectedErrorTitle, UnexpectedErrorDetail, Some(traceIdentifier));
    if IsBlank(traceIdentifier) {
      assert TraceIdKey !in c.extensions;
      assert FromUnhandled(traceIdentifier).extensions != c.extensions;
    }
  }
}
