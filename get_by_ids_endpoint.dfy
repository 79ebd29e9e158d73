/** The response the products-by-id endpoint sends for a handler result:
    a problem response, 304 Not Modified, or 200 with the `ETag` header.
    The If-None-Match precondition of section 13.1.2 of RFC 9110 is
    implemented as plain string equality with the current tag. */
module GetByIdsEndpoint {
  import opened Wrappers
  import opened Text
  import opened Errors
  import opened GetByIdsValidator
  import opened GetByIdsHandler

  const DefaultProblemTitle: string := "Error"
  const DefaultProblemDetail: string := "Request failed"

  /** What the endpoint returns; `etagHeader` is the `ETag` response header
      it sets, if any. */
  datatype EndpointResult =
    | Problem(details: ProblemDetails)
    | NotModified
    | Ok(body: Option<GetByIdsResponse>, etagHeader: Option<string>)

  /** The request's `If-None-Match` values equal the tag, as `StringValues`
      compares with a string: exactly one value, equal to it. */
  predicate IfNoneMatchEquals(ifNoneMatch: seq<string>, etag: string)
    ensures IfNoneMatchEquals(ifNoneMatch, etag) <==> |ifNoneMatch| == 1 && ifNoneMatch[0] == etag
  {
    ifNoneMatch == [etag]
  }

  /** The body of the `MapGet` lambda after the handler has answered. */
  function Respond(h: HandleResult, ifNoneMatch: seq<string>, traceIdentifier: string): (r: EndpointResult)
    ensures h.status != 200 ==>
              && r.Problem?
              && r.details.status == h.status
              && r.details.title == h.errorTitle.GetOr(DefaultProblemTitle)
              && r.details.detail == h.errorDetail.GetOr(DefaultProblemDetail)
              && (TraceIdKey in r.details.extensions <==> !IsBlank(traceIdentifier))
              && (TraceIdKey in r.details.extensions ==> r.details.extensions[TraceIdKey] == traceIdentifier)
              && r.details.extensions.Keys <= {TraceIdKey}
    ensures r.Problem? <==> h.status != 200
    ensures r.NotModified? <==>
              h.status == 200 && !IsNullOrEmpty(h.etag) && IfNoneMatchEquals(ifNoneMatch, h.etag.value)
    ensures r.Ok? <==> h.status == 200 && !r.NotModified?
    ensures r.Ok? ==> r.body == h.resp
    ensures r.Ok? ==> (r.etagHeader.Some? <==> !IsNullOrEmpty(h.etag))
    ensures r.Ok? && r.etagHeader.Some? ==> r.etagHeader == h.etag
  {
    if h.status != 200 then
      Problem(Create(h.status, h.errorTitle.GetOr(DefaultProblemTitle),
                     h.errorDetail.GetOr(DefaultProblemDetail), Some(traceIdentifier)))
    else if !IsNullOrEmpty(h.etag) && IfNoneMatchEquals(ifNoneMatch, h.etag.value) then
      NotModified
    else
      Ok(h.resp, if !IsNullOrEmpty(h.etag) then h.etag else None)
  }

  /** Revalidation: a client that sends back the `ETag` it was given gets 304
      as long as the handler's answer is unchanged. */
  lemma RevalidationGivesNotModified(h: HandleResult, ifNoneMatch: seq<string>, traceIdentifier: string,
                                     traceIdentifier': string)
    requires Respond(h, ifNoneMatch, traceIdentifier).Ok?
    requires Respond(h, ifNoneMatch, traceIdentifier).etagHeader.Some?
    ensures Respond(h, [Respond(h, ifNoneMatch, traceIdentifier).etagHeader.value], traceIdentifier')
         == NotModified
  {
  }

  /** End to end: a 304 is sent only for a valid request for which the
      repository found something, and a problem response only otherwise. */
  lemma NotModifiedOnlyForFoundProducts(req: GetByIdsRequest, repo: seq<string> -> RepositoryResult,
                                         ifNoneMatch: seq<string>, traceIdentifier: string)
    ensures var r := Respond(Handle(req, repo), ifNoneMatch, traceIdentifier);
      && (r.NotModified? || r.Ok? <==> WellFormed(req) && repo(RequestedIds(req)).items != [])
      && (r.Problem? ==> r.details.status == 400 || r.details.status == 404)
  {
  }
}
