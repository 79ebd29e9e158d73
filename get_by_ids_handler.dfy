/** The handler behind the products-by-id endpoint: validation, the
    repository lookup and the mapping of products to response DTOs. */
module GetByIdsHandler {
  import opened Wrappers
  import opened Text
  import opened Domain
  import opened GetByIdsValidator
  import ProductRepository

  /** `GetByIdsResponse.ProductDto`: a field-for-field copy of a `Product`. */
  datatype ProductDto = ProductDto(
    id: Option<string>,
    name: Option<string>,
    imageUrl: Option<string>,
    description: Option<string>,
    price: real,
    currency: Option<string>,
    rating: real,
    specifications: map<string, string>)

  datatype GetByIdsResponse = GetByIdsResponse(products: seq<ProductDto>)

  /** The `(Items, ETag, Missing)` triple of `IProductRepository.GetByIdsAsync`. */
  datatype RepositoryResult = RepositoryResult(items: seq<Product>, etag: string, missing: seq<string>)

  /** The `(resp, status, etag, errorTitle, errorDetail)` tuple of `HandleAsync`. */
  datatype HandleResult = HandleResult(
    resp: Option<GetByIdsResponse>,
    status: int,
    etag: Option<string>,
    errorTitle: Option<string>,
    errorDetail: Option<string>)

  const ValidationFailedTitle: string := "Validation Failed"
  const NotFoundTitle: string := "Not Found"
  const NotFoundDetail: string := "No products found for the given ids."

  /** The DTO carries exactly the fields of the product. */
  predicate Carries(d: ProductDto, p: Product) {
    && d.id == p.id && d.name == p.name && d.imageUrl == p.imageUrl
    && d.description == p.description && d.price == p.price
    && d.currency == p.currency && d.rating == p.rating
    && d.specifications == p.specifications
  }

  /** The object initialiser of `ProductDto`. */
  function ToDto(p: Product): (d: ProductDto)
    ensures Carries(d, p)
  {
    ProductDto(p.id, p.name, p.imageUrl, p.description, p.price, p.currency, p.rating, p.specifications)
  }

  /** The product a DTO was made from. */
  function FromDto(d: ProductDto): (p: Product)
    ensures Carries(d, p)
  {
    Product(d.id, d.name, d.imageUrl, d.description, d.price, d.currency, d.rating, d.specifications)
  }

  /** Mapping to a DTO loses nothing, and is the only DTO carrying the product. */
  lemma DtoRoundTrip(p: Product, d: ProductDto)
    ensures FromDto(ToDto(p)) == p
    ensures Carries(d, p) <==> d == ToDto(p)
  {
  }

  /** `items.Select(p => new ProductDto { ... }).ToList()`. */
  function ToDtos(items: seq<Product>): (r: seq<ProductDto>)
    ensures |r| == |items|
    ensures forall i :: 0 <= i < |items| ==> Carries(r[i], items[i])
  {
    seq(|items|, i requires 0 <= i < |items| => ToDto(items[i]))
  }

  /** The products back from their DTOs, in the same order. */
  lemma ToDtosRoundTrip(items: seq<Product>)
    ensures seq(|items|, i requires 0 <= i < |items| => FromDto(ToDtos(items)[i])) == items
  {
  }

  /** `GetByIdsHandler.HandleAsync`, with the repository given as the function
      that answers a lookup: 400 on an invalid request without a lookup, 404
      when nothing is found, otherwise 200 with the DTOs and the tag. */
  function Handle(req: GetByIdsRequest, repo: seq<string> -> RepositoryResult): (r: HandleResult)
    ensures r.status == 400 || r.status == 404 || r.status == 200
    ensures r.resp.Some? <==> r.status == 200
    ensures r.status == 400 <==> !Validate(req).ok
    ensures !Validate(req).ok ==>
              r == HandleResult(None, 400, None, Some(ValidationFailedTitle), Validate(req).error)
    ensures Validate(req).ok && repo(RequestedIds(req)).items == [] ==>
              r == HandleResult(None, 404, None, Some(NotFoundTitle), Some(NotFoundDetail))
    ensures Validate(req).ok && repo(RequestedIds(req)).items != [] ==>
              var found := repo(RequestedIds(req));
              && r.status == 200
              && r.etag == Some(found.etag)
              && r.errorTitle.None? && r.errorDetail.None?
              && |r.resp.value.products| == |found.items|
              && forall i :: 0 <= i < |found.items| ==> Carries(r.resp.value.products[i], found.items[i])
  {
    var v := Validate(req);
    if !v.ok then HandleResult(None, 400, None, Some(ValidationFailedTitle), v.error)
    else
      var found := repo(RequestedIds(req));
      if |found.items| == 0 then HandleResult(None, 404, None, Some(NotFoundTitle), Some(NotFoundDetail))
      else HandleResult(Some(GetByIdsResponse(ToDtos(found.items))), 200, Some(found.etag), None, None)
  }

  /** An invalid request never reaches the repository: any two repositories
      give the same answer. */
  lemma InvalidRequestIgnoresRepository(req: GetByIdsRequest, repo: seq<string> -> RepositoryResult,
                                         repo': seq<string> -> RepositoryResult)
    requires !Validate(req).ok
    ensures Handle(req, repo) == Handle(req, repo')
  {
  }

  /** The missing ids never change the outcome. */
  lemma MissingIdsIgnored(req: GetByIdsRequest, repo: seq<string> -> RepositoryResult,
                          repo': seq<string> -> RepositoryResult)
    requires forall ids :: repo(ids).items == repo'(ids).items && repo(ids).etag == repo'(ids).etag
    ensures Handle(req, repo) == Handle(req, repo')
  {
    if Validate(req).ok {
      var ids := RequestedIds(req);
      assert repo(ids).items == repo'(ids).items && repo(ids).etag == repo'(ids).etag;
    }
  }

  /** The repository the catalogue provides: `GetByIdsAsync` on the index
      `byId` with tag `etag`. */
  function CatalogueLookup(byId: map<string, Product>, etag: string): (r: seq<string> -> RepositoryResult)
    ensures forall ids :: r(ids).etag == etag
    ensures forall ids, k :: 0 <= k < |r(ids).items| ==> r(ids).items[k] in byId.Values
    ensures forall ids, k :: 0 <= k < |r(ids).missing| ==> Fold(r(ids).missing[k]) !in byId
  {
    ids => RepositoryResult(ProductRepository.Found(byId, ids), etag, ProductRepository.Missing(byId, ids))
  }

  /** Over the catalogue the handler answers 200, with the catalogue's tag,
      exactly when the request is valid and one of its ids is indexed
      ignoring case, and 404 when it is valid and none is. */
  lemma HandleOverCatalogue(req: GetByIdsRequest, byId: map<string, Product>, etag: string)
    ensures var r := Handle(req, CatalogueLookup(byId, etag));
      && (r.status == 200 <==>
            WellFormed(req) && exists i :: 0 <= i < |RequestedIds(req)| && Fold(RequestedIds(req)[i]) in byId)
      && (r.status == 404 <==>
            WellFormed(req) && forall i :: 0 <= i < |RequestedIds(req)| ==> Fold(RequestedIds(req)[i]) !in byId)
      && (r.status == 200 ==> r.etag == Some(etag))
  {
    if WellFormed(req) {
      ProductRepository.FoundNonEmpty(byId, RequestedIds(req));
    }
  }
}
