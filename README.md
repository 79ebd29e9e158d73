# Product catalogue lookup — a Dafny model

This project models the core of a small ASP.NET product-comparison API.

- **Catalogue.** `JsonProductRepository` keeps an in-memory, case-insensitive index from product id to `Product`, plus an entity tag (ETag). `Load` rebuilds both from a JSON data file, and `GetByIdsAsync` splits requested ids into found products and missing ids.
- **HTTP layer.** The request validator, the handler that picks 400 / 404 / 200, and the endpoint's conditional-GET choice (problem response, 304, or 200 with an `ETag` header).
- **Value types.** The problem-details factory (RFC 9457) and the `Money` value type.

Modules, one per source file or component:

| file | module | source |
|---|---|---|
| `wrappers.dfy` | `Wrappers` | nullable references (`Option`, with `??` as `GetOr`) and thrown-or-returned outcomes (`Result`) |
| `text.dfy` | `Text` | `char.IsWhiteSpace`, `string.IsNullOrWhiteSpace`, `string.IsNullOrEmpty`, `string.Trim`, and `OrdinalIgnoreCase` as the key canonicalisation `Fold` |
| `domain.dfy` | `Domain` | `Money`, `Product` |
| `product_repository.dfy` | `ProductRepository` | `JsonProductRepository`: class with fields `byId` and `etag`, methods `Load` and `GetByIds` |
| `get_by_ids_validator.dfy` | `GetByIdsValidator` | `GetByIdsRequest`, `GetByIdsValidator.Validate` |
| `get_by_ids_handler.dfy` | `GetByIdsHandler` | `ProductDto`, `GetByIdsResponse`, `GetByIdsHandler.HandleAsync` |
| `get_by_ids_endpoint.dfy` | `GetByIdsEndpoint` | the response choice inside `MapGetByIds` |
| `problem_details.dfy` | `Errors` | `ProblemDetailsFactoryEx.Create` and `FromUnhandled` |

How the catalogue is modelled:

- **The file.** What the repository finds at its path is a `FileState` value, given to `Load` and to the constructor. It is one of: absent, unreadable, not a JSON array of products, the JSON literal `null`, or an array whose elements may be `null`.
- **Serialisation and hashing.** JSON serialisation (with UTF-8 encoding) and SHA-256 are opaque functions. They are fixed when the repository is constructed and kept as `const` fields.
- **ETag format.** The model spells out the upper-case hex encoding of the 32-byte digest and the surrounding quotes.
- **Keys.** Every key is stored in its folded form.
- **Product defaults.** A `Product` whose fields the file does not set is `Domain.DefaultProduct`: null strings, zero amounts, currency "USD" and no specifications. It has no id, so a file holding one cannot be loaded.
- **Load.** `Load` reassigns both fields on every path. It is proved to install exactly `Reload(file, …)`, a function of the file alone, so two loads of the same file leave the same state.
- **GetByIds.** `GetByIds` is the `foreach` loop of the source, proved equal to the specification functions `Found` and `Missing`. The properties of the split are lemmas about those functions.

Behaviours of the code worth stating explicitly:

- **Order of found products.** Found products come back in request order. The loop appends them as it meets the ids.
- **A `null` document.** A file holding the JSON literal `null` loads as the empty catalogue with a content hash tag. It is not treated as an error.
- **Null or duplicate ids.** A `null` element, a `null` id, or two ids equal ignoring case all make `ToDictionary` throw. So each of them yields the `"error"` state.

## Model

| member | source | states |
|---|---|---|
| `Text.IsWhiteSpace` | src/Feature.Products/GetByIds/GetByIdsValidator.cs:18 | `char.IsWhiteSpace` as the predicate that defines blank ids and currencies: space, U+0009 to U+000D, U+0085, U+00A0, U+1680, U+2000 to U+200A, U+2028, U+2029, U+202F, U+205F and U+3000 |
| `Text.IsNullOrWhiteSpace` | src/Feature.Products/Domain/Money.cs:10 | `string.IsNullOrWhiteSpace`: a null or empty string counts as white space |
| `Text.NullOrWhiteSpaceIffTrimsEmpty` | src/Feature.Products/Domain/Money.cs:10 | a string is null or white space iff it is null or trims to the empty string, so `Money` falls back to "USD" exactly for the currencies that `Trim` would empty |
| `Text.IsNullOrEmpty` | src/Feature.Products/GetByIds/GetByIdsEndpoint.cs:28-31 | `string.IsNullOrEmpty`: true iff the string is null or has no characters |
| `Text.TrimStart` | src/Feature.Products/Domain/Money.cs:10 | the result is a suffix of the input, everything dropped is white space, and it does not start with white space |
| `Text.TrimEnd` | src/Feature.Products/Domain/Money.cs:10 | the result is a prefix of the input, everything dropped is white space, and it does not end with white space |
| `Text.Trim` | src/Feature.Products/Domain/Money.cs:10 | the result is a contiguous slice with only white space around it; it is empty iff the input is blank, and otherwise starts and ends with a non-white-space character |
| `Text.TrimIdempotent` | src/Feature.Products/Domain/Money.cs:10 | trimming a trimmed string changes nothing |
| `Text.Fold` | src/Feature.Products/Infrastructure/JsonProductRepository.cs:18 | folding keeps the length and maps each character through the case mapping |
| `Text.FoldSameIgnoringCase` | src/Feature.Products/Infrastructure/JsonProductRepository.cs:18 | two ids have the same folded key iff they are equal character by character ignoring letter case |
| `Text.FoldIdempotent` | src/Feature.Products/Infrastructure/JsonProductRepository.cs:18 | a folded key is already canonical |
| `Domain.NewMoney` | src/Feature.Products/Domain/Money.cs:7-12 | a negative amount throws `ArgumentOutOfRangeException("amount")` and nothing else throws; otherwise the amount is kept, a null or blank currency becomes "USD", any other currency is trimmed, and the result is non-negative with a non-empty currency that has no white space at either end |
| `Domain.NewMoneyFixesValid` | src/Feature.Products/Domain/Money.cs:9-11 | constructing from an already valid amount and currency returns exactly that value |
| `ProductRepository.HexDigit` | src/Feature.Products/Infrastructure/JsonProductRepository.cs:137 | every digit is an upper-case hex character |
| `ProductRepository.HexValue` | src/Feature.Products/Infrastructure/JsonProductRepository.cs:137 | decoding a hex digit gives the nibble that encodes back to it |
| `ProductRepository.ToHexString` | src/Feature.Products/Infrastructure/JsonProductRepository.cs:137 | exactly two upper-case hex digits per byte |
| `ProductRepository.FromHexString` | src/Feature.Products/Infrastructure/JsonProductRepository.cs:137 | decoding halves the length |
| `ProductRepository.HexRoundTrip` | src/Feature.Products/Infrastructure/JsonProductRepository.cs:137 | decoding the hex string gives back the bytes |
| `ProductRepository.HexInjective` | src/Feature.Products/Infrastructure/JsonProductRepository.cs:137 | two byte strings have the same hex form iff they are equal |
| `ProductRepository.ComputeHash` | src/Feature.Products/Infrastructure/JsonProductRepository.cs:133-138 | the hash text is 64 upper-case hex digits, because the digest has 32 bytes |
| `ProductRepository.Quote` | src/Feature.Products/Infrastructure/JsonProductRepository.cs:84 | the tag is the text wrapped in one quote character at each end |
| `ProductRepository.ToDictionary` | src/Feature.Products/Infrastructure/JsonProductRepository.cs:82 | every product in a built index is stored under its own folded id |
| `ProductRepository.ToDictionaryCorrect` | src/Feature.Products/Infrastructure/JsonProductRepository.cs:82 | building the index succeeds iff no element is null, no id is null and no two ids are equal ignoring case; then the index has one key per product, each product under its folded id, and no other key |
| `ProductRepository.Products` | src/Feature.Products/Infrastructure/JsonProductRepository.cs:83 | the list to serialise holds the parsed products in file order |
| `ProductRepository.FromEntries` | src/Feature.Products/Infrastructure/JsonProductRepository.cs:82-94 | a list that cannot be indexed gives an empty index and `"error"`; otherwise the index of the list and the quoted hash of its serialisation |
| `ProductRepository.Reload` | src/Feature.Products/Infrastructure/JsonProductRepository.cs:63-99 | three outcomes: a missing file gives an empty index and `"empty"`; an unreadable or unparsable file, or a null or duplicate id, gives an empty index and `"error"`; otherwise the index of the list, and the quoted hex hash of the re-serialised list, with a JSON `null` counted as the empty list; the index is always consistent |
| `ProductRepository.JsonProductRepository.constructor` | src/Feature.Products/Infrastructure/JsonProductRepository.cs:28-35 | starts from the `"init"` state and loads the file, so the repository holds `Reload` of the file |
| `ProductRepository.JsonProductRepository.Load` | src/Feature.Products/Infrastructure/JsonProductRepository.cs:63-99 | replaces both fields together with `Reload` of the file, whatever they held before, and keeps the index consistent |
| `ProductRepository.JsonProductRepository.GetByIds` | src/Feature.Products/Infrastructure/JsonProductRepository.cs:107-126 | returns the found products and the missing ids of the request, each as its specification function gives them, plus the current tag; the two lists together are as long as the request; every found product's id equals a requested id ignoring case; the repository is not changed |
| `ProductRepository.Found` | src/Feature.Products/Infrastructure/JsonProductRepository.cs:115-117 | no more products than ids, each of them a product held in the index |
| `ProductRepository.Missing` | src/Feature.Products/Infrastructure/JsonProductRepository.cs:115-119 | no more ids than requested, none of them a key when folded |
| `ProductRepository.LookupAppend` | src/Feature.Products/Infrastructure/JsonProductRepository.cs:115-119 | looking up a concatenation concatenates the lookups, so both lists are in request order |
| `ProductRepository.LookupPartition` | src/Feature.Products/Infrastructure/JsonProductRepository.cs:115-119 | every requested id lands in exactly one list: the lengths add up to the number of ids |
| `ProductRepository.MissingExactly` | src/Feature.Products/Infrastructure/JsonProductRepository.cs:115-119 | an id is missing iff it was requested and its folded form is not a key; it appears as many times as it was requested, so duplicates are kept |
| `ProductRepository.FoundExactly` | src/Feature.Products/Infrastructure/JsonProductRepository.cs:115-119 | a product is found iff some requested id folds to a key holding it |
| `ProductRepository.FoundNonEmpty` | src/Feature.Products/Infrastructure/JsonProductRepository.cs:115-119 | something is found iff some requested id is a key when folded |
| `ProductRepository.LookupIgnoresCase` | src/Feature.Products/Infrastructure/JsonProductRepository.cs:117 | requests that differ only in letter case find the same products and the same number of missing ids |
| `ProductRepository.LookupEmpty` | src/Feature.Products/Infrastructure/JsonProductRepository.cs:68-73 | with an empty index (a missing or broken file) nothing is found and every requested id is missing |
| `ProductRepository.FoundMatchesRequest` | src/Feature.Products/Infrastructure/JsonProductRepository.cs:117 | in a consistent index every found product has an id equal, ignoring case, to one of the requested ids |
| `ProductRepository.NullDocumentIsEmptyList` | src/Feature.Products/Infrastructure/JsonProductRepository.cs:77-80 | a JSON `null` document loads exactly like an empty array |
| `ProductRepository.LoadedETagShape` | src/Feature.Products/Infrastructure/JsonProductRepository.cs:84 | a successful load's tag is a quote, 64 upper-case hex digits and a quote, and never equals `"init"`, `"empty"` or `"error"` |
| `ProductRepository.ETagIffSameDigest` | src/Feature.Products/Infrastructure/JsonProductRepository.cs:83-84 | two successful loads have equal tags iff their serialised contents have equal digests, so identical content gives identical tags |
| `ProductRepository.ProductWithoutIdIsAnError` | src/Feature.Products/Infrastructure/JsonProductRepository.cs:82-94 | an array holding, anywhere, any product with a null id gives the `"error"` state; this includes a product whose members the file leaves unset (`Domain.DefaultProduct`: null id, name, image and description, zero price and rating, currency "USD", no specifications, as the initialisers of `Product`) |
| `ProductRepository.CaseVariantDuplicateIsAnError` | src/Feature.Products/Infrastructure/JsonProductRepository.cs:82-94 | an array holding, anywhere and with anything between them, two products whose ids differ only in case gives the `"error"` state |
| `GetByIdsValidator.AnyNullOrWhiteSpace` | src/Feature.Products/GetByIds/GetByIdsValidator.cs:18 | true iff some id is null, empty or white space only |
| `GetByIdsValidator.Validate` | src/Feature.Products/GetByIds/GetByIdsValidator.cs:15-20 | a null or empty array gives `(false, "Query 'ids' is required")`, which takes priority; otherwise a blank or null id gives `(false, "All ids must be non-empty")`; the result is `(true, null)` iff every id has a non-white-space character; `ok` holds iff `error` is null |
| `GetByIdsValidator.RequestedIds` | src/Feature.Products/GetByIds/GetByIdsHandler.cs:47 | a validated request's ids, in order, none of them blank |
| `GetByIdsHandler.ToDto` | src/Feature.Products/GetByIds/GetByIdsHandler.cs:57-67 | the DTO carries every field of the product unchanged |
| `GetByIdsHandler.FromDto` | src/Feature.Products/GetByIds/GetByIdsHandler.cs:57-67 | the product rebuilt from a DTO carries the DTO's fields |
| `GetByIdsHandler.DtoRoundTrip` | src/Feature.Products/GetByIds/GetByIdsHandler.cs:57-67 | mapping loses nothing, and the mapped DTO is the only one carrying the product's fields |
| `GetByIdsHandler.ToDtos` | src/Feature.Products/GetByIds/GetByIdsHandler.cs:55-68 | same length and order as the products, each DTO carrying its product's fields |
| `GetByIdsHandler.ToDtosRoundTrip` | src/Feature.Products/GetByIds/GetByIdsHandler.cs:55-68 | the products can be read back from the DTO list in order |
| `GetByIdsHandler.Handle` | src/Feature.Products/GetByIds/GetByIdsHandler.cs:37-72 | status is 400, 404 or 200; the payload is present iff status is 200; 400 iff validation fails, with `"Validation Failed"` and the validator's message; 404 with `"Not Found"` and `"No products found for the given ids."` when nothing is found; otherwise 200 with the repository's tag, no title or detail, and one DTO per found product in order |
| `GetByIdsHandler.InvalidRequestIgnoresRepository` | src/Feature.Products/GetByIds/GetByIdsHandler.cs:40-47 | an invalid request gets the same answer whatever the repository holds |
| `GetByIdsHandler.MissingIdsIgnored` | src/Feature.Products/GetByIds/GetByIdsHandler.cs:49-53 | the missing list never changes the answer |
| `GetByIdsHandler.CatalogueLookup` | src/Feature.Products/GetByIds/GetByIdsHandler.cs:47 | the catalogue as the handler's repository: it returns the catalogue's tag, only products held in the index, and only ids that are not keys when folded |
| `GetByIdsHandler.HandleOverCatalogue` | src/Feature.Products/GetByIds/GetByIdsHandler.cs:47-53 | over the catalogue: 200, with the catalogue's tag, iff the request is valid and some id is present ignoring case; 404 iff the request is valid and no id is present |
| `GetByIdsEndpoint.Respond` | src/Feature.Products/GetByIds/GetByIdsEndpoint.cs:19-34 | a problem iff the status is not 200, with that status, title defaulting to "Error", detail to "Request failed", a `traceId` extension holding the trace identifier iff it is not blank, and no other extension; 304 iff status 200 with a non-empty tag that `If-None-Match` equals; 200 iff the status is 200 and it is not a 304, with the payload and the `ETag` header set, to the tag, exactly when the tag is non-empty |
| `GetByIdsEndpoint.IfNoneMatchEquals` | src/Feature.Products/GetByIds/GetByIdsEndpoint.cs:28 | the `StringValues` comparison with a string: the header holds exactly one value and it equals the tag |
| `GetByIdsEndpoint.RevalidationGivesNotModified` | src/Feature.Products/GetByIds/GetByIdsEndpoint.cs:28-32 | echoing the `ETag` header of a 200 back as `If-None-Match` yields 304 while the handler's answer is unchanged |
| `GetByIdsEndpoint.NotModifiedOnlyForFoundProducts` | src/Feature.Products/GetByIds/GetByIdsEndpoint.cs:21-29 | a 304 or 200 is sent iff the request is valid and the repository found something; any problem response carries 400 or 404 |
| `Errors.Create` | src/BuildingBlocks/Errors/ProblemDetailsExtensions.cs:36-49 | status, title and detail are copied verbatim; a `traceId` extension is present iff the trace id is not null or white space, and then holds it; there is no other extension |
| `Errors.FromUnhandled` | src/BuildingBlocks/Errors/ProblemDetailsExtensions.cs:16-26 | always status 500, "Unexpected error", "An unexpected error occurred.", and exactly the `traceId` extension holding the context's trace identifier |
| `Errors.FromUnhandledVersusCreate` | src/BuildingBlocks/Errors/ProblemDetailsExtensions.cs:16-49 | the two factories agree iff the trace identifier is not blank; for a blank one `Create` drops it while `FromUnhandled` keeps it |
| `Wrappers.Option.GetOr` | src/Feature.Products/GetByIds/GetByIdsEndpoint.cs:23 | the `??` operator: the value when present, the default when null |

## Left out

- The `ReaderWriterLockSlim` discipline is not modelled, because its only job is concurrency. `Load` and `GetByIds` are sequential methods on one object, and each runs without interleaving.
- The `FileSystemWatcher` is not modelled, because it is operating-system event plumbing. Each of its change, create and rename events only calls `Load`, and any number of `Load` calls is covered by the `Load` contract.
- Opening and reading the file, and JSON parsing, are not modelled. The outcome of reading the file is the `FileState` parameter.
- JSON serialisation, UTF-8 encoding and SHA-256 are opaque functions. The model has them as constructor arguments, not as their real definitions.
- The configured file path, and its default `data/products.json`, are not modelled. The file is given directly as a `FileState`.
- Logging, the `Task`/async wrappers and `CancellationToken` are left out, because they carry no behaviour.
- `Money.ToString` is left out, because it relies on .NET decimal formatting.
- `decimal` values are modelled as `real`. The 28-digit precision limit of `decimal` is not modelled.
- ProductRepository.Reload: the tag does not see a `decimal`'s scale or the order of `Specifications`. `JsonSerializer.Serialize` writes `1.0` and `1.00` differently, and writes the specifications in the order the file gives them (src/Feature.Products/Infrastructure/JsonProductRepository.cs:83). `Product` carries price and rating as `real` and specifications as a `map`, so two files whose re-serialised text differs only in scale or in specification order get the same tag in the model but different tags in the source. For such a change the model answers 304 where the source answers 200.
- Text.Fold: case-insensitive key comparison folds only the ASCII letters. `StringComparer.OrdinalIgnoreCase` also folds other Unicode letters, so the model identifies fewer ids than the source does.
- `Product.Specifications` is a non-null map here. A data file that sets it to JSON `null` would make the handler's `ToDictionary` throw. That path is not modelled.
- The ASP.NET `Results` and `HttpContext` mechanics are not modelled. The `ETag` header that the endpoint writes into the response in place is the `etagHeader` field of the result. The `If-None-Match` header is the list of its values.
- The weak comparison and the `*` handling of section 13.1.2 of RFC 9110 are not modelled, because the endpoint does not implement them.
- The problem-details members `type` and `instance` are not modelled, because neither factory sets them.
- A null id reaching the repository is not modelled. `_byId.TryGetValue` throws `ArgumentNullException` for one (src/Feature.Products/Infrastructure/JsonProductRepository.cs:117), but `GetByIds` takes a list of non-null strings. The handler only calls it after validation, which rejects every null id, so the throw cannot be reached through the endpoint.
- The health check, Swagger and versioning setup, and the host in `Program.cs` are left out. They are framework wiring.
