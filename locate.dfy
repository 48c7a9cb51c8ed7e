/**
 * The product-lookup decoder: what `locateProduct` makes of the HTTP response
 * once it has arrived; the tail of `getAisleInfo` makes the same decision,
 * though it throws a plain error for a failed status. The request
 * itself (URL, headers, store id) is I/O and is not modelled; the response is
 * an input.
 */
module Locate {
  import opened Wrappers

  /** The fields of one search result that the decoder reads. */
  datatype Article = Article(
    locationDescription: string,
    aisle: Option<string>,
    articleImageSmallUri: string)

  /** The JSON body: unreadable, or a value whose `results` list may be missing (or the value `null`). */
  datatype Body = Unreadable | Json(results: Option<seq<Article>>)

  datatype Response = Response(ok: bool, status: int, body: Body)

  /** The enrichment data written to a row: `AisleReminderPartial`. */
  datatype Location = Location(aisle: Option<string>, image: Option<string>)

  /**
   * Why a lookup failed: the `HTTPError` carrying the response status, a body
   * `response.json()` could not read, or a `fetch` that rejected before any
   * response arrived.
   */
  datatype LookupError = HttpError(status: int) | BadBody | Network

  const UnknownAisle: string := "Unknown"

  /** The body has no result to use: no body value, no `results`, or an empty one. */
  predicate NoResults(body: Body)
    requires body.Json?
  {
    body.results.None? || |body.results.value| == 0
  }

  /** The first result's location text wins when non-empty (`||` skips ""); otherwise its aisle, possibly null. */
  function FromArticle(a: Article): (loc: Location)
    ensures loc.image == Some(a.articleImageSmallUri)
    ensures a.locationDescription != "" ==> loc.aisle == Some(a.locationDescription)
    ensures a.locationDescription == "" ==> loc.aisle == a.aisle
  {
    Location(if a.locationDescription != "" then Some(a.locationDescription) else a.aisle,
             Some(a.articleImageSmallUri))
  }

  /** `locateProduct` after `fetch` resolved. */
  function Decode(resp: Response): (r: Result<Location, LookupError>)
    ensures r == Failure(HttpError(resp.status)) <==> !resp.ok
    ensures r == Failure(BadBody) <==> resp.ok && resp.body.Unreadable?
    ensures r.Success? <==> resp.ok && resp.body.Json?
    ensures r.Success? ==> (NoResults(resp.body) <==> r.value.image.None?)
    ensures r.Success? && NoResults(resp.body) ==> r.value == Location(Some(UnknownAisle), None)
    ensures r.Success? && !NoResults(resp.body) ==> r.value == FromArticle(resp.body.results.value[0])
  {
    if !resp.ok then Failure(HttpError(resp.status))
    else match resp.body
      case Unreadable => Failure(BadBody)
      case Json(results) =>
        if results.Some? && |results.value| > 0 then Success(FromArticle(results.value[0]))
        else Success(Location(Some(UnknownAisle), None))
  }

  /** `getAisleInfo` / `locateProduct` as a whole, given what `fetch` produced (`None`: it rejected). */
  function AisleInfo(fetched: Option<Response>): (r: Result<Location, LookupError>)
    ensures fetched.None? ==> r == Failure(Network)
    ensures fetched.Some? ==> r == Decode(fetched.value)
  {
    match fetched
    case None => Failure(Network)
    case Some(resp) => Decode(resp)
  }

  /** Only the first result counts: whatever follows it never changes the outcome. */
  lemma FirstResultOnly(ok: bool, status: int, first: Article, rest: seq<Article>)
    ensures Decode(Response(ok, status, Json(Some([first] + rest))))
         == Decode(Response(ok, status, Json(Some([first]))))
  {
  }

  /** A not-OK response is a failure carrying exactly its status, whatever its body. */
  lemma NotOkCarriesStatus(status: int, body: Body)
    ensures Decode(Response(false, status, body)) == Failure(HttpError(status))
  {
  }

  /** Finding nothing is a success with the "Unknown" aisle and no image, not a failure. */
  lemma NothingFoundIsSuccess(status: int)
    ensures Decode(Response(true, status, Json(None))) == Success(Location(Some(UnknownAisle), None))
    ensures Decode(Response(true, status, Json(Some([])))) == Success(Location(Some(UnknownAisle), None))
  {
  }
}
