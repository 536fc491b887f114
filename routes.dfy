/** The value-level part of the two handlers of server/routes.ts: the
    listing page address built from the `page` query parameter, and the
    results `GET /api/movies` and `POST /api/extract-links` send back for
    each outcome of the page fetch. The fetch itself, Express and the clock
    are not modelled: the fetch is a function from address to outcome and
    the elapsed time is a number the caller supplies. */
module Routes {
  import opened Wrappers
  import opened Text
  import opened Schema
  import opened Config
  import opened Listing
  import opened Links

  // ---------------------------------------------------------------------
  // The listing page address.
  // ---------------------------------------------------------------------

  /** `parseInt(req.query.page) || 1`, where `parsed` is None when parseInt
      gives NaN: NaN and 0 are falsy and become 1, anything else is kept. */
  function PageNumber(parsed: Option<int>): (page: int)
    ensures page != 0
    ensures page == 1 <==> parsed.None? || parsed.value == 0 || parsed.value == 1
    ensures parsed.Some? && parsed.value != 0 ==> page == parsed.value
  {
    if parsed.None? || parsed.value == 0 then 1 else parsed.value
  }

  /** The address `GET /api/movies` fetches. */
  function ListingUrl(parsed: Option<int>): (url: string)
    ensures url == BaseUrl <==> PageNumber(parsed) == 1
    ensures PageNumber(parsed) != 1 ==>
      url == BaseUrl + "/page/" + IntToDecimal(PageNumber(parsed)) + "/"
  {
    var page := PageNumber(parsed);
    if page == 1 then BaseUrl else BaseUrl + "/page/" + IntToDecimal(page) + "/"
  }

  /** Different page numbers are fetched from different addresses. */
  lemma ListingUrlInjective(a: Option<int>, b: Option<int>)
    requires ListingUrl(a) == ListingUrl(b)
    ensures PageNumber(a) == PageNumber(b)
  {
    var pa, pb := PageNumber(a), PageNumber(b);
    if pa != 1 && pb != 1 {
      var prefix := BaseUrl + "/page/";
      var da, db := IntToDecimal(pa), IntToDecimal(pb);
      var ua, ub := prefix + da + "/", prefix + db + "/";
      assert |da| == |db|;
      assert da == ua[|prefix|..|ua| - 1];
      assert db == ub[|prefix|..|ub| - 1];
      IntToDecimalInjective(pa, pb);
    }
  }

  /** Every listing address is on the site, and any page but the first sits
      under `/page/`. */
  lemma ListingUrlOnSite(parsed: Option<int>)
    ensures BaseUrl <= ListingUrl(parsed)
    ensures PageNumber(parsed) != 1 ==> IsPostLink(ListingUrl(parsed))
  {
    var url := ListingUrl(parsed);
    if PageNumber(parsed) != 1 {
      assert url == BaseUrl + "/" + ("page/" + IntToDecimal(PageNumber(parsed)) + "/");
      assert url[..|BaseUrl| + 1] == BaseUrl + "/";
      SitePrefixIsLower();
    }
  }

  // ---------------------------------------------------------------------
  // Fetch outcomes.
  // ---------------------------------------------------------------------

  /** What a `catch` clause receives: an `Error` with its message, or some
      other thrown value. */
  datatype Thrown = ErrorValue(message: string) | NonErrorValue

  /** The outcome of `fetch` followed by `response.text()`: a response with
      its status line and body, or a thrown value. */
  datatype FetchOutcome =
    | Response(status: int, statusText: string, body: string)
    | Threw(thrown: Thrown)

  /** `response.ok`: a status in the range 200-299. */
  predicate IsOk(status: int) {
    200 <= status <= 299
  }

  /** `error instanceof Error ? error.message : "An error occurred"`. */
  function ThrownMessage(t: Thrown): (message: string)
    ensures t.ErrorValue? ==> message == t.message
    ensures t.NonErrorValue? ==> message == "An error occurred"
  {
    match t
    case ErrorValue(m) => m
    case NonErrorValue => "An error occurred"
  }

  // ---------------------------------------------------------------------
  // GET /api/movies
  // ---------------------------------------------------------------------

  /** The result sent for one fetch outcome. `primary` and `fallback` give
      the two listing patterns' captures in a page. */
  function MovieListing(outcome: FetchOutcome,
                        primary: string -> seq<PosterMatch>,
                        fallback: string -> seq<SimpleMatch>): (r: MovieListResult)
    ensures r.totalFound == |r.posts|
    ensures r.error.None? <==> outcome.Response? && IsOk(outcome.status)
    ensures r.error.Some? ==> r.posts == []
    ensures outcome.Response? && IsOk(outcome.status) ==>
      r.posts == ListingPosts(primary(outcome.body), fallback(outcome.body))
    ensures outcome.Response? && !IsOk(outcome.status) ==>
      r.error == Some("Failed to fetch: " + IntToDecimal(outcome.status) + " " + outcome.statusText)
    ensures outcome.Threw? ==> r.error == Some(ThrownMessage(outcome.thrown))
  {
    match outcome
    case Response(status, statusText, body) =>
      if IsOk(status) then
        var posts := ListingPosts(primary(body), fallback(body));
        MovieListResult(posts, |posts|, None)
      else
        MovieListResult([], 0, Some("Failed to fetch: " + IntToDecimal(status) + " " + statusText))
    case Threw(t) => MovieListResult([], 0, Some(ThrownMessage(t)))
  }

  /** The whole handler: fetch the listing address for the page, then shape
      the result. */
  function MoviesHandler(parsed: Option<int>, fetch: string -> FetchOutcome,
                         primary: string -> seq<PosterMatch>,
                         fallback: string -> seq<SimpleMatch>): MovieListResult
  {
    MovieListing(fetch(ListingUrl(parsed)), primary, fallback)
  }

  /** A successful listing reply holds at most 30 posts with distinct
      addresses and clean titles, counted by `totalFound`, and either all
      of them have a thumbnail or none has. */
  lemma MoviesHandlerProperties(parsed: Option<int>, fetch: string -> FetchOutcome,
                                primary: string -> seq<PosterMatch>,
                                fallback: string -> seq<SimpleMatch>)
    ensures MoviesHandler(parsed, fetch, primary, fallback).totalFound
            == |MoviesHandler(parsed, fetch, primary, fallback).posts| <= MaxPosts
    ensures forall a, b :: 0 <= a < b < |MoviesHandler(parsed, fetch, primary, fallback).posts| ==>
      MoviesHandler(parsed, fetch, primary, fallback).posts[a].url
      != MoviesHandler(parsed, fetch, primary, fallback).posts[b].url
    ensures forall p :: p in MoviesHandler(parsed, fetch, primary, fallback).posts ==>
      |p.title| > 5 && IsTrimmed(p.title) && HasNoEntity(p.title)
    ensures (forall p :: p in MoviesHandler(parsed, fetch, primary, fallback).posts ==> p.thumbnail.Some?)
         || (forall p :: p in MoviesHandler(parsed, fetch, primary, fallback).posts ==> p.thumbnail.None?)
  {
    var outcome := fetch(ListingUrl(parsed));
    if outcome.Response? && IsOk(outcome.status) {
      ListingPostsProperties(primary(outcome.body), fallback(outcome.body));
    }
  }

  // ---------------------------------------------------------------------
  // POST /api/extract-links
  // ---------------------------------------------------------------------

  /** The HTTP status and the JSON body of a reply. */
  datatype LinkReply = LinkReply(status: int, result: LinkFinderResult)

  /** `!url` for the `url` field of the request body, where None stands for
      a missing field. */
  predicate IsMissing(bodyUrl: Option<string>) {
    bodyUrl.None? || bodyUrl.value == ""
  }

  /** The reply for a request body's `url` field. `elapsed` is
      `Date.now() - startTime`. */
  function ExtractLinksReply(bodyUrl: Option<string>, fetch: string -> FetchOutcome, elapsed: nat): (reply: LinkReply)
    ensures reply.status == 400 <==> IsMissing(bodyUrl)
    ensures IsMissing(bodyUrl) ==>
      reply.result == LinkFinderResult("", [], 0, elapsed, None, Some("URL is required"))
    ensures !IsMissing(bodyUrl) ==> reply.status == 200 && reply.result.url == bodyUrl.value
    ensures reply.result.totalFound == |reply.result.matchedLinks|
    ensures reply.result.processingTime == elapsed
    ensures reply.result.movieDetails.None?
    ensures reply.result.error.Some? ==> reply.result.matchedLinks == []
    ensures !IsMissing(bodyUrl) ==> match fetch(bodyUrl.value)
      case Response(status, _, body) =>
        if IsOk(status) then reply.result.error.None? && reply.result.matchedLinks == MatchedLinks(body)
        else reply.result.error == Some("Failed to fetch: " + IntToDecimal(status))
      case Threw(t) => reply.result.error == Some(ThrownMessage(t))
  {
    if IsMissing(bodyUrl) then
      LinkReply(400, LinkFinderResult("", [], 0, elapsed, None, Some("URL is required")))
    else
      var url := bodyUrl.value;
      match fetch(url)
      case Response(status, _, body) =>
        if IsOk(status) then
          var links := MatchedLinks(body);
          LinkReply(200, LinkFinderResult(url, links, |links|, elapsed, None, None))
        else
          LinkReply(200, LinkFinderResult(url, [], 0, elapsed, None, Some("Failed to fetch: " + IntToDecimal(status))))
      case Threw(t) =>
        LinkReply(200, LinkFinderResult(url, [], 0, elapsed, None, Some(ThrownMessage(t))))
  }

  /** A request without a `url` is answered before anything is fetched: the
      reply does not depend on what the fetch would return. */
  lemma MissingUrlFetchesNothing(bodyUrl: Option<string>, f: string -> FetchOutcome, g: string -> FetchOutcome,
                                 elapsed: nat)
    requires IsMissing(bodyUrl)
    ensures ExtractLinksReply(bodyUrl, f, elapsed) == ExtractLinksReply(bodyUrl, g, elapsed)
  {
  }

  /** The links of a successful reply are distinct, each is a token of the
      page that mentions the pattern, starts with an http(s) scheme and
      holds no excluded character, and every such token is reported. */
  lemma ExtractLinksReplyProperties(bodyUrl: Option<string>, fetch: string -> FetchOutcome, elapsed: nat)
    requires !IsMissing(bodyUrl)
    ensures forall a, b :: 0 <= a < b < |ExtractLinksReply(bodyUrl, fetch, elapsed).result.matchedLinks| ==>
      ExtractLinksReply(bodyUrl, fetch, elapsed).result.matchedLinks[a]
      != ExtractLinksReply(bodyUrl, fetch, elapsed).result.matchedLinks[b]
    ensures forall x :: x in ExtractLinksReply(bodyUrl, fetch, elapsed).result.matchedLinks ==>
      MentionsMdrive(x) && StartsWithScheme(x) && forall m :: 0 <= m < |x| ==> !IsUrlStop(x[m])
    ensures fetch(bodyUrl.value).Response? && IsOk(fetch(bodyUrl.value).status) ==>
      forall x :: x in Tokens(fetch(bodyUrl.value).body) && MentionsMdrive(x) ==>
        x in ExtractLinksReply(bodyUrl, fetch, elapsed).result.matchedLinks
  {
    var outcome := fetch(bodyUrl.value);
    if outcome.Response? && IsOk(outcome.status) {
      MatchedLinksProperties(outcome.body);
    }
  }

  // ---------------------------------------------------------------------
  // The constants and the stored defaults.
  // ---------------------------------------------------------------------

  /** The default settings name the same pattern as `MDRIVE_PATTERN`, and the
      default MoviesDrive domain is the host of `BASE_URL`. */
  lemma DefaultsMatchConstants()
    ensures DefaultDomainSettings.mdrivePattern == MdrivePattern
    ensures BaseUrl == "https://" + DefaultDomainSettings.moviesDriveDomain
  {
  }
}
