/** The shared record types and the two zod validators of shared/schema.ts.
    A zod `safeParse` is modelled as a function returning either the input
    or the list of issues, one per failing field, in declaration order. */
module Schema {
  import opened Wrappers

  datatype DomainSettings = DomainSettings(
    moviesDriveDomain: string,
    hubcloudDomain: string,
    mdrivePattern: string)

  const DefaultDomainSettings: DomainSettings :=
    DomainSettings("moviesdrive.forum", "hubcloud.foo", "mdrive.today")

  /** One zod issue: the path of the failing field and its message. */
  datatype Issue = Issue(path: string, message: string)

  /** `z.string().min(1, message)` on the field called `path`. */
  function RequireNonEmpty(path: string, value: string, message: string): (issues: seq<Issue>)
    ensures issues == [] <==> |value| >= 1
    ensures issues != [] ==> issues == [Issue(path, message)]
  {
    if |value| >= 1 then [] else [Issue(path, message)]
  }

  function DomainSettingsIssues(s: DomainSettings): seq<Issue> {
    RequireNonEmpty("moviesDriveDomain", s.moviesDriveDomain, "MoviesDrive domain is required")
    + RequireNonEmpty("hubcloudDomain", s.hubcloudDomain, "HubCloud domain is required")
    + RequireNonEmpty("mdrivePattern", s.mdrivePattern, "mdrive pattern is required")
  }

  /** `domainSettingsSchema.safeParse(s)`. The object is accepted exactly when
      all three fields are non-empty; each empty field contributes its own
      issue, so one failing field fails the whole object. */
  function ParseDomainSettings(s: DomainSettings): (r: Result<DomainSettings, seq<Issue>>)
    ensures r.Success? <==>
      |s.moviesDriveDomain| >= 1 && |s.hubcloudDomain| >= 1 && |s.mdrivePattern| >= 1
    ensures r.Success? ==> r.value == s
    ensures r.Failure? ==> |r.error| >= 1
    ensures r.Failure? ==>
      (Issue("moviesDriveDomain", "MoviesDrive domain is required") in r.error <==> |s.moviesDriveDomain| == 0)
    ensures r.Failure? ==>
      (Issue("hubcloudDomain", "HubCloud domain is required") in r.error <==> |s.hubcloudDomain| == 0)
    ensures r.Failure? ==>
      (Issue("mdrivePattern", "mdrive pattern is required") in r.error <==> |s.mdrivePattern| == 0)
  {
    var issues := DomainSettingsIssues(s);
    if issues == [] then Success(s) else Failure(issues)
  }

  predicate IsValidDomainSettings(s: DomainSettings) {
    ParseDomainSettings(s).Success?
  }

  lemma DefaultDomainSettingsValid()
    ensures IsValidDomainSettings(DefaultDomainSettings)
  {
  }

  datatype MoviePost = MoviePost(title: string, url: string, thumbnail: Option<string>)

  datatype MovieListResult = MovieListResult(
    posts: seq<MoviePost>,
    totalFound: nat,
    error: Option<string>)

  datatype DownloadLink = DownloadLink(labelText: string, url: string)  // `label` is a Dafny keyword

  datatype MovieDetails = MovieDetails(
    title: string,
    posterImage: Option<string>,
    screenshots: seq<string>,
    genre: Option<string>,
    language: Option<string>,
    quality: Option<string>,
    imdbRating: Option<string>,
    director: Option<string>,
    storyline: Option<string>,
    downloadLinks: seq<DownloadLink>,
    sourceUrl: string)

  datatype LinkFinderResult = LinkFinderResult(
    url: string,
    matchedLinks: seq<string>,
    totalFound: nat,
    processingTime: nat,
    movieDetails: Option<MovieDetails>,
    error: Option<string>)

  datatype WordPressSettings = WordPressSettings(siteUrl: string, username: string, appPassword: string)

  /** `wordpressSettingsSchema.safeParse(s)`. zod's `.url()` check is a
      library routine and is passed in as `isUrl`. */
  function ParseWordPressSettings(s: WordPressSettings, isUrl: string -> bool): (r: Result<WordPressSettings, seq<Issue>>)
    ensures r.Success? <==> isUrl(s.siteUrl) && |s.username| >= 1 && |s.appPassword| >= 1
    ensures r.Success? ==> r.value == s
    ensures r.Failure? ==>
      (Issue("siteUrl", "Please enter a valid WordPress site URL") in r.error <==> !isUrl(s.siteUrl))
    ensures r.Failure? ==>
      (Issue("username", "Username is required") in r.error <==> |s.username| == 0)
    ensures r.Failure? ==>
      (Issue("appPassword", "Application password is required") in r.error <==> |s.appPassword| == 0)
  {
    var urlIssues := if isUrl(s.siteUrl) then [] else [Issue("siteUrl", "Please enter a valid WordPress site URL")];
    var issues := urlIssues
      + RequireNonEmpty("username", s.username, "Username is required")
      + RequireNonEmpty("appPassword", s.appPassword, "Application password is required");
    if issues == [] then Success(s) else Failure(issues)
  }

  datatype WordPressPostRequest = WordPressPostRequest(movieDetails: MovieDetails, settings: WordPressSettings)

  datatype WordPressPostResult = WordPressPostResult(
    success: bool,
    postId: Option<int>,
    postUrl: Option<string>,
    error: Option<string>)
}
