# MoviesDrive link extractor — a verified model of its server core

The server of this application scrapes a movie site. `GET /api/movies`
fetches a listing page of `https://moviesdrive.forum` (page 1 at the site
root, page N at `/page/N/`) and turns its poster cards into at most 30
posts, each with a decoded title, a link and, from the main pattern, a
thumbnail. `POST /api/extract-links` fetches any page and reports every
distinct `http(s)` link in it that mentions `mdrive.today`. A small
in-memory store holds the domain settings, and a shared schema gives the
record types and the zod validators of the settings forms.

The model is in eight modules:

- `Wrappers` — `Option` and `Result`.
- `Text` — the JavaScript string operations the routes use: the `\s` and
  `trim` whitespace set, `toLowerCase` on ASCII letters, `includes`, a global
  literal `replace`, `trim`, and the decimal rendering of an integer in a
  template literal.
- `Schema` — the records of shared/schema.ts, the defaults, and the two zod
  validators as functions returning the value or the list of issues.
- `Storage` — `MemStorage` as a class with one field, and client methods that
  exercise its getter and setter.
- `Config` — `BASE_URL` and `MDRIVE_PATTERN`.
- `Listing` — `extractMoviePosts`. The title decoding is three replacement
  functions applied in order, then `trim`. The two scanning loops, with
  their `seen` set and `posts` array, are imperative methods, one per pass.
  Together they are proved equal to a declarative definition: a pass keeps the first
  capture of each URL whose title qualifies, and the fallback pass runs only
  when the first pass kept nothing. The matches of the two listing patterns
  are inputs, in document order.
- `Links` — the link matcher of `POST /api/extract-links`, as pure functions.
  An explicit left-to-right scanner implements `/https?:\/\/[^\s"'<>()\\]+/gi`.
  After it come the `mdrive.today` filter, the trailing-quote strip (proved
  to change nothing) and the insertion-ordered `Set` de-duplication.
- `Routes` — the page number and the listing address. It also holds the
  replies of both handlers for each fetch outcome: a response with a status
  line and a body, or a thrown value.

## Model

| member | source | states |
|---|---|---|
| `Text.Lower` | server/routes.ts:135 | `toLowerCase` keeps the length and lowers each ASCII letter in place |
| `Text.IncludesFrom` | server/routes.ts:135 | `includes` is true exactly when the pattern occurs at some index |
| `Text.ReplaceAllFrom` | server/routes.ts:26-27 | a global literal replace leaves a string without an occurrence unchanged and does not lengthen it when the replacement is no longer than the pattern |
| `Text.ReplaceAll` | server/routes.ts:26-27 | a global literal `replace`: every non-overlapping occurrence of the pattern, scanned from the left, becomes the replacement |
| `Text.LeadingWhitespaceMeaning` | server/routes.ts:29 | the front run `trim` removes is all whitespace and is followed by a non-whitespace character or the end |
| `Text.TrailingWhitespaceMeaning` | server/routes.ts:29 | the back run `trim` removes is all whitespace and is preceded by a non-whitespace character or the start |
| `Text.Trim` | server/routes.ts:29 | `trim`: the input without its leading and its trailing whitespace run |
| `Text.TrimMeaning` | server/routes.ts:29 | `trim` returns the middle part of its input, with whitespace on neither end, and only whitespace is removed |
| `Text.TrimIsSlice` | server/routes.ts:29 | the result of `trim` is one contiguous slice of its input |
| `Text.NatToDecimal` | server/routes.ts:66 | the rendering of a number has at least one digit, only digits, and no leading zero |
| `Text.IntToDecimal` | server/routes.ts:66 | an integer in a template literal: its decimal digits, after a `-` when it is negative |
| `Text.DecimalRoundTrip` | server/routes.ts:66 | reading a rendered number back gives the number |
| `Text.RenderingSign` | server/routes.ts:66 | a rendered integer starts with `-` exactly when it is negative |
| `Text.NatToDecimalInjective` | server/routes.ts:66 | two natural numbers with the same rendering are equal |
| `Text.IntToDecimalInjective` | server/routes.ts:66 | two integers with the same rendering are equal |
| `Schema.RequireNonEmpty` | shared/schema.ts:4-6 | `z.string().min(1, message)` reports no issue exactly when the value is non-empty, and otherwise reports that message on that field |
| `Schema.ParseDomainSettings` | shared/schema.ts:3-7 | the settings are accepted, unchanged, exactly when all three fields are non-empty; a rejection lists an issue for each empty field and for no other field |
| `Schema.DefaultDomainSettingsValid` | shared/schema.ts:11-15 | the default settings pass `domainSettingsSchema` |
| `Schema.ParseWordPressSettings` | shared/schema.ts:57-61 | the settings are accepted, unchanged, exactly when the site URL passes the URL check and username and application password are non-empty; a rejection lists an issue for each failing field and for no other field |
| `Storage.MemStorage.constructor` | server/storage.ts:11-13 | a new store holds the default settings |
| `Storage.MemStorage.GetDomainSettings` | server/storage.ts:15-17 | the getter returns the stored settings |
| `Storage.MemStorage.SetDomainSettings` | server/storage.ts:19-21 | the setter stores its argument as given |
| `Storage.FreshStorageHoldsDefaults` | server/storage.ts:11-17 | a fresh store reports `moviesdrive.forum`, `hubcloud.foo` and `mdrive.today` |
| `Storage.GetIsStable` | server/storage.ts:15-17 | two reads in a row return the same settings, the stored ones |
| `Storage.LastWriteWins` | server/storage.ts:19-21 | after two writes a read returns the second |
| `Storage.StoresUnvalidatedSettings` | server/storage.ts:19-21 | settings the schema rejects (all fields empty) are stored and read back |
| `Listing.NextSemicolon` | server/routes.ts:28 | finds the first `;` at or after an index, or the end |
| `Listing.EntityLength` | server/routes.ts:28 | a match of `/&[^;]+;/` at the start is `&`, at least one non-`;`, then the first `;`; when there is none, the `&` is followed by `;` or no `;` follows at all |
| `Listing.StripEntities` | server/routes.ts:28 | `.replace(/&[^;]+;/g, ' ')`: scanning from the left, each entity match becomes one space and the scan resumes after it |
| `Listing.DecodeTitle` | server/routes.ts:25-29 | the title decoding: `&#038;` to `&`, then `&amp;` to `&`, then every remaining entity to a space, then `trim` |
| `Listing.DecodeTitleClean` | server/routes.ts:25-29 | a decoded title has no leading or trailing whitespace and no `&…;` run; a raw title without `&` decodes to its trimmed self |
| `Listing.DecodeTitleTrimmed` | server/routes.ts:25-29 | a decoded title has no whitespace at either end |
| `Listing.DecodeTitleNoEntity` | server/routes.ts:25-29 | a decoded title holds no `&…;` run, since trimming keeps a slice of the entity-free string |
| `Listing.NoEntityInSlice` | server/routes.ts:28-29 | a slice of a string without `&…;` runs has none either |
| `Listing.NoAmpersandDecodeSteps` | server/routes.ts:26-28 | none of the three replacements changes a title without `&` |
| `Listing.StripEntitiesRemovesAll` | server/routes.ts:28 | after the entity replacement no `&…;` run is left |
| `Listing.SampleFirstStep` | server/routes.ts:26 | the first replacement leaves `&amp;#038;` unchanged |
| `Listing.SampleSecondStep` | server/routes.ts:27 | the second replacement turns `&amp;#038;` into `&#038;` |
| `Listing.SampleThirdStep` | server/routes.ts:28 | the entity replacement turns `&#038;` into a single space |
| `Listing.DecodeIsSequential` | server/routes.ts:25-29 | the steps run in order, so `&amp;#038;` decodes to the empty title (only the second step creates an entity the third removes) |
| `Listing.PosterCaptures` | server/routes.ts:23-24 | a main-pattern match is scanned with its thumbnail |
| `Listing.SimpleCaptures` | server/routes.ts:41-42 | a fallback match is scanned without a thumbnail |
| `Listing.Qualifies` | server/routes.ts:31 | the title filter `title.length > 5` |
| `Listing.Winners` | server/routes.ts:22-35 | the posts of one pass: in scan order, each capture whose title qualifies and whose URL no earlier qualifying capture had |
| `Listing.UncappedPosts` | server/routes.ts:22-53 | the posts of the main pass, or of the fallback pass when the main pass produced none |
| `Listing.ListingPosts` | server/routes.ts:14-56 | what `extractMoviePosts` returns: the uncapped posts cut to the first 30 |
| `Listing.Cap` | server/routes.ts:55 | `slice(0, 30)` keeps the first min(n, 30) posts |
| `Listing.PosterPass` | server/routes.ts:21-35 | the first loop returns exactly the first-winner posts of the main-pattern captures, and `seen` holds the URLs of the captures whose titles qualified |
| `Listing.SimplePass` | server/routes.ts:38-53 | the fallback loop, started from the empty `posts` and `seen`, returns exactly the first-winner posts of the fallback captures, and `seen` holds the URLs of the captures whose titles qualified |
| `Listing.ExtractMoviePosts` | server/routes.ts:14-56 | the function returns exactly the capped first-winner posts of the main pass, or of the fallback pass when the main pass kept nothing, and never more than 30 |
| `Listing.SeenUrlsWitness` | server/routes.ts:31-32 | every URL in `seen` belongs to a scanned capture whose title qualified |
| `Listing.SeenUrlsComplete` | server/routes.ts:31-32 | every scanned capture whose title qualified has its URL in `seen` |
| `Listing.WinnersStep` | server/routes.ts:31-34 | one loop iteration pushes the capture exactly when its URL is unseen and its title is longer than 5, and adds the URL to `seen` exactly when the title qualifies |
| `Listing.NoWinnersNothingSeen` | server/routes.ts:38 | a pass that pushed nothing left `seen` empty, so the fallback pass starts from an empty set |
| `Listing.WinnerIndicesMap` | server/routes.ts:22-35 | post a of a pass is the post of the capture at the a-th first-winner index |
| `Listing.WinnerIndicesIncreasing` | server/routes.ts:22-35 | the posts of a pass come in scan order |
| `Listing.WinnerIndicesExact` | server/routes.ts:22-35 | the captures that become posts are exactly those whose title qualifies and whose URL no earlier qualifying capture had |
| `Listing.WinnersDistinctUrls` | server/routes.ts:31-33 | no two posts of a pass share a URL |
| `Listing.WinnersPrefix` | server/routes.ts:22-35 | the posts of a prefix of the scan are a prefix of the posts: output order follows scan order |
| `Listing.ListingPostsProperties` | server/routes.ts:14-56 | at most 30 posts, distinct URLs, every title longer than 5, trimmed and entity-free, and either all posts have a thumbnail or none has |
| `Listing.DuplicateLinkGivesOnePost` | server/routes.ts:31-34 | two poster cards with the same link give one post, from the first card |
| `Listing.ListingPostsLinks` | server/routes.ts:19-39 | when the patterns capture only links that start with `BASE_URL/` in any letter case (the fallback's with four digits), so does every post |
| `Links.SchemeLength` | server/routes.ts:130 | the scheme part of a match has length 0, 7 or 8 and lies inside the page |
| `Links.SchemeLengthMeaning` | server/routes.ts:130 | the scheme is found exactly when `http://` or `https://` stands there in any letter case, and holds no excluded character |
| `Links.RunLength` | server/routes.ts:130 | the run of allowed characters is maximal: it stops at the end or at an excluded character |
| `Links.SchemeCharAllowed` | server/routes.ts:130 | no character of a scheme is excluded by the character class |
| `Links.MatchLength` | server/routes.ts:130 | a match lies inside the page |
| `Links.MatchLengthMeaning` | server/routes.ts:130 | a match is a scheme and at least one allowed character, up to the end or the next excluded character; no match means no scheme or no allowed character after it |
| `Links.MatchTable` | server/routes.ts:130 | the table holds the match length at each index of the page, and no entry runs past the end |
| `Links.ScanFrom` | server/routes.ts:131 | every span found lies within the part of the page scanned |
| `Links.ScanFromMatches` | server/routes.ts:131 | every span found is a full match at its start |
| `Links.ScanFromOrdered` | server/routes.ts:131 | the spans are in document order and do not overlap |
| `Links.ScanFromComplete` | server/routes.ts:131 | no match starts at a position that no span covers |
| `Links.MatchSpans` | server/routes.ts:131 | every match found is a non-empty range of the page |
| `Links.MatchSpansProperties` | server/routes.ts:130-131 | the matches found are maximal matches at their starts, in document order without overlap, and no match starts at an index outside them |
| `Links.Tokens` | server/routes.ts:131 | the tokens are the page's text at the spans, one per span, in order |
| `Links.MatchShape` | server/routes.ts:130 | the text of one match starts with `http://` or `https://` in any case and holds no excluded character |
| `Links.TokensShape` | server/routes.ts:130-131 | every token starts with `http://` or `https://` in any case and holds no whitespace, quote, angle bracket, parenthesis or backslash |
| `Links.MentionsMdrive` | server/routes.ts:135 | the filter test: the lower-cased link includes `mdrive.today` |
| `Links.KeptIndices` | server/routes.ts:135 | the indices of the links `.filter` keeps, in order |
| `Links.FilterMdriveIndices` | server/routes.ts:135 | entry a of the filtered list is the link at the a-th kept index |
| `Links.KeptIndicesExact` | server/routes.ts:135 | the filter keeps links in page order, and keeps exactly the positions whose link mentions `mdrive.today`, duplicates included |
| `Links.FilterMdrive` | server/routes.ts:135 | a link is kept exactly when it was a token and mentions `mdrive.today` case-insensitively |
| `Links.StripTrailingQuotes` | server/routes.ts:136 | the strip removes exactly the trailing run of quotes and backslashes |
| `Links.StripAll` | server/routes.ts:136 | the strip is applied to every link, keeping the count and order |
| `Links.Dedup` | server/routes.ts:133-137 | `[...new Set(xs)]`: each value at its first occurrence, in input order |
| `Links.DedupIsFirstOccurrences` | server/routes.ts:133-137 | entry a of the Set spread is the link at the a-th first-occurrence index |
| `Links.FirstOccurrencesIncreasing` | server/routes.ts:133-137 | the Set spread keeps the links in their original order |
| `Links.FirstOccurrencesExact` | server/routes.ts:133-137 | the Set spread keeps exactly the first occurrence of each link |
| `Links.DedupSet` | server/routes.ts:133-137 | the Set spread has no repeated link and the same links as its input |
| `Links.MatchedLinks` | server/routes.ts:130-137 | `matchedLinks`: the tokens of the page, filtered by the pattern, stripped of trailing quotes and de-duplicated |
| `Links.StripIsNoOp` | server/routes.ts:136 | the trailing-quote strip changes no filtered token |
| `Links.MatchedLinksProperties` | server/routes.ts:133-137 | `matchedLinks` repeats no link and holds exactly the tokens that mention `mdrive.today`, in their original case; each has an http(s) scheme and no excluded character |
| `Routes.PageNumber` | server/routes.ts:65 | `parseInt` falling back to 1: NaN and 0 give 1, any other number is kept |
| `Routes.ListingUrl` | server/routes.ts:66 | the listing address is `BASE_URL` exactly when the page is 1, and `BASE_URL/page/N/` otherwise |
| `Routes.ListingUrlInjective` | server/routes.ts:65-66 | different pages are fetched from different addresses |
| `Routes.ListingUrlOnSite` | server/routes.ts:66 | every listing address starts with `BASE_URL`, and any page but the first lies under `BASE_URL/`, the prefix both listing patterns require |
| `Routes.IsOk` | server/routes.ts:70 | `response.ok`: a status from 200 to 299 |
| `Routes.ThrownMessage` | server/routes.ts:92 | a thrown `Error` gives its message, anything else `An error occurred` |
| `Routes.MovieListing` | server/routes.ts:68-95 | `totalFound` is the number of posts; there is no error exactly when the response is ok; an error comes with no posts; an ok page gives the extracted posts, a bad status `Failed to fetch: {status} {statusText}`, and a throw its message |
| `Routes.MoviesHandler` | server/routes.ts:63-96 | `GET /api/movies`: fetch the listing address of the page, then build the reply from the outcome |
| `Routes.MoviesHandlerProperties` | server/routes.ts:63-96 | the listing reply counts its posts correctly and holds at most 30, with distinct URLs and clean titles, thumbnails on all or none |
| `Routes.IsMissing` | server/routes.ts:102 | `!url`: the body has no `url` field or an empty one |
| `Routes.ExtractLinksReply` | server/routes.ts:98-157 | status 400 exactly when `url` is missing or empty, with an empty result and `URL is required`; otherwise the result names the URL; `totalFound` counts the links, `processingTime` is the elapsed time, there are no movie details, and an error comes with no links; an ok page gives `matchedLinks`, a bad status `Failed to fetch: {status}`, and a throw its message |
| `Routes.MissingUrlFetchesNothing` | server/routes.ts:102-111 | a request without `url` is answered before any fetch: the reply does not depend on the fetch |
| `Routes.ExtractLinksReplyProperties` | server/routes.ts:127-146 | the reported links are distinct and are http(s) tokens that mention `mdrive.today` with no excluded character, and every such token of an ok page is reported |
| `Routes.DefaultsMatchConstants` | shared/schema.ts:11-15 | the default pattern is `MDRIVE_PATTERN` (server/routes.ts:6), and the default MoviesDrive domain is the host of `BASE_URL` (server/routes.ts:5) |

## Left out

- The regular expressions `posterPattern` and `simplePattern` (server/routes.ts:19, 39) are not modelled. Their lazy `[\s\S]*?` parts and backtracking make them a regex engine's job. Their matches, in document order, are the inputs to `Listing.ExtractMoviePosts`. `Listing.ListingPostsLinks` takes what they guarantee as a precondition: links that start with `BASE_URL/` in any ASCII letter case (both patterns carry the `i` flag), and four digits in fallback links.
- The handlers' I/O is not modelled: `fetch`, `response.text()`, Express `req`/`res`, `registerRoutes`, the request headers and `Date.now()`. The fetch is a function from address to outcome, a failing `response.text()` is one more thrown outcome, and `processingTime` is a number supplied by the caller.
- `Routes.MovieListing`, `Routes.ExtractLinksReply`: the handlers are async and await the fetch; the model is the value each one sends, as a function of the fetch outcome.
- `Routes.PageNumber`: `parseInt` itself is not modelled; its result is `Option<int>`, with `None` for NaN. A parsed value is a JavaScript number; the model takes it to be an exact integer (see `Text.IntToDecimal`).
- `Routes.ExtractLinksReply`: the request body's `url` is `Option<string>`. Other falsy JSON values (`0`, `false`, `null`) and non-string truthy values are not modelled.
- `Text.Lower`: only ASCII letters are lowered. `toLowerCase` also lowers letters of other scripts, and the model leaves those unchanged. The scheme comparison of the `i` flag is exact, because outside Unicode mode only ASCII letters fold to `h`, `t`, `p` and `s`.
- `Text.IntToDecimal`: renders the exact decimal digits of an integer, which is what a template literal prints only for magnitudes up to 2^53, where every integer is an exact double. Above that, `parseInt` rounds to a double and the literal prints its shortest round-trip digits padded with zeros (2^60 prints as `1152921504606847000`), so for such page numbers the address the model builds can differ from the one fetched.
- `Listing.Qualifies`: titles are sequences of code points, while JavaScript's `length` counts UTF-16 units. A title with characters outside the Basic Multilingual Plane can be longer in JavaScript than in the model.
- zod's `.url()` check (shared/schema.ts:58) is library code that is not part of this model; `Schema.ParseWordPressSettings` takes it as a parameter `isUrl`.
- The order of the issue list a zod rejection returns is stated only as membership: which issues are present, not their order.
- `Storage.MemStorage.GetDomainSettings`: settings are values in the model, so the object the getter returns cannot be changed behind the store's back. In JavaScript it is the stored object itself, and a caller that mutated it would change the store; the model does not capture that aliasing. The constructor's spread copy of the defaults is implicit for the same reason.
- The `IStorage` interface and the exported `storage` singleton (server/storage.ts:3-6, 24) are not modelled; they add no behaviour.
- Detail-page extraction, nested-link resolution, content assembly and WordPress publishing are not modelled. shared/schema.ts declares their types (`MovieDetails`, `DownloadLink`, `WordPressPostRequest`, `WordPressPostResult`), and the model declares them too, but no code in server/routes.ts implements them. `DownloadLink`'s field `label` is `labelText` in the model, because `label` is a Dafny keyword.
- The client page client/src/pages/home.tsx is not part of this model. It is UI code and posts to `/api/find-links`, which the server does not serve.
