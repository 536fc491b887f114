/** `extractMoviePosts` of server/routes.ts: the title decoding, the
    first-wins de-duplication by URL, the fallback pass and the cap of 30.
    The two regular expressions are not modelled; their matches, in document
    order, are the inputs. */
module Listing {
  import opened Wrappers
  import opened Text
  import opened Schema
  import opened Config

  const MaxPosts: nat := 30

  // ---------------------------------------------------------------------
  // Title decoding: three global replacements in sequence, then trim.
  // ---------------------------------------------------------------------

  /** The first index at or after k holding ';', or |s| if there is none. */
  function NextSemicolon(s: string, k: nat): (j: nat)
    requires k <= |s|
    decreases |s| - k
    ensures k <= j <= |s|
    ensures j < |s| ==> s[j] == ';'
    ensures forall m :: k <= m < j ==> s[m] != ';'
  {
    if k == |s| || s[k] == ';' then k else NextSemicolon(s, k + 1)
  }

  /** The length of the match of `/&[^;]+;/` at the start of s, or 0 when
      that expression does not match there. The greedy `[^;]+` stops before
      the first ';', so a match needs a ';' that is not right after the '&'. */
  function EntityLength(s: string): (n: nat)
    ensures n <= |s|
    ensures n > 0 ==> n >= 3 && s[0] == '&' && s[n - 1] == ';'
    ensures n > 0 ==> forall m :: 0 < m < n - 1 ==> s[m] != ';'
    ensures n == 0 && s != [] && s[0] == '&' ==>
      (|s| > 1 && s[1] == ';') || forall m :: 0 < m < |s| ==> s[m] != ';'
  {
    if s != [] && s[0] == '&' then
      var j := NextSemicolon(s, 1);
      if 2 <= j < |s| then j + 1 else 0
    else 0
  }

  /** `/&[^;]+;/` matches nowhere in s. */
  predicate HasNoEntity(s: string) {
    forall i :: 0 <= i < |s| ==> EntityLength(s[i..]) == 0
  }

  /** `.replace(/&[^;]+;/g, ' ')`. */
  function StripEntities(s: string): string
    decreases |s|
  {
    if s == [] then []
    else if EntityLength(s) > 0 then [' '] + StripEntities(s[EntityLength(s)..])
    else [s[0]] + StripEntities(s[1..])
  }

  /** The title decoding of routes.ts: `&#038;` and then `&amp;` become
      `&`, every remaining entity becomes a space, and the result is
      trimmed. */
  function DecodeTitle(raw: string): string {
    Trim(StripEntities(ReplaceAll(ReplaceAll(raw, "&#038;", "&"), "&amp;", "&")))
  }

  /** A decoded title has no whitespace at either end and no `&…;` run left;
      a raw title without `&` only loses its surrounding whitespace. */
  lemma DecodeTitleClean(raw: string)
    ensures IsTrimmed(DecodeTitle(raw))
    ensures HasNoEntity(DecodeTitle(raw))
    ensures (forall k :: 0 <= k < |raw| ==> raw[k] != '&') ==> DecodeTitle(raw) == Trim(raw)
  {
    DecodeTitleTrimmed(raw);
    DecodeTitleNoEntity(raw);
    NoAmpersandDecodeSteps(raw);
  }

  lemma DecodeTitleTrimmed(raw: string)
    ensures IsTrimmed(DecodeTitle(raw))
  {
    var step3 := StripEntities(ReplaceAll(ReplaceAll(raw, "&#038;", "&"), "&amp;", "&"));
    assert DecodeTitle(raw) == Trim(step3);
    TrimMeaning(step3);
  }

  lemma DecodeTitleNoEntity(raw: string)
    ensures HasNoEntity(DecodeTitle(raw))
  {
    var step2 := ReplaceAll(ReplaceAll(raw, "&#038;", "&"), "&amp;", "&");
    var step3 := StripEntities(step2);
    assert DecodeTitle(raw) == Trim(step3);
    StripEntitiesRemovesAll(step2);
    TrimIsSlice(step3);
    var lw := LeadingWhitespace(step3);
    NoEntityInSlice(step3, lw, lw + |Trim(step3)|);
  }

  /** Without an '&' none of the three replacements changes anything. */
  lemma NoAmpersandDecodeSteps(raw: string)
    ensures (forall k :: 0 <= k < |raw| ==> raw[k] != '&') ==>
      StripEntities(ReplaceAll(ReplaceAll(raw, "&#038;", "&"), "&amp;", "&")) == raw
  {
    if forall k :: 0 <= k < |raw| ==> raw[k] != '&' {
      NoAmpersandNoOccurrence(raw, "&#038;");
      NoAmpersandNoOccurrence(raw, "&amp;");
      NoAmpersandStripIdentity(raw);
    }
  }

  lemma NoAmpersandNoOccurrence(s: string, pat: string)
    requires |pat| > 0 && pat[0] == '&'
    requires forall k :: 0 <= k < |s| ==> s[k] != '&'
    ensures forall j :: 0 <= j < |s| ==> !OccursAt(s, pat, j)
  {
    forall j | 0 <= j < |s|
      ensures !OccursAt(s, pat, j)
    {
      if j + |pat| <= |s| {
        assert s[j..j + |pat|][0] == s[j];
      }
    }
  }

  lemma {:induction false} NoAmpersandStripIdentity(s: string)
    requires forall k :: 0 <= k < |s| ==> s[k] != '&'
    ensures StripEntities(s) == s
  {
    if s != [] {
      NoAmpersandStripIdentity(s[1..]);
      assert s == [s[0]] + s[1..];
    }
  }

  /** Every character StripEntities emits is a space or comes from its input;
      a leading ';' is kept in place. */
  lemma {:induction false} StripEntitiesSemicolons(s: string)
    ensures forall k :: 0 <= k < |StripEntities(s)| && StripEntities(s)[k] == ';' ==>
      exists m :: 0 <= m < |s| && s[m] == ';'
    ensures s != [] && s[0] == ';' ==> StripEntities(s) != [] && StripEntities(s)[0] == ';'
  {
    if s != [] {
      var n := EntityLength(s);
      if n > 0 {
        StripEntitiesSemicolons(s[n..]);
        var rest := StripEntities(s[n..]);
        forall k | 0 <= k < |StripEntities(s)| && StripEntities(s)[k] == ';'
          ensures exists m :: 0 <= m < |s| && s[m] == ';'
        {
          assert k >= 1 && rest[k - 1] == ';';
          var m :| 0 <= m < |s[n..]| && s[n..][m] == ';';
          assert s[n + m] == ';';
        }
      } else {
        StripEntitiesSemicolons(s[1..]);
        var rest := StripEntities(s[1..]);
        forall k | 0 <= k < |StripEntities(s)| && StripEntities(s)[k] == ';'
          ensures exists m :: 0 <= m < |s| && s[m] == ';'
        {
          if k == 0 {
            assert s[0] == ';';
          } else {
            assert rest[k - 1] == ';';
            var m :| 0 <= m < |s[1..]| && s[1..][m] == ';';
            assert s[1 + m] == ';';
          }
        }
      }
    }
  }

  /** Prepending a character that does not start an entity keeps HasNoEntity. */
  lemma ConsNoEntity(c: char, rest: string)
    requires HasNoEntity(rest)
    requires EntityLength([c] + rest) == 0
    ensures HasNoEntity([c] + rest)
  {
    var t := [c] + rest;
    forall i | 0 <= i < |t|
      ensures EntityLength(t[i..]) == 0
    {
      if i > 0 {
        assert t[i..] == rest[i - 1..];
      }
    }
  }

  /** After `.replace(/&[^;]+;/g, ' ')` the expression matches nowhere. */
  lemma {:induction false} StripEntitiesRemovesAll(s: string)
    ensures HasNoEntity(StripEntities(s))
    decreases |s|
  {
    if s != [] {
      var n := EntityLength(s);
      if n > 0 {
        StripEntitiesRemovesAll(s[n..]);
        ConsNoEntity(' ', StripEntities(s[n..]));
      } else {
        StripEntitiesRemovesAll(s[1..]);
        var rest := StripEntities(s[1..]);
        StripEntitiesSemicolons(s[1..]);
        ConsNoEntity(s[0], rest);
      }
    }
  }

  /** Extending a string past a ';' found in it does not move that ';'. */
  lemma {:induction false} NextSemicolonPrefix(t: string, u: string, k: nat)
    requires k <= |t| <= |u| && t == u[..|t|]
    ensures NextSemicolon(t, k) < |t| ==> NextSemicolon(u, k) == NextSemicolon(t, k)
    decreases |t| - k
  {
    if k < |t| {
      assert u[k] == t[k];
      if t[k] != ';' {
        NextSemicolonPrefix(t, u, k + 1);
      }
    }
  }

  /** A match at the start of a prefix is the same match in the whole string. */
  lemma EntityLengthPrefix(t: string, u: string)
    requires |t| <= |u| && t == u[..|t|]
    ensures EntityLength(t) > 0 ==> EntityLength(u) == EntityLength(t)
  {
    if EntityLength(t) > 0 {
      assert u[0] == t[0];
      NextSemicolonPrefix(t, u, 1);
    }
  }

  /** Trimming takes a contiguous slice, and none of its suffixes can start
      an entity if the whole string has none. */
  lemma NoEntityInSlice(s: string, a: nat, b: nat)
    requires a <= b <= |s|
    requires HasNoEntity(s)
    ensures HasNoEntity(s[a..b])
  {
    var t := s[a..b];
    forall i | 0 <= i < |t|
      ensures EntityLength(t[i..]) == 0
    {
      assert t[i..] == s[a + i..][..|t[i..]|];
      EntityLengthPrefix(t[i..], s[a + i..]);
      assert EntityLength(s[a + i..]) == 0;
    }
  }

  // ---------------------------------------------------------------------
  // The matches of the two patterns, and which of them become posts.
  // ---------------------------------------------------------------------

  /** A match of `posterPattern`: groups 1, 2 and 3. */
  datatype PosterMatch = PosterMatch(url: string, thumbnail: string, rawTitle: string)

  /** A match of `simplePattern`: groups 1 and 2. */
  datatype SimpleMatch = SimpleMatch(url: string, rawTitle: string)

  /** A match of either pattern as the loop sees it: the URL, the thumbnail
      it would store and the decoded title. */
  datatype Capture = Capture(url: string, thumbnail: Option<string>, title: string)

  function PosterCaptures(ms: seq<PosterMatch>): (cs: seq<Capture>)
    ensures |cs| == |ms|
    ensures forall k :: 0 <= k < |ms| ==> cs[k].url == ms[k].url && cs[k].thumbnail == Some(ms[k].thumbnail)
    ensures forall k {:trigger cs[k].title} :: 0 <= k < |ms| ==> cs[k].title == DecodeTitle(ms[k].rawTitle)
  {
    seq(|ms|, k requires 0 <= k < |ms| => Capture(ms[k].url, Some(ms[k].thumbnail), DecodeTitle(ms[k].rawTitle)))
  }

  function SimpleCaptures(ms: seq<SimpleMatch>): (cs: seq<Capture>)
    ensures |cs| == |ms|
    ensures forall k :: 0 <= k < |ms| ==> cs[k].url == ms[k].url && cs[k].thumbnail.None?
    ensures forall k {:trigger cs[k].title} :: 0 <= k < |ms| ==> cs[k].title == DecodeTitle(ms[k].rawTitle)
  {
    seq(|ms|, k requires 0 <= k < |ms| => Capture(ms[k].url, None, DecodeTitle(ms[k].rawTitle)))
  }

  function ToPost(c: Capture): MoviePost {
    MoviePost(c.title, c.url, c.thumbnail)
  }

  /** The title filter `title.length > 5`. */
  predicate Qualifies(c: Capture) {
    |c.title| > 5
  }

  /** Capture j becomes a post: its title qualifies and no earlier capture
      with a qualifying title had the same URL. */
  predicate IsFirstWinner(cs: seq<Capture>, j: nat)
    requires j < |cs|
  {
    Qualifies(cs[j]) && forall k :: 0 <= k < j && Qualifies(cs[k]) ==> cs[k].url != cs[j].url
  }

  /** The posts one pass produces from its captures, in scan order. */
  function Winners(cs: seq<Capture>): seq<MoviePost>
    decreases |cs|
  {
    if cs == [] then []
    else
      var j := |cs| - 1;
      Winners(cs[..j]) + (if IsFirstWinner(cs, j) then [ToPost(cs[j])] else [])
  }

  /** The URLs the loop has put into `seen` after scanning cs: those of the
      captures whose title qualifies (re-adding a URL changes nothing). */
  function SeenUrls(cs: seq<Capture>): set<string>
    decreases |cs|
  {
    if cs == [] then {}
    else
      var j := |cs| - 1;
      SeenUrls(cs[..j]) + (if Qualifies(cs[j]) then {cs[j].url} else {})
  }

  /** The post list before the cap: the primary pass, or the fallback pass
      when the primary one produced nothing. */
  function UncappedPosts(primary: seq<PosterMatch>, fallback: seq<SimpleMatch>): seq<MoviePost> {
    var first := Winners(PosterCaptures(primary));
    if first == [] then Winners(SimpleCaptures(fallback)) else first
  }

  /** `posts.slice(0, 30)`. */
  function Cap(posts: seq<MoviePost>): (r: seq<MoviePost>)
    ensures |r| == if |posts| <= MaxPosts then |posts| else MaxPosts
    ensures r == posts[..|r|]
  {
    if |posts| <= MaxPosts then posts else posts[..MaxPosts]
  }

  function ListingPosts(primary: seq<PosterMatch>, fallback: seq<SimpleMatch>): seq<MoviePost> {
    Cap(UncappedPosts(primary, fallback))
  }

  // ---------------------------------------------------------------------
  // The loop of routes.ts, with its `seen` set and `posts` array.
  // ---------------------------------------------------------------------

  /** The first loop, over the `posterPattern` matches. */
  method PosterPass(primary: seq<PosterMatch>) returns (posts: seq<MoviePost>, seen: set<string>)
    ensures posts == Winners(PosterCaptures(primary))
    ensures seen == SeenUrls(PosterCaptures(primary))
  {
    posts, seen := [], {};
    ghost var caps := PosterCaptures(primary);
    for i := 0 to |primary|
      invariant posts == Winners(caps[..i])
      invariant seen == SeenUrls(caps[..i])
    {
      var url := primary[i].url;
      var title := DecodeTitle(primary[i].rawTitle);
      assert caps[i] == Capture(url, Some(primary[i].thumbnail), title);
      WinnersStep(caps, i);
      if url !in seen && |title| > 5 {
        seen := seen + {url};
        posts := posts + [MoviePost(title, url, Some(primary[i].thumbnail))];
      }
    }
    assert caps[..|primary|] == caps;
  }

  /** The second loop, over the `simplePattern` matches. It starts from the
      `posts` and `seen` the first loop left, both empty when it runs. */
  method SimplePass(fallback: seq<SimpleMatch>, posts0: seq<MoviePost>, seen0: set<string>)
    returns (posts: seq<MoviePost>, seen: set<string>)
    requires posts0 == [] && seen0 == {}
    ensures posts == Winners(SimpleCaptures(fallback))
    ensures seen == SeenUrls(SimpleCaptures(fallback))
  {
    posts, seen := posts0, seen0;
    ghost var simple := SimpleCaptures(fallback);
    for i := 0 to |fallback|
      invariant posts == Winners(simple[..i])
      invariant seen == SeenUrls(simple[..i])
    {
      var url := fallback[i].url;
      var title := DecodeTitle(fallback[i].rawTitle);
      assert simple[i] == Capture(url, None, title);
      WinnersStep(simple, i);
      if url !in seen && |title| > 5 {
        seen := seen + {url};
        posts := posts + [MoviePost(title, url, None)];
      }
    }
    assert simple[..|fallback|] == simple;
  }

  /** `extractMoviePosts` after the pattern matching: the first pass, the
      second one when the first found nothing, then the cap. */
  method ExtractMoviePosts(primary: seq<PosterMatch>, fallback: seq<SimpleMatch>)
    returns (result: seq<MoviePost>)
    ensures result == ListingPosts(primary, fallback)
    ensures |result| <= MaxPosts
  {
    var posts, seen := PosterPass(primary);
    if |posts| == 0 {
      NoWinnersNothingSeen(PosterCaptures(primary));
      posts, seen := SimplePass(fallback, posts, seen);
    }
    result := Cap(posts);
  }

  /** Every URL in `seen` comes from a scanned capture with a qualifying title. */
  lemma {:induction false} SeenUrlsWitness(cs: seq<Capture>, u: string) returns (k: nat)
    requires u in SeenUrls(cs)
    ensures k < |cs| && Qualifies(cs[k]) && cs[k].url == u
    decreases |cs|
  {
    var j := |cs| - 1;
    if u in SeenUrls(cs[..j]) {
      k := SeenUrlsWitness(cs[..j], u);
      assert cs[..j][k] == cs[k];
    } else {
      k := j;
    }
  }

  /** Every scanned capture with a qualifying title has its URL in `seen`. */
  lemma {:induction false} SeenUrlsComplete(cs: seq<Capture>, k: nat)
    requires k < |cs| && Qualifies(cs[k])
    ensures cs[k].url in SeenUrls(cs)
    decreases |cs|
  {
    var j := |cs| - 1;
    if k < j {
      assert cs[..j][k] == cs[k];
      SeenUrlsComplete(cs[..j], k);
    }
  }

  /** One iteration of the loop: capture i is pushed exactly when its URL is
      not yet in `seen` and its decoded title is long enough. */
  lemma WinnersStep(cs: seq<Capture>, i: nat)
    requires i < |cs|
    ensures Winners(cs[..i + 1]) == Winners(cs[..i]) +
      (if cs[i].url !in SeenUrls(cs[..i]) && |cs[i].title| > 5
       then [ToPost(cs[i])] else [])
    ensures SeenUrls(cs[..i + 1]) ==
      SeenUrls(cs[..i]) + (if |cs[i].title| > 5 then {cs[i].url} else {})
  {
    var p := cs[..i + 1];
    assert p[..i] == cs[..i];
    assert p[i] == cs[i];
    if cs[i].url in SeenUrls(cs[..i]) {
      var k := SeenUrlsWitness(cs[..i], cs[i].url);
      assert p[k] == cs[..i][k];
      assert !IsFirstWinner(p, i);
    } else if Qualifies(cs[i]) {
      forall k | 0 <= k < i && Qualifies(p[k])
        ensures p[k].url != p[i].url
      {
        assert p[k] == cs[..i][k];
        SeenUrlsComplete(cs[..i], k);
      }
      assert IsFirstWinner(p, i);
    }
  }

  /** A pass that produced no post has added nothing to `seen`. */
  lemma {:induction false} NoWinnersNothingSeen(cs: seq<Capture>)
    requires Winners(cs) == []
    ensures SeenUrls(cs) == {}
    decreases |cs|
  {
    if cs != [] {
      var j := |cs| - 1;
      NoWinnersNothingSeen(cs[..j]);
      if Qualifies(cs[j]) {
        assert !IsFirstWinner(cs, j);
        var k :| 0 <= k < j && Qualifies(cs[k]) && cs[k].url == cs[j].url;
        assert cs[..j][k] == cs[k];
        SeenUrlsComplete(cs[..j], k);
        assert false;
      }
    }
  }

  // ---------------------------------------------------------------------
  // What one pass and the whole extraction produce.
  // ---------------------------------------------------------------------

  /** The indices of the captures that become posts, in scan order. */
  function FirstWinnerIndices(cs: seq<Capture>): seq<nat>
    decreases |cs|
  {
    if cs == [] then []
    else
      var j := |cs| - 1;
      FirstWinnerIndices(cs[..j]) + (if IsFirstWinner(cs, j) then [j] else [])
  }

  /** Whether capture k wins depends only on the captures up to k. */
  lemma FirstWinnerInPrefix(cs: seq<Capture>, i: nat, k: nat)
    requires k < i <= |cs|
    ensures IsFirstWinner(cs[..i], k) == IsFirstWinner(cs, k)
  {
    assert forall m :: 0 <= m <= k ==> cs[..i][m] == cs[m];
  }

  /** Post a of a pass comes from capture FirstWinnerIndices(cs)[a]. */
  lemma {:induction false} WinnerIndicesMap(cs: seq<Capture>)
    ensures |FirstWinnerIndices(cs)| == |Winners(cs)|
    ensures forall a :: 0 <= a < |Winners(cs)| ==>
      FirstWinnerIndices(cs)[a] < |cs| && Winners(cs)[a] == ToPost(cs[FirstWinnerIndices(cs)[a]])
    decreases |cs|
  {
    if cs != [] {
      var j := |cs| - 1;
      var pre := cs[..j];
      WinnerIndicesMap(pre);
      var idx, idx' := FirstWinnerIndices(cs), FirstWinnerIndices(pre);
      assert idx[..|idx'|] == idx';
      forall a | 0 <= a < |idx'|
        ensures idx[a] < j && Winners(cs)[a] == ToPost(cs[idx[a]])
      {
        assert pre[idx'[a]] == cs[idx'[a]];
      }
    }
  }

  /** The posts of a pass keep the scan order of their captures. */
  lemma {:induction false} WinnerIndicesIncreasing(cs: seq<Capture>)
    ensures forall a, b :: 0 <= a < b < |FirstWinnerIndices(cs)| ==>
      FirstWinnerIndices(cs)[a] < FirstWinnerIndices(cs)[b]
    decreases |cs|
  {
    if cs != [] {
      var j := |cs| - 1;
      var pre := cs[..j];
      WinnerIndicesIncreasing(pre);
      WinnerIndicesMap(pre);
      var idx, idx' := FirstWinnerIndices(cs), FirstWinnerIndices(pre);
      assert idx[..|idx'|] == idx';
    }
  }

  /** The captures that become posts are precisely the first winners. */
  lemma {:induction false} WinnerIndicesExact(cs: seq<Capture>)
    ensures forall k :: 0 <= k < |cs| ==> (IsFirstWinner(cs, k) <==> k in FirstWinnerIndices(cs))
    decreases |cs|
  {
    if cs != [] {
      var j := |cs| - 1;
      var pre := cs[..j];
      WinnerIndicesExact(pre);
      WinnerIndicesMap(pre);
      var idx, idx' := FirstWinnerIndices(cs), FirstWinnerIndices(pre);
      assert j !in idx' by {
        forall a | 0 <= a < |idx'|
          ensures idx'[a] != j
        {
        }
      }
      forall k | 0 <= k < j
        ensures IsFirstWinner(cs, k) <==> k in idx
      {
        FirstWinnerInPrefix(cs, j, k);
      }
    }
  }

  /** No two posts of a pass share a URL. */
  lemma WinnersDistinctUrls(cs: seq<Capture>)
    ensures forall a, b :: 0 <= a < b < |Winners(cs)| ==> Winners(cs)[a].url != Winners(cs)[b].url
  {
    WinnerIndicesMap(cs);
    WinnerIndicesIncreasing(cs);
    WinnerIndicesExact(cs);
    var w, idx := Winners(cs), FirstWinnerIndices(cs);
    forall a, b | 0 <= a < b < |w|
      ensures w[a].url != w[b].url
    {
      assert idx[b] in idx;
      assert IsFirstWinner(cs, idx[b]);
      assert idx[a] in idx;
    }
  }

  /** The posts of the first i captures come first: the output of a prefix of
      the scan is a prefix of the output. */
  lemma {:induction false} WinnersPrefix(cs: seq<Capture>, i: nat)
    requires i <= |cs|
    ensures Winners(cs[..i]) <= Winners(cs)
    decreases |cs| - i
  {
    if i < |cs| {
      WinnersPrefix(cs, i + 1);
      WinnersStep(cs, i);
    } else {
      assert cs[..i] == cs;
    }
  }

  /** The properties of the returned list: at most 30 posts, no URL twice,
      every title long enough, trimmed and free of entities, and thumbnails
      on all posts (primary pass) or on none (fallback pass). */
  lemma ListingPostsProperties(primary: seq<PosterMatch>, fallback: seq<SimpleMatch>)
    ensures |ListingPosts(primary, fallback)| <= MaxPosts
    ensures forall a, b :: 0 <= a < b < |ListingPosts(primary, fallback)| ==>
      ListingPosts(primary, fallback)[a].url != ListingPosts(primary, fallback)[b].url
    ensures forall a :: 0 <= a < |ListingPosts(primary, fallback)| ==>
      var t := ListingPosts(primary, fallback)[a].title;
      |t| > 5 && IsTrimmed(t) && HasNoEntity(t)
    ensures Winners(PosterCaptures(primary)) != [] ==>
      forall a :: 0 <= a < |ListingPosts(primary, fallback)| ==> ListingPosts(primary, fallback)[a].thumbnail.Some?
    ensures Winners(PosterCaptures(primary)) == [] ==>
      forall a :: 0 <= a < |ListingPosts(primary, fallback)| ==> ListingPosts(primary, fallback)[a].thumbnail.None?
  {
    var pc, sc := PosterCaptures(primary), SimpleCaptures(fallback);
    var u := UncappedPosts(primary, fallback);
    var cs := if Winners(pc) == [] then sc else pc;
    assert u == Winners(cs);
    WinnerIndicesMap(cs);
    WinnerIndicesExact(cs);
    WinnersDistinctUrls(cs);
    var l := ListingPosts(primary, fallback);
    forall a | 0 <= a < |l|
      ensures |l[a].title| > 5 && IsTrimmed(l[a].title) && HasNoEntity(l[a].title)
      ensures cs == pc ==> l[a].thumbnail.Some?
      ensures cs == sc ==> l[a].thumbnail.None?
    {
      var k := FirstWinnerIndices(cs)[a];
      assert l[a] == u[a] == ToPost(cs[k]);
      DecodeTitleClean(if cs == pc then primary[k].rawTitle else fallback[k].rawTitle);
      assert IsFirstWinner(cs, k) by {
        assert k in FirstWinnerIndices(cs);
      }
    }
  }

  /** Two post cards with the same link give one post, the first one. */
  lemma DuplicateLinkGivesOnePost(url: string, thumb1: string, raw1: string, thumb2: string, raw2: string,
                                  fallback: seq<SimpleMatch>)
    requires |DecodeTitle(raw1)| > 5
    ensures ListingPosts([PosterMatch(url, thumb1, raw1), PosterMatch(url, thumb2, raw2)], fallback)
      == [MoviePost(DecodeTitle(raw1), url, Some(thumb1))]
  {
    var cs := PosterCaptures([PosterMatch(url, thumb1, raw1), PosterMatch(url, thumb2, raw2)]);
    assert cs[0] == Capture(url, Some(thumb1), DecodeTitle(raw1)) && cs[1].url == url;
    assert Qualifies(cs[0]);
    assert !IsFirstWinner(cs, 1);
    assert cs[..1][..0] == [];
    assert cs[..1] == [cs[0]];
    assert Winners(cs) == Winners(cs[..1]);
  }

  /** Both patterns only capture links under `BASE_URL + "/"`, compared in
      any ASCII letter case because of their `i` flag; the fallback also
      requires four consecutive digits in the link. */
  predicate IsPostLink(url: string) {
    |BaseUrl| + 1 <= |url| && Lower(url[..|BaseUrl| + 1]) == BaseUrl + "/"
  }

  /** `BASE_URL + "/"` has no upper-case letter, so it is a post link. */
  lemma SitePrefixIsLower()
    ensures Lower(BaseUrl + "/") == BaseUrl + "/"
  {
    var p := BaseUrl + "/";
    forall k | 0 <= k < |p|
      ensures LowerChar(p[k]) == p[k]
    {
    }
  }

  predicate DigitsAt(url: string, i: nat) {
    i + 4 <= |url| && IsDigit(url[i]) && IsDigit(url[i + 1]) && IsDigit(url[i + 2]) && IsDigit(url[i + 3])
  }

  predicate HasFourDigits(url: string) {
    exists i :: 0 <= i < |url| && DigitsAt(url, i)
  }

  /** Every returned post links to a captured URL, so what the patterns
      guarantee of their captures holds of every post. */
  lemma ListingPostsLinks(primary: seq<PosterMatch>, fallback: seq<SimpleMatch>)
    requires forall k :: 0 <= k < |primary| ==> IsPostLink(primary[k].url)
    requires forall k :: 0 <= k < |fallback| ==> IsPostLink(fallback[k].url) && HasFourDigits(fallback[k].url)
    ensures forall a :: 0 <= a < |ListingPosts(primary, fallback)| ==>
      IsPostLink(ListingPosts(primary, fallback)[a].url)
    ensures forall a :: 0 <= a < |ListingPosts(primary, fallback)| ==>
      ListingPosts(primary, fallback)[a].thumbnail.None? ==> HasFourDigits(ListingPosts(primary, fallback)[a].url)
  {
    var pc, sc := PosterCaptures(primary), SimpleCaptures(fallback);
    var cs := if Winners(pc) == [] then sc else pc;
    var u := UncappedPosts(primary, fallback);
    assert u == Winners(cs);
    WinnerIndicesMap(cs);
    var l := ListingPosts(primary, fallback);
    forall a | 0 <= a < |l|
      ensures IsPostLink(l[a].url)
      ensures l[a].thumbnail.None? ==> HasFourDigits(l[a].url)
    {
      var k := FirstWinnerIndices(cs)[a];
      assert l[a] == u[a] == ToPost(cs[k]);
      if cs == pc {
        assert cs[k].url == primary[k].url && cs[k].thumbnail.Some?;
      } else {
        assert cs[k].url == fallback[k].url;
      }
    }
  }

  /** The sample `&amp;#038;` holds no `&#038;`, so the first replacement
      leaves it alone. */
  lemma SampleFirstStep()
    ensures ReplaceAll("&amp;#038;", "&#038;", "&") == "&amp;#038;"
  {
    var raw := "&amp;#038;";
    forall j | 0 <= j < |raw|
      ensures !OccursAt(raw, "&#038;", j)
    {
      if j + 6 <= |raw| {
        assert raw[j..j + 6][0] == raw[j] && raw[j..j + 6][1] == raw[j + 1];
      }
    }
  }

  /** The second replacement turns the sample into `&#038;`. */
  lemma SampleSecondStep()
    ensures ReplaceAll("&amp;#038;", "&amp;", "&") == "&#038;"
  {
    var raw := "&amp;#038;";
    assert OccursAt(raw, "&amp;", 0);
    forall j | 5 <= j < |raw|
      ensures !OccursAt(raw, "&amp;", j)
    {
      if j + 5 <= |raw| {
        assert raw[j..j + 5][0] == raw[j];
      }
    }
    assert ReplaceAllFrom(raw, "&amp;", "&", 5) == raw[5..];
    assert raw[5..] == "#038;";
  }

  /** The entity pass turns `&#038;` into one space. */
  lemma SampleThirdStep()
    ensures StripEntities("&#038;") == " "
  {
    var step2 := "&#038;";
    assert NextSemicolon(step2, 1) == 5;
    assert EntityLength(step2) == 6;
    assert StripEntities(step2[6..]) == [];
  }

  /** The three replacements run one after another: `&amp;#038;` has no
      `&#038;` for the first step, becomes `&#038;` in the second and a single
      space in the third, which the trim then removes. */
  lemma DecodeIsSequential()
    ensures DecodeTitle("&amp;#038;") == ""
  {
    SampleFirstStep();
    SampleSecondStep();
    SampleThirdStep();
    assert LeadingWhitespace(" ") == 1;
  }
}
