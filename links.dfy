/** The link matcher of `POST /api/extract-links` in server/routes.ts:
    every match of `/https?:\/\/[^\s"'<>()\\]+/gi` in the page, kept when
    its lower-case form mentions `MDRIVE_PATTERN`, trailing quotes and
    backslashes removed, duplicates dropped in first-occurrence order. */
module Links {
  import opened Text
  import opened Config

  /** The characters the class `[^\s"'<>()\\]` excludes. */
  predicate IsUrlStop(c: char) {
    IsWhitespace(c) || c == '"' || c == '\'' || c == '<' || c == '>' || c == '(' || c == ')' || c == '\\'
  }

  /** The scheme a token starts with, compared case-insensitively. */
  predicate StartsWithScheme(t: string) {
    (|t| >= 7 && Lower(t[..7]) == "http://") || (|t| >= 8 && Lower(t[..8]) == "https://")
  }

  /** The length of `https?:\/\/` matched at index i, or 0. With the `i`
      flag outside Unicode mode only ASCII letters match ASCII letters, so
      comparing ASCII-lower-cased characters is exact. If an `s` follows
      `http` but `://` does not follow the `s`, backtracking past the
      optional `s` cannot help, because `:` would then have to be that `s`. */
  function SchemeLength(s: string, i: nat): (k: nat)
    ensures k == 0 || k == 7 || k == 8
    ensures k > 0 ==> i + k <= |s|
  {
    if i + 7 <= |s| && LowerChar(s[i]) == 'h' && LowerChar(s[i + 1]) == 't'
       && LowerChar(s[i + 2]) == 't' && LowerChar(s[i + 3]) == 'p'
    then
      if s[i + 4] == ':' && s[i + 5] == '/' && s[i + 6] == '/' then 7
      else if i + 8 <= |s| && LowerChar(s[i + 4]) == 's' && s[i + 5] == ':' && s[i + 6] == '/' && s[i + 7] == '/' then 8
      else 0
    else 0
  }

  /** A character that lowers to a letter, ':' or '/' is not excluded. */
  lemma SchemeCharAllowed(c: char)
    requires 'a' <= LowerChar(c) <= 'z' || LowerChar(c) == ':' || LowerChar(c) == '/'
    ensures !IsUrlStop(c)
  {
  }

  /** SchemeLength finds `http://` or `https://` in any letter case, exactly
      when it is there, and none of its characters is excluded. */
  lemma SchemeLengthMeaning(s: string, i: nat)
    ensures SchemeLength(s, i) == 7 <==> i + 7 <= |s| && Lower(s[i..i + 7]) == "http://"
    ensures SchemeLength(s, i) == 8 <==> i + 8 <= |s| && Lower(s[i..i + 8]) == "https://"
    ensures forall m :: i <= m < i + SchemeLength(s, i) ==> !IsUrlStop(s[m])
  {
    var k := SchemeLength(s, i);
    if i + 7 <= |s| {
      var l := Lower(s[i..i + 7]);
      if k == 7 {
        assert l == "http://";
      }
      if l == "http://" {
        assert l[0] == 'h' && l[1] == 't' && l[2] == 't' && l[3] == 'p';
        assert l[4] == ':' && l[5] == '/' && l[6] == '/';
      }
    }
    if i + 8 <= |s| {
      var l := Lower(s[i..i + 8]);
      if k == 8 {
        assert l == "https://";
      }
      if l == "https://" {
        assert l[0] == 'h' && l[1] == 't' && l[2] == 't' && l[3] == 'p';
        assert l[4] == 's' && l[5] == ':' && l[6] == '/' && l[7] == '/';
      }
    }
    forall m | i <= m < i + k
      ensures !IsUrlStop(s[m])
    {
      SchemeCharAllowed(s[m]);
    }
  }

  /** The greedy run of `[^\s"'<>()\\]` starting at index j. */
  function RunLength(s: string, j: nat): (n: nat)
    requires j <= |s|
    decreases |s| - j
    ensures j + n <= |s|
    ensures forall m :: j <= m < j + n ==> !IsUrlStop(s[m])
    ensures j + n == |s| || IsUrlStop(s[j + n])
  {
    if j == |s| || IsUrlStop(s[j]) then 0 else 1 + RunLength(s, j + 1)
  }

  /** The length of the match of the whole expression at index i, or 0 when
      it does not match there. A match is a scheme and at least one further
      allowed character, and it is maximal. */
  function MatchLength(s: string, i: nat): (n: nat)
    ensures n > 0 ==> i + n <= |s|
  {
    var k := SchemeLength(s, i);
    if k == 0 then 0
    else
      var r := RunLength(s, i + k);
      if r == 0 then 0 else k + r
  }

  /** What MatchLength finds: a scheme, then at least one allowed character,
      up to the first excluded one; and when it finds nothing, either there
      is no scheme or the scheme is not followed by an allowed character. */
  lemma MatchLengthMeaning(s: string, i: nat)
    ensures MatchLength(s, i) > 0 ==>
      SchemeLength(s, i) > 0 && SchemeLength(s, i) < MatchLength(s, i)
    ensures MatchLength(s, i) > 0 ==>
      forall m :: i + SchemeLength(s, i) <= m < i + MatchLength(s, i) ==> !IsUrlStop(s[m])
    ensures MatchLength(s, i) > 0 ==> i + MatchLength(s, i) == |s| || IsUrlStop(s[i + MatchLength(s, i)])
    ensures MatchLength(s, i) == 0 ==>
      SchemeLength(s, i) == 0 || i + SchemeLength(s, i) == |s| || IsUrlStop(s[i + SchemeLength(s, i)])
  {
  }

  /** The length of the match at each index of the page, 0 where the
      expression does not match. */
  function MatchTable(s: string): (table: seq<nat>)
    ensures |table| == |s|
    ensures forall p :: 0 <= p < |s| ==> table[p] == MatchLength(s, p)
    ensures Fits(table)
  {
    seq(|s|, p requires 0 <= p < |s| => MatchLength(s, p))
  }

  /** No match runs past the end of the page. */
  predicate Fits(table: seq<nat>) {
    forall p :: 0 <= p < |table| ==> p + table[p] <= |table|
  }

  /** A match, as the half-open index range [start, end) of the page. */
  datatype Span = Span(start: nat, end: nat)

  predicate Uncovered(spans: seq<Span>, p: nat) {
    forall k :: 0 <= k < |spans| ==> !(spans[k].start <= p < spans[k].end)
  }

  /** `html.match(urlRegex)` from index i on, given the match length at each
      index: try a match at each index in turn; after a match, resume right
      after it. */
  function ScanFrom(table: seq<nat>, i: nat): (spans: seq<Span>)
    requires i <= |table| && Fits(table)
    decreases |table| - i
    ensures forall k :: 0 <= k < |spans| ==> i <= spans[k].start < spans[k].end <= |table|
  {
    if i == |table| then []
    else if table[i] > 0 then [Span(i, i + table[i])] + ScanFrom(table, i + table[i])
    else ScanFrom(table, i + 1)
  }

  /** Each span is a match found at its start, of its full length. */
  predicate AreMatches(table: seq<nat>, spans: seq<Span>) {
    forall k :: 0 <= k < |spans| ==>
      spans[k].start < |table| && table[spans[k].start] == spans[k].end - spans[k].start
  }

  /** The spans are in document order and do not overlap. */
  predicate Ordered(spans: seq<Span>) {
    forall k :: 0 <= k < |spans| - 1 ==> spans[k].end <= spans[k + 1].start
  }

  /** Each scanned span is a full match at its start. */
  lemma {:induction false} ScanFromMatches(table: seq<nat>, i: nat)
    requires i <= |table| && Fits(table)
    decreases |table| - i
    ensures AreMatches(table, ScanFrom(table, i))
  {
    if i < |table| {
      var n := table[i];
      if n > 0 {
        ScanFromMatches(table, i + n);
        var rest := ScanFrom(table, i + n);
        var spans := [Span(i, i + n)] + rest;
        assert ScanFrom(table, i) == spans;
        forall k | 0 <= k < |spans|
          ensures spans[k].start < |table| && table[spans[k].start] == spans[k].end - spans[k].start
        {
          if k > 0 {
            assert spans[k] == rest[k - 1];
          }
        }
      } else {
        ScanFromMatches(table, i + 1);
      }
    }
  }

  /** The scanned spans do not overlap. */
  lemma {:induction false} ScanFromOrdered(table: seq<nat>, i: nat)
    requires i <= |table| && Fits(table)
    decreases |table| - i
    ensures Ordered(ScanFrom(table, i))
  {
    if i < |table| {
      var n := table[i];
      if n > 0 {
        ScanFromOrdered(table, i + n);
        var rest := ScanFrom(table, i + n);
        var spans := [Span(i, i + n)] + rest;
        assert ScanFrom(table, i) == spans;
        forall k | 0 <= k < |spans| - 1
          ensures spans[k].end <= spans[k + 1].start
        {
          assert spans[k + 1] == rest[k];
          if k > 0 {
            assert spans[k] == rest[k - 1];
          }
        }
      } else {
        ScanFromOrdered(table, i + 1);
      }
    }
  }

  /** No match starts at an index that no scanned span covers. */
  lemma {:induction false} ScanFromComplete(table: seq<nat>, i: nat, p: nat)
    requires i <= p < |table| && Fits(table) && Uncovered(ScanFrom(table, i), p)
    decreases |table| - i
    ensures table[p] == 0
  {
    var n := table[i];
    if n > 0 {
      var rest := ScanFrom(table, i + n);
      var spans := [Span(i, i + n)] + rest;
      assert ScanFrom(table, i) == spans;
      assert spans[0] == Span(i, i + n);
      assert i + n <= p;
      forall k | 0 <= k < |rest|
        ensures !(rest[k].start <= p < rest[k].end)
      {
        assert spans[k + 1] == rest[k];
      }
      ScanFromComplete(table, i + n, p);
    } else if p > i {
      assert ScanFrom(table, i) == ScanFrom(table, i + 1);
      ScanFromComplete(table, i + 1, p);
    }
  }

  /** All matches of the expression in the page, in document order. */
  function MatchSpans(html: string): (spans: seq<Span>)
    ensures forall k :: 0 <= k < |spans| ==> spans[k].start < spans[k].end <= |html|
  {
    ScanFrom(MatchTable(html), 0)
  }

  /** The matches found are maximal matches, in order and without overlap,
      and no match starts outside them. */
  lemma MatchSpansProperties(html: string)
    ensures forall k :: 0 <= k < |MatchSpans(html)| ==>
      MatchLength(html, MatchSpans(html)[k].start) == MatchSpans(html)[k].end - MatchSpans(html)[k].start
    ensures Ordered(MatchSpans(html))
    ensures forall p :: 0 <= p < |html| && Uncovered(MatchSpans(html), p) ==> MatchLength(html, p) == 0
  {
    var table := MatchTable(html);
    ScanFromMatches(table, 0);
    ScanFromOrdered(table, 0);
    forall p | 0 <= p < |html| && Uncovered(MatchSpans(html), p)
      ensures MatchLength(html, p) == 0
    {
      ScanFromComplete(table, 0, p);
    }
  }

  /** The matched substrings, in document order (`|| []` included: no match
      gives the empty list). */
  function Tokens(html: string): (tokens: seq<string>)
    ensures |tokens| == |MatchSpans(html)|
    ensures forall k :: 0 <= k < |tokens| ==>
      tokens[k] == html[MatchSpans(html)[k].start..MatchSpans(html)[k].end]
  {
    var spans := MatchSpans(html);
    seq(|spans|, k requires 0 <= k < |spans| => html[spans[k].start..spans[k].end])
  }

  /** The text of one match starts with a scheme and holds no excluded
      character. */
  lemma MatchShape(html: string, b: nat, e: nat)
    requires b < e <= |html| && MatchLength(html, b) == e - b
    ensures StartsWithScheme(html[b..e])
    ensures forall m :: 0 <= m < e - b ==> !IsUrlStop(html[b..e][m])
  {
    var t := html[b..e];
    var n := SchemeLength(html, b);
    SchemeLengthMeaning(html, b);
    MatchLengthMeaning(html, b);
    assert t[..n] == html[b..b + n];
    forall m | 0 <= m < e - b
      ensures !IsUrlStop(t[m])
    {
      assert t[m] == html[b + m];
    }
  }

  /** Every token starts with `http://` or `https://` in any case and holds
      no excluded character. */
  lemma TokensShape(html: string)
    ensures forall k :: 0 <= k < |Tokens(html)| ==> StartsWithScheme(Tokens(html)[k])
    ensures forall k, m :: 0 <= k < |Tokens(html)| && 0 <= m < |Tokens(html)[k]| ==>
      !IsUrlStop(Tokens(html)[k][m])
  {
    var spans, tokens := MatchSpans(html), Tokens(html);
    MatchSpansProperties(html);
    forall k | 0 <= k < |tokens|
      ensures StartsWithScheme(tokens[k])
      ensures forall m :: 0 <= m < |tokens[k]| ==> !IsUrlStop(tokens[k][m])
    {
      assert MatchLength(html, spans[k].start) == spans[k].end - spans[k].start;
      MatchShape(html, spans[k].start, spans[k].end);
    }
  }

  // ---------------------------------------------------------------------
  // filter, map and the Set spread.
  // ---------------------------------------------------------------------

  /** `link.toLowerCase().includes(MDRIVE_PATTERN)`. */
  predicate MentionsMdrive(link: string) {
    Includes(Lower(link), MdrivePattern)
  }

  /** `.filter(...)`: the links that mention the pattern, in their order. */
  function FilterMdrive(links: seq<string>): (r: seq<string>)
    decreases |links|
    ensures forall x :: x in r <==> x in links && MentionsMdrive(x)
  {
    if links == [] then []
    else
      var j := |links| - 1;
      assert links == links[..j] + [links[j]];
      FilterMdrive(links[..j]) + (if MentionsMdrive(links[j]) then [links[j]] else [])
  }

  /** The indices of the links the filter keeps, in order. */
  function KeptIndices(links: seq<string>): seq<nat>
    decreases |links|
  {
    if links == [] then []
    else
      var j := |links| - 1;
      KeptIndices(links[..j]) + (if MentionsMdrive(links[j]) then [j] else [])
  }

  /** Entry a of the filtered list is the link at the a-th kept index. */
  lemma {:induction false} FilterMdriveIndices(links: seq<string>)
    ensures |KeptIndices(links)| == |FilterMdrive(links)|
    ensures forall a :: 0 <= a < |FilterMdrive(links)| ==>
      KeptIndices(links)[a] < |links| && FilterMdrive(links)[a] == links[KeptIndices(links)[a]]
    decreases |links|
  {
    if links != [] {
      var j := |links| - 1;
      var pre := links[..j];
      FilterMdriveIndices(pre);
      var idx, idx' := KeptIndices(links), KeptIndices(pre);
      assert idx[..|idx'|] == idx';
      forall a | 0 <= a < |idx'|
        ensures idx[a] < j && FilterMdrive(links)[a] == links[idx[a]]
      {
        assert pre[idx'[a]] == links[idx'[a]];
      }
    }
  }

  /** The filter keeps the links in page order, and it keeps exactly those
      that mention the pattern, each occurrence separately. */
  lemma {:induction false} KeptIndicesExact(links: seq<string>)
    ensures forall a, b :: 0 <= a < b < |KeptIndices(links)| ==> KeptIndices(links)[a] < KeptIndices(links)[b]
    ensures forall k :: 0 <= k < |links| ==> (MentionsMdrive(links[k]) <==> k in KeptIndices(links))
    decreases |links|
  {
    if links != [] {
      var j := |links| - 1;
      var pre := links[..j];
      KeptIndicesExact(pre);
      FilterMdriveIndices(pre);
      var idx, idx' := KeptIndices(links), KeptIndices(pre);
      assert idx[..|idx'|] == idx';
      assert j !in idx' by {
        forall a | 0 <= a < |idx'|
          ensures idx'[a] != j
        {
        }
      }
      forall k | 0 <= k < j
        ensures MentionsMdrive(links[k]) <==> k in idx
      {
        assert pre[k] == links[k];
      }
    }
  }

  predicate IsQuote(c: char) {
    c == '\\' || c == '\'' || c == '"'
  }

  /** `link.replace(/[\\'"]+$/, '')`: the leftmost match of a run that
      reaches the end is the whole trailing run, so all of it goes. */
  function StripTrailingQuotes(link: string): (r: string)
    decreases |link|
    ensures |r| <= |link| && r == link[..|r|]
    ensures r == [] || !IsQuote(r[|r| - 1])
    ensures forall m :: |r| <= m < |link| ==> IsQuote(link[m])
  {
    if link != [] && IsQuote(link[|link| - 1]) then StripTrailingQuotes(link[..|link| - 1]) else link
  }

  function StripAll(links: seq<string>): (r: seq<string>)
    ensures |r| == |links|
    ensures forall k :: 0 <= k < |links| ==> r[k] == StripTrailingQuotes(links[k])
  {
    seq(|links|, k requires 0 <= k < |links| => StripTrailingQuotes(links[k]))
  }

  /** `xs[j]` is the first occurrence of its value. */
  predicate IsFirstOccurrence(xs: seq<string>, j: nat)
    requires j < |xs|
  {
    xs[j] !in xs[..j]
  }

  /** `[...new Set(xs)]`: a Set iterates in insertion order, so this keeps the
      first occurrence of each value, in order. */
  function Dedup(xs: seq<string>): seq<string>
    decreases |xs|
  {
    if xs == [] then []
    else
      var j := |xs| - 1;
      Dedup(xs[..j]) + (if IsFirstOccurrence(xs, j) then [xs[j]] else [])
  }

  /** The indices of the first occurrences, in order. */
  function FirstOccurrences(xs: seq<string>): seq<nat>
    decreases |xs|
  {
    if xs == [] then []
    else
      var j := |xs| - 1;
      FirstOccurrences(xs[..j]) + (if IsFirstOccurrence(xs, j) then [j] else [])
  }

  /** Entry a of Dedup is the element at FirstOccurrences(xs)[a]. */
  lemma {:induction false} DedupIsFirstOccurrences(xs: seq<string>)
    ensures |FirstOccurrences(xs)| == |Dedup(xs)|
    ensures forall a :: 0 <= a < |Dedup(xs)| ==>
      FirstOccurrences(xs)[a] < |xs| && Dedup(xs)[a] == xs[FirstOccurrences(xs)[a]]
    decreases |xs|
  {
    if xs != [] {
      var j := |xs| - 1;
      var pre := xs[..j];
      DedupIsFirstOccurrences(pre);
      var idx, idx' := FirstOccurrences(xs), FirstOccurrences(pre);
      assert idx[..|idx'|] == idx';
      forall a | 0 <= a < |idx'|
        ensures idx[a] < j && Dedup(xs)[a] == xs[idx[a]]
      {
        assert pre[idx'[a]] == xs[idx'[a]];
      }
    }
  }

  /** Dedup keeps the input order. */
  lemma {:induction false} FirstOccurrencesIncreasing(xs: seq<string>)
    ensures forall a, b :: 0 <= a < b < |FirstOccurrences(xs)| ==>
      FirstOccurrences(xs)[a] < FirstOccurrences(xs)[b]
    decreases |xs|
  {
    if xs != [] {
      var j := |xs| - 1;
      var pre := xs[..j];
      FirstOccurrencesIncreasing(pre);
      DedupIsFirstOccurrences(pre);
      var idx, idx' := FirstOccurrences(xs), FirstOccurrences(pre);
      assert idx[..|idx'|] == idx';
    }
  }

  /** The indices Dedup keeps are exactly the first occurrences. */
  lemma {:induction false} FirstOccurrencesExact(xs: seq<string>)
    ensures forall k :: 0 <= k < |xs| ==> (IsFirstOccurrence(xs, k) <==> k in FirstOccurrences(xs))
    decreases |xs|
  {
    if xs != [] {
      var j := |xs| - 1;
      var pre := xs[..j];
      FirstOccurrencesExact(pre);
      DedupIsFirstOccurrences(pre);
      var idx, idx' := FirstOccurrences(xs), FirstOccurrences(pre);
      assert j !in idx' by {
        forall a | 0 <= a < |idx'|
          ensures idx'[a] != j
        {
        }
      }
      forall k | 0 <= k < j
        ensures IsFirstOccurrence(xs, k) <==> k in idx
      {
        assert xs[..k] == pre[..k];
      }
    }
  }

  /** Dedup has no repeated value and holds exactly the values of its input. */
  lemma {:induction false} DedupSet(xs: seq<string>)
    ensures forall a, b :: 0 <= a < b < |Dedup(xs)| ==> Dedup(xs)[a] != Dedup(xs)[b]
    ensures forall x :: x in Dedup(xs) <==> x in xs
    decreases |xs|
  {
    if xs != [] {
      var j := |xs| - 1;
      var pre := xs[..j];
      DedupSet(pre);
      assert xs == pre + [xs[j]];
    }
  }

  /** `matchedLinks`. */
  function MatchedLinks(html: string): seq<string> {
    Dedup(StripAll(FilterMdrive(Tokens(html))))
  }

  /** The trailing-quote strip changes no token: tokens never contain a quote
      or a backslash. */
  lemma StripIsNoOp(html: string)
    ensures StripAll(FilterMdrive(Tokens(html))) == FilterMdrive(Tokens(html))
  {
    TokensShape(html);
    var f := FilterMdrive(Tokens(html));
    forall k | 0 <= k < |f|
      ensures StripTrailingQuotes(f[k]) == f[k]
    {
      assert f[k] in Tokens(html);
      var t := f[k];
      if t != [] {
        assert !IsUrlStop(t[|t| - 1]);
      }
    }
  }

  /** What the endpoint returns as `matchedLinks`: no link twice; exactly the
      tokens that mention `mdrive.today` in any case, in their original case;
      each starts with an http(s) scheme and holds no excluded character. */
  lemma MatchedLinksProperties(html: string)
    ensures forall a, b :: 0 <= a < b < |MatchedLinks(html)| ==> MatchedLinks(html)[a] != MatchedLinks(html)[b]
    ensures forall x :: x in MatchedLinks(html) <==> x in Tokens(html) && MentionsMdrive(x)
    ensures forall x :: x in MatchedLinks(html) ==> StartsWithScheme(x)
    ensures forall x, m :: x in MatchedLinks(html) && 0 <= m < |x| ==> !IsUrlStop(x[m])
    ensures MatchedLinks(html) == Dedup(FilterMdrive(Tokens(html)))
  {
    StripIsNoOp(html);
    TokensShape(html);
    DedupSet(FilterMdrive(Tokens(html)));
  }
}
