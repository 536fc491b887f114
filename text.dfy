/** The JavaScript string operations the routes rely on: `\s`, `trim`,
    ASCII `toLowerCase`, `includes`, a global literal `replace` and the
    decimal rendering of a number inside a template literal. */
module Text {

  /** ECMAScript WhiteSpace and LineTerminator code points: exactly the
      characters a regular-expression `\s` matches and `String.prototype.trim`
      removes. */
  predicate IsWhitespace(c: char) {
    || c == '\t' || c == '\n' || c == '\U{B}' || c == '\U{C}' || c == '\r'
    || c == ' ' || c == '\U{A0}' || c == '\U{1680}'
    || ('\U{2000}' <= c <= '\U{200A}')
    || c == '\U{2028}' || c == '\U{2029}' || c == '\U{202F}' || c == '\U{205F}'
    || c == '\U{3000}' || c == '\U{FEFF}'
  }

  /** `toLowerCase` restricted to the ASCII letters. */
  function LowerChar(c: char): char {
    if 'A' <= c <= 'Z' then (c as int + 32) as char else c
  }

  function Lower(s: string): (r: string)
    ensures |r| == |s|
    ensures forall k :: 0 <= k < |s| ==> r[k] == LowerChar(s[k])
  {
    seq(|s|, k requires 0 <= k < |s| => LowerChar(s[k]))
  }

  predicate OccursAt(s: string, pat: string, i: nat) {
    i + |pat| <= |s| && s[i..i + |pat|] == pat
  }

  /** `s.includes(pat)`, searching from index i onwards. */
  function IncludesFrom(s: string, pat: string, i: nat): (b: bool)
    decreases |s| - i
    ensures b <==> exists j :: i <= j && OccursAt(s, pat, j)
  {
    if i + |pat| > |s| then false
    else OccursAt(s, pat, i) || IncludesFrom(s, pat, i + 1)
  }

  function Includes(s: string, pat: string): bool {
    IncludesFrom(s, pat, 0)
  }

  /** `s.replace(/pat/g, rep)` for a pattern without special characters,
      applied to the suffix s[i..]: occurrences are found left to right, do
      not overlap, and scanning resumes right after each replaced one. */
  function ReplaceAllFrom(s: string, pat: string, rep: string, i: nat): (r: string)
    requires |pat| > 0 && i <= |s|
    decreases |s| - i
    ensures (forall j :: i <= j < |s| ==> !OccursAt(s, pat, j)) ==> r == s[i..]
    ensures |rep| <= |pat| ==> |r| <= |s| - i
  {
    if i == |s| then []
    else if OccursAt(s, pat, i) then rep + ReplaceAllFrom(s, pat, rep, i + |pat|)
    else [s[i]] + ReplaceAllFrom(s, pat, rep, i + 1)
  }

  function ReplaceAll(s: string, pat: string, rep: string): string
    requires |pat| > 0
  {
    ReplaceAllFrom(s, pat, rep, 0)
  }

  /** The number of whitespace characters `trim` removes at the front. */
  function LeadingWhitespace(s: string): (n: nat)
    ensures n <= |s|
  {
    if s != [] && IsWhitespace(s[0]) then 1 + LeadingWhitespace(s[1..]) else 0
  }

  /** The front run is all whitespace and is followed by a non-whitespace
      character or the end. */
  lemma {:induction false} LeadingWhitespaceMeaning(s: string)
    ensures forall k :: 0 <= k < LeadingWhitespace(s) ==> IsWhitespace(s[k])
    ensures LeadingWhitespace(s) == |s| || !IsWhitespace(s[LeadingWhitespace(s)])
    decreases |s|
  {
    if s != [] && IsWhitespace(s[0]) {
      LeadingWhitespaceMeaning(s[1..]);
      forall k | 1 <= k < LeadingWhitespace(s)
        ensures IsWhitespace(s[k])
      {
        assert s[k] == s[1..][k - 1];
      }
    }
  }

  /** The number of whitespace characters `trim` removes at the back. */
  function TrailingWhitespace(s: string): (n: nat)
    ensures n <= |s|
  {
    if s != [] && IsWhitespace(s[|s| - 1]) then 1 + TrailingWhitespace(s[..|s| - 1]) else 0
  }

  /** The back run is all whitespace and is preceded by a non-whitespace
      character or the start. */
  lemma {:induction false} TrailingWhitespaceMeaning(s: string)
    ensures forall k :: |s| - TrailingWhitespace(s) <= k < |s| ==> IsWhitespace(s[k])
    ensures TrailingWhitespace(s) == |s| || !IsWhitespace(s[|s| - 1 - TrailingWhitespace(s)])
    decreases |s|
  {
    if s != [] && IsWhitespace(s[|s| - 1]) {
      var init := s[..|s| - 1];
      TrailingWhitespaceMeaning(init);
      forall k | |s| - TrailingWhitespace(s) <= k < |s| - 1
        ensures IsWhitespace(s[k])
      {
        assert s[k] == init[k];
      }
      if TrailingWhitespace(s) < |s| {
        assert s[|s| - 1 - TrailingWhitespace(s)] == init[|init| - 1 - TrailingWhitespace(init)];
      }
    }
  }

  predicate IsTrimmed(s: string) {
    s == [] || (!IsWhitespace(s[0]) && !IsWhitespace(s[|s| - 1]))
  }

  /** `s.trim()`. */
  function Trim(s: string): string {
    var rest := s[LeadingWhitespace(s)..];
    rest[..|rest| - TrailingWhitespace(rest)]
  }

  /** The result of `trim` is the part of s between a whitespace prefix and a
      whitespace suffix, and it neither starts nor ends with whitespace. */
  lemma TrimMeaning(s: string)
    ensures IsTrimmed(Trim(s))
    ensures LeadingWhitespace(s) + |Trim(s)| <= |s|
    ensures Trim(s) == s[LeadingWhitespace(s)..LeadingWhitespace(s) + |Trim(s)|]
    ensures forall k :: 0 <= k < |s| && !(LeadingWhitespace(s) <= k < LeadingWhitespace(s) + |Trim(s)|)
              ==> IsWhitespace(s[k])
  {
    var lw := LeadingWhitespace(s);
    var rest := s[lw..];
    var tw := TrailingWhitespace(rest);
    var r := Trim(s);
    LeadingWhitespaceMeaning(s);
    TrailingWhitespaceMeaning(rest);
    assert r == rest[..|rest| - tw];
    forall k | 0 <= k < |s| && !(lw <= k < lw + |r|)
      ensures IsWhitespace(s[k])
    {
      if k >= lw {
        assert s[k] == rest[k - lw];
      }
    }
    if r != [] {
      assert r[0] == s[lw];
      assert r[|r| - 1] == rest[|rest| - 1 - tw];
    }
  }

  /** The result of `trim` is a contiguous slice of its input. These are two
      of the clauses of TrimMeaning, stated here without its quantified
      clauses for callers that need only the slice, which keeps their proofs
      cheap. */
  lemma TrimIsSlice(s: string)
    ensures LeadingWhitespace(s) + |Trim(s)| <= |s|
    ensures Trim(s) == s[LeadingWhitespace(s)..LeadingWhitespace(s) + |Trim(s)|]
  {
    var rest := s[LeadingWhitespace(s)..];
    assert Trim(s) == rest[..|rest| - TrailingWhitespace(rest)];
  }

  predicate IsDigit(c: char) {
    '0' <= c <= '9'
  }

  function DigitChar(d: nat): (c: char)
    requires d < 10
    ensures IsDigit(c)
  {
    ('0' as int + d) as char
  }

  /** The decimal rendering of a natural number, without leading zeros. */
  function NatToDecimal(n: nat): (r: string)
    ensures |r| >= 1
    ensures forall k :: 0 <= k < |r| ==> IsDigit(r[k])
    ensures r[0] == '0' ==> n == 0
  {
    if n < 10 then [DigitChar(n)] else NatToDecimal(n / 10) + [DigitChar(n % 10)]
  }

  /** The value of a string of decimal digits. */
  function DecimalValue(s: string): nat
    requires forall k :: 0 <= k < |s| ==> IsDigit(s[k])
  {
    if s == [] then 0
    else
      assert IsDigit(s[|s| - 1]);
      DecimalValue(s[..|s| - 1]) * 10 + (s[|s| - 1] as int - '0' as int)
  }

  lemma {:induction false} DecimalRoundTrip(n: nat)
    ensures DecimalValue(NatToDecimal(n)) == n
  {
    if n >= 10 {
      DecimalRoundTrip(n / 10);
      var r := NatToDecimal(n);
      assert r[..|r| - 1] == NatToDecimal(n / 10);
    }
  }

  /** A JavaScript integer as a template literal renders it (for magnitudes
      below 10^21). */
  function IntToDecimal(i: int): string {
    if i < 0 then "-" + NatToDecimal(-i) else NatToDecimal(i)
  }

  /** A rendering starts with '-' exactly when the number is negative. */
  lemma RenderingSign(i: int)
    ensures |IntToDecimal(i)| >= 1
    ensures IntToDecimal(i)[0] == '-' <==> i < 0
  {
    if i >= 0 {
      assert IsDigit(NatToDecimal(i)[0]);
    }
  }

  lemma NatToDecimalInjective(m: nat, n: nat)
    requires NatToDecimal(m) == NatToDecimal(n)
    ensures m == n
  {
    DecimalRoundTrip(m);
    DecimalRoundTrip(n);
  }

  lemma IntToDecimalInjective(a: int, b: int)
    requires IntToDecimal(a) == IntToDecimal(b)
    ensures a == b
  {
    RenderingSign(a);
    RenderingSign(b);
    if a < 0 {
      assert IntToDecimal(a)[1..] == NatToDecimal(-a);
      assert IntToDecimal(b)[1..] == NatToDecimal(-b);
      NatToDecimalInjective(-a, -b);
    } else {
      NatToDecimalInjective(a, b);
    }
  }
}
