/**
 * The parts of .NET's `System.String` that the helpers rely on: `Trim`,
 * `IsNullOrWhiteSpace`, ordinal and ordinal-ignore-case comparison,
 * `StartsWith(…, Ordinal)` and `string.Join`.
 */
module DotNetStrings {

  /** `char.IsWhiteSpace`: the Unicode space, line and paragraph separators plus U+0009–U+000D and U+0085. */
  predicate IsWhiteSpace(c: char) {
    || ('\U{9}' <= c <= '\U{D}')
    || c == ' '
    || c == '\U{85}'
    || c == '\U{A0}'
    || c == '\U{1680}'
    || ('\U{2000}' <= c <= '\U{200A}')
    || c == '\U{2028}'
    || c == '\U{2029}'
    || c == '\U{202F}'
    || c == '\U{205F}'
    || c == '\U{3000}'
  }

  /** `string.IsNullOrWhiteSpace` for a non-null string: empty, or white space only. */
  predicate AllWhiteSpace(s: string) {
    forall i :: 0 <= i < |s| ==> IsWhiteSpace(s[i])
  }

  /** `TrimStart()`: drops the leading white space. */
  function TrimStart(s: string): (r: string)
    ensures |r| <= |s| && r == s[|s| - |r|..]
    ensures AllWhiteSpace(s[..|s| - |r|])
    ensures r == [] || !IsWhiteSpace(r[0])
  {
    if s == [] || !IsWhiteSpace(s[0]) then s else TrimStart(s[1..])
  }

  /** `TrimEnd()`: drops the trailing white space. */
  function TrimEnd(s: string): (r: string)
    ensures |r| <= |s| && r == s[..|r|]
    ensures AllWhiteSpace(s[|r|..])
    ensures r == [] || !IsWhiteSpace(r[|r| - 1])
  {
    if s == [] || !IsWhiteSpace(s[|s| - 1]) then s
    else
      var r := TrimEnd(s[..|s| - 1]);
      assert s[|r|..] == s[..|s| - 1][|r|..] + [s[|s| - 1]];
      r
  }

  /** `Trim()`: the result neither starts nor ends with white space. */
  function Trim(s: string): (r: string)
    ensures |r| <= |s|
    ensures r == [] || (!IsWhiteSpace(r[0]) && !IsWhiteSpace(r[|r| - 1]))
  {
    var t := TrimStart(s);
    var r := TrimEnd(t);
    assert r != [] ==> r[0] == t[0];
    r
  }

  /**
   * What `Trim` removed is white space: `s` is the trimmed text with a white
   * prefix before it and a white suffix after it.
   */
  lemma TrimSplits(s: string) returns (lead: string, trail: string)
    ensures s == lead + Trim(s) + trail
    ensures AllWhiteSpace(lead) && AllWhiteSpace(trail)
  {
    var t := TrimStart(s);
    lead := TrimStartSplits(s);
    trail := TrimEndSplits(t);
    assert Trim(s) == TrimEnd(t);
    AppendAssociative(lead, TrimEnd(t), trail);
  }

  /** Regrouping a concatenation; stated on its own, away from the `Trim` facts, it is cheap to prove. */
  lemma AppendAssociative(a: string, b: string, c: string)
    ensures a + b + c == a + (b + c)
  {
  }

  lemma TrimStartSplits(s: string) returns (lead: string)
    ensures s == lead + TrimStart(s) && AllWhiteSpace(lead)
  {
    var t := TrimStart(s);
    lead := s[..|s| - |t|];
  }

  lemma TrimEndSplits(t: string) returns (trail: string)
    ensures t == TrimEnd(t) + trail && AllWhiteSpace(trail)
  {
    var r := TrimEnd(t);
    trail := t[|r|..];
  }

  lemma {:induction false} TrimStartSkipsWhitePrefix(w: string, x: string)
    requires AllWhiteSpace(w)
    ensures TrimStart(w + x) == TrimStart(x)
    decreases |w|
  {
    if w == [] {
      assert w + x == x;
    } else {
      assert (w + x)[0] == w[0];
      assert IsWhiteSpace(w[0]);
      assert (w + x)[1..] == w[1..] + x;
      assert TrimStart(w + x) == TrimStart(w[1..] + x);
      TrimStartSkipsWhitePrefix(w[1..], x);
    }
  }

  lemma {:induction false} TrimEndSkipsWhiteSuffix(x: string, w: string)
    requires AllWhiteSpace(w)
    ensures TrimEnd(x + w) == TrimEnd(x)
    decreases |w|
  {
    if w == [] {
      assert x + w == x;
    } else {
      assert (x + w)[|x + w| - 1] == w[|w| - 1];
      assert IsWhiteSpace(w[|w| - 1]);
      assert (x + w)[..|x + w| - 1] == x + w[..|w| - 1];
      assert TrimEnd(x + w) == TrimEnd(x + w[..|w| - 1]);
      TrimEndSkipsWhiteSuffix(x, w[..|w| - 1]);
    }
  }

  /** Whatever follows a text that is not blank survives `TrimStart` unchanged. */
  lemma {:induction false} TrimStartKeepsSuffix(x: string, w: string)
    requires !AllWhiteSpace(x)
    ensures TrimStart(x + w) == TrimStart(x) + w
    decreases |x|
  {
    if !IsWhiteSpace(x[0]) {
    } else {
      assert (x + w)[1..] == x[1..] + w;
      assert !AllWhiteSpace(x[1..]) by {
        var i :| 0 <= i < |x| && !IsWhiteSpace(x[i]);
        assert x[1..][i - 1] == x[i];
      }
      TrimStartKeepsSuffix(x[1..], w);
    }
  }

  /** Padding a text with white space on either side never changes what `Trim` returns. */
  lemma TrimIgnoresPadding(w1: string, s: string, w2: string)
    requires AllWhiteSpace(w1) && AllWhiteSpace(w2)
    ensures Trim(w1 + s + w2) == Trim(s)
  {
    AppendAssociative(w1, s, w2);
    TrimStartSkipsWhitePrefix(w1, s + w2);
    if AllWhiteSpace(s) {
      assert AllWhiteSpace(s + w2);
      assert TrimStart(s + w2) == [];
      assert TrimStart(s) == [];
    } else {
      TrimStartKeepsSuffix(s, w2);
      TrimEndSkipsWhiteSuffix(TrimStart(s), w2);
    }
  }

  /** `Trim` returns its argument unchanged if neither end of it is white space. */
  lemma TrimOfTrimmed(s: string)
    requires s == [] || (!IsWhiteSpace(s[0]) && !IsWhiteSpace(s[|s| - 1]))
    ensures Trim(s) == s
  {
  }

  /** `lower` is an ASCII lower-case letter and `upper` its upper-case partner. */
  predicate CasePartners(lower: char, upper: char) {
    'a' <= lower <= 'z' && upper as int == lower as int - ('a' as int - 'A' as int)
  }

  /** Invariant-culture upper-casing, restricted to the ASCII letters. */
  function ToUpperAscii(c: char): (u: char)
    ensures ('a' <= c <= 'z') == (u != c)
    ensures 'a' <= c <= 'z' ==> CasePartners(c, u)
    ensures 'A' <= u <= 'Z' <==> ('A' <= c <= 'Z' || 'a' <= c <= 'z')
  {
    if 'a' <= c <= 'z' then (c as int - 32) as char else c
  }

  /** Two characters that ordinal-ignore-case comparison treats as equal. */
  predicate SameIgnoringCase(c: char, d: char) {
    c == d || CasePartners(c, d) || CasePartners(d, c)
  }

  /** `string.Equals(a, b, StringComparison.OrdinalIgnoreCase)` (ASCII letters folded). */
  predicate EqualsIgnoreCase(a: string, b: string) {
    |a| == |b| && forall i :: 0 <= i < |a| ==> ToUpperAscii(a[i]) == ToUpperAscii(b[i])
  }

  /** Upper-casing identifies two characters exactly when they are equal or case partners. */
  lemma ToUpperAsciiIdentifiesPartners(c: char, d: char)
    ensures ToUpperAscii(c) == ToUpperAscii(d) <==> SameIgnoringCase(c, d)
  {
  }

  /**
   * Two texts are equal ignoring case exactly when they have the same length
   * and each pair of characters is equal or a pair of ASCII case partners.
   */
  lemma EqualsIgnoreCaseCharwise(a: string, b: string)
    ensures EqualsIgnoreCase(a, b) <==>
              |a| == |b| && forall i :: 0 <= i < |a| ==> SameIgnoringCase(a[i], b[i])
  {
    forall i | 0 <= i < |a| && i < |b| {
      ToUpperAsciiIdentifiesPartners(a[i], b[i]);
    }
  }

  /** `s.StartsWith(prefix, StringComparison.Ordinal)`. */
  predicate StartsWith(s: string, prefix: string) {
    |prefix| <= |s| && s[..|prefix|] == prefix
  }

  /** `string.Join(separator, parts)`: the parts in order, with the separator between neighbours. */
  function Join(separator: string, parts: seq<string>): (r: string)
    ensures parts == [] ==> r == []
    ensures parts != [] ==> StartsWith(r, parts[0])
    ensures |parts| == 1 ==> r == parts[0]
  {
    if parts == [] then []
    else if |parts| == 1 then parts[0]
    else parts[0] + separator + Join(separator, parts[1..])
  }

  /** Joining one more part appends the separator and that part. */
  lemma {:induction false} JoinSnoc(separator: string, parts: seq<string>, last: string)
    requires parts != []
    ensures Join(separator, parts + [last]) == Join(separator, parts) + separator + last
    decreases |parts|
  {
    if |parts| == 1 {
      assert parts + [last] == [parts[0], last];
    } else {
      assert (parts + [last])[1..] == parts[1..] + [last];
      JoinSnoc(separator, parts[1..], last);
    }
  }
}
