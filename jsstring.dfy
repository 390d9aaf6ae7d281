/**
 * The JavaScript string built-ins the core relies on, on `seq<char>`:
 * `String.prototype.trim`, `indexOf`, `includes`, `replace` with a string
 * pattern, and `String(n)` for an integer `n`.
 */
module JsString {
  import opened Wrappers

  /** WhiteSpace and LineTerminator code points of ECMAScript: what `trim` strips. */
  predicate IsWhitespace(c: char) {
    || c == '\t' || c == '\n' || c == '\U{000B}' || c == '\U{000C}' || c == '\r'
    || c == ' ' || c == '\U{00A0}' || c == '\U{1680}' || ('\U{2000}' <= c <= '\U{200A}')
    || c == '\U{2028}' || c == '\U{2029}' || c == '\U{202F}' || c == '\U{205F}'
    || c == '\U{3000}' || c == '\U{FEFF}'
  }

  predicate AllWhitespace(s: string) {
    forall i :: 0 <= i < |s| ==> IsWhitespace(s[i])
  }

  /** The length of the longest all-whitespace prefix of `s`. */
  function LeadingWhitespace(s: string): (n: nat)
    ensures n <= |s| && AllWhitespace(s[..n])
    ensures n < |s| ==> !IsWhitespace(s[n])
  {
    if |s| > 0 && IsWhitespace(s[0]) then
      var n := 1 + LeadingWhitespace(s[1..]);
      assert s[..n] == [s[0]] + s[1..][..n - 1];
      n
    else 0
  }

  /** The length of the longest all-whitespace suffix of `s`. */
  function TrailingWhitespace(s: string): (n: nat)
    ensures n <= |s| && AllWhitespace(s[|s| - n..])
    ensures n < |s| ==> !IsWhitespace(s[|s| - n - 1])
  {
    if |s| > 0 && IsWhitespace(s[|s| - 1]) then
      var m := TrailingWhitespace(s[..|s| - 1]);
      TrailingStep(s, m);
      m + 1
    else 0
  }

  /** One more whitespace character at the end extends the whitespace suffix by one. */
  lemma TrailingStep(s: string, m: nat)
    requires |s| > 0 && IsWhitespace(s[|s| - 1])
    requires m <= |s| - 1 && AllWhitespace(s[..|s| - 1][|s| - 1 - m..])
    requires m < |s| - 1 ==> !IsWhitespace(s[..|s| - 1][|s| - 2 - m])
    ensures AllWhitespace(s[|s| - (m + 1)..])
    ensures m + 1 < |s| ==> !IsWhitespace(s[|s| - m - 2])
  {
    forall i | |s| - (m + 1) <= i < |s| ensures IsWhitespace(s[i]) {
      if i < |s| - 1 {
        assert s[i] == s[..|s| - 1][|s| - 1 - m..][i - (|s| - 1 - m)];
      }
    }
  }

  /**
   * `String.prototype.trim`: `s` without its leading and trailing whitespace.
   * The result is a slice of `s` whose two ends are not whitespace, and what
   * lies outside the slice is all whitespace.
   */
  function Trim(s: string): (r: string)
    ensures |r| <= |s|
    ensures r == [] <==> AllWhitespace(s)
    ensures r != [] ==> !IsWhitespace(r[0]) && !IsWhitespace(r[|r| - 1])
    ensures exists i :: 0 <= i <= |s| - |r| && r == s[i..i + |r|]
                        && AllWhitespace(s[..i]) && AllWhitespace(s[i + |r|..])
  {
    var a := LeadingWhitespace(s);
    if a == |s| then
      TrimBlank(s);
      []
    else
      var b := TrailingWhitespace(s);
      TrimCore(s, a, b);
      s[a..|s| - b]
  }

  lemma TrimBlank(s: string)
    requires LeadingWhitespace(s) == |s|
    ensures AllWhitespace(s) && s[0..0] == [] && AllWhitespace(s[..0]) && AllWhitespace(s[0..])
  {
    assert s[..|s|] == s;
  }

  lemma TrimCore(s: string, a: nat, b: nat)
    requires a == LeadingWhitespace(s) < |s| && b == TrailingWhitespace(s)
    ensures a + b < |s| && !AllWhitespace(s)
    ensures var r := s[a..|s| - b];
            && !IsWhitespace(r[0]) && !IsWhitespace(r[|r| - 1])
            && r == s[a..a + |r|] && AllWhitespace(s[..a]) && AllWhitespace(s[a + |r|..])
  {
    assert !IsWhitespace(s[a]);
  }

  /** A whitespace prefix of length `k` followed by a non-whitespace character is the leading whitespace. */
  lemma LeadingWhitespaceIs(s: string, k: nat)
    requires k < |s| && AllWhitespace(s[..k]) && !IsWhitespace(s[k])
    ensures LeadingWhitespace(s) == k
  {
  }

  /** A whitespace suffix of length `k` preceded by a non-whitespace character is the trailing whitespace. */
  lemma TrailingWhitespaceIs(s: string, k: nat)
    requires k < |s| && AllWhitespace(s[|s| - k..]) && !IsWhitespace(s[|s| - k - 1])
    ensures TrailingWhitespace(s) == k
  {
  }

  /**
   * `Trim` strips exactly the outer whitespace: whatever core `t` with
   * non-whitespace ends is padded with whitespace, trimming gives back `t`.
   */
  lemma TrimPadded(w1: string, t: string, w2: string)
    requires AllWhitespace(w1) && AllWhitespace(w2)
    requires t == [] || (!IsWhitespace(t[0]) && !IsWhitespace(t[|t| - 1]))
    ensures Trim(w1 + t + w2) == t
  {
    var s := w1 + t + w2;
    if t == [] {
      assert AllWhitespace(s) by {
        forall i | 0 <= i < |s| ensures IsWhitespace(s[i]) {
          if i < |w1| { assert s[i] == w1[i]; } else { assert s[i] == w2[i - |w1|]; }
        }
      }
    } else {
      assert s[..|w1|] == w1 && s[|w1|] == t[0];
      LeadingWhitespaceIs(s, |w1|);
      assert s[|s| - |w2|..] == w2 && s[|s| - |w2| - 1] == t[|t| - 1];
      TrailingWhitespaceIs(s, |w2|);
      assert s[|w1|..|s| - |w2|] == t;
    }
  }

  /** Trimming twice is trimming once. */
  lemma TrimIdempotent(s: string)
    ensures Trim(Trim(s)) == Trim(s)
  {
    var r := Trim(s);
    assert [] + r + [] == r;
    TrimPadded([], r, []);
  }

  /** `pat` occurs in `s` starting at index `i`. */
  predicate OccursAt(s: string, pat: string, i: int) {
    0 <= i && i + |pat| <= |s| && s[i..i + |pat|] == pat
  }

  /** `i` is the first index at which `pat` occurs in `s`. */
  predicate IsFirstOccurrence(s: string, pat: string, i: int) {
    OccursAt(s, pat, i) && forall j :: 0 <= j < i ==> !OccursAt(s, pat, j)
  }

  /** Where a pattern occurs, so does each of its prefixes. */
  lemma PrefixOccurs(s: string, pat: string, p: string, j: int)
    requires OccursAt(s, pat, j) && |p| <= |pat| && pat[..|p|] == p
    ensures OccursAt(s, p, j)
  {
    assert s[j..j + |p|] == s[j..j + |pat|][..|p|];
  }

  /** `String.prototype.indexOf(pat, from)`, `None` standing for -1. */
  function IndexFrom(s: string, pat: string, from: nat): (r: Option<nat>)
    decreases |s| - from
    ensures r.Some? ==> from <= r.value && OccursAt(s, pat, r.value)
    ensures r.Some? ==> forall j :: from <= j < r.value ==> !OccursAt(s, pat, j)
    ensures r.None? ==> forall j :: from <= j ==> !OccursAt(s, pat, j)
  {
    if from + |pat| > |s| then None
    else if s[from..from + |pat|] == pat then Some(from)
    else IndexFrom(s, pat, from + 1)
  }

  /** `String.prototype.indexOf(pat)`: the first occurrence, if any. */
  function IndexOf(s: string, pat: string): (r: Option<nat>)
    ensures r.Some? ==> IsFirstOccurrence(s, pat, r.value)
    ensures r.None? ==> forall j :: !OccursAt(s, pat, j)
  {
    IndexFrom(s, pat, 0)
  }

  /** `String.prototype.includes(pat)`. */
  predicate Includes(s: string, pat: string) {
    IndexOf(s, pat).Some?
  }

  /** `includes` holds exactly when the pattern occurs somewhere. */
  lemma IncludesIff(s: string, pat: string)
    ensures Includes(s, pat) <==> exists j :: OccursAt(s, pat, j)
  {
  }

  /** A search from `from` returns the first occurrence at or after `from`. */
  lemma IndexFromIsFirst(s: string, pat: string, from: nat, k: nat)
    requires from <= k && OccursAt(s, pat, k)
    requires forall j :: from <= j < k ==> !OccursAt(s, pat, j)
    ensures IndexFrom(s, pat, from) == Some(k)
  {
  }

  /**
   * A search from `from` in `a + pat + b` stops at `|a|` when the first
   * character of `pat` does not appear in `a` from `from` on.
   */
  lemma IndexFromAfter(a: string, pat: string, b: string, from: nat)
    requires |pat| > 0 && from <= |a| && pat[0] !in a[from..]
    ensures IndexFrom(a + pat + b, pat, from) == Some(|a|)
  {
    var s := a + pat + b;
    assert s[|a|..|a| + |pat|] == pat;
    forall j | from <= j < |a| ensures !OccursAt(s, pat, j) {
      assert a[j] == a[from..][j - from];
      assert s[j] == a[j];
    }
    IndexFromIsFirst(s, pat, from, |a|);
  }

  /**
   * `String.prototype.replace(pat, rep)` with a string pattern: only the first
   * occurrence of `pat` is replaced; without one, `s` is returned unchanged.
   * (`rep` is taken literally: the `$` patterns of a replacement string are
   * not modelled.)
   */
  function Replace(s: string, pat: string, rep: string): (r: string)
    ensures (forall j :: !OccursAt(s, pat, j)) ==> r == s
    ensures forall i :: IsFirstOccurrence(s, pat, i) ==> r == s[..i] + rep + s[i + |pat|..]
  {
    match IndexOf(s, pat)
    case None => s
    case Some(i) =>
      s[..i] + rep + s[i + |pat|..]
  }

  function DigitChar(d: nat): (c: char)
    requires d < 10
    ensures '0' <= c <= '9'
  {
    (48 + d) as char
  }

  /** `String(n)` for a natural number: its decimal digits, no leading zero. */
  function NatToString(n: nat): (r: string)
    decreases n
    ensures 1 <= |r| && (r[0] == '0' ==> n == 0)
    ensures forall i :: 0 <= i < |r| ==> '0' <= r[i] <= '9'
  {
    if n < 10 then [DigitChar(n)] else NatToString(n / 10) + [DigitChar(n % 10)]
  }

  /** `String(n)` for an integer: a minus sign before the digits of a negative number. */
  function IntToString(n: int): (r: string)
    ensures 1 <= |r|
  {
    if n < 0 then "-" + NatToString(-n) else NatToString(n)
  }

  /** The number a string of decimal digits denotes. */
  function DigitsValue(s: string): int
  {
    if s == [] then 0 else 10 * DigitsValue(s[..|s| - 1]) + (s[|s| - 1] as int - 48)
  }

  /** Reading back the decimal digits of `n` gives `n`. */
  lemma {:induction false} NatToStringRoundTrip(n: nat)
    ensures DigitsValue(NatToString(n)) == n
  {
    if n >= 10 {
      NatToStringRoundTrip(n / 10);
      var r := NatToString(n);
      assert r[..|r| - 1] == NatToString(n / 10);
    }
  }

  /** Different natural numbers have different decimal digits. */
  lemma NatToStringInjective(m: nat, n: nat)
    requires NatToString(m) == NatToString(n)
    ensures m == n
  {
    NatToStringRoundTrip(m);
    NatToStringRoundTrip(n);
  }

  /** `String(n)` starts with a minus sign exactly for negative `n`. */
  lemma IntToStringSign(n: int)
    ensures IntToString(n)[0] == '-' <==> n < 0
  {
    if n >= 0 {
      assert '0' <= NatToString(n)[0] <= '9';
    }
  }

  /** The digits of `String(n)`, after the sign, read back as the magnitude of `n`. */
  lemma IntToStringDigits(n: int)
    ensures n < 0 ==> DigitsValue(IntToString(n)[1..]) == -n
    ensures n >= 0 ==> DigitsValue(IntToString(n)) == n
  {
    var d := NatToString(if n < 0 then -n else n);
    NatToStringRoundTrip(if n < 0 then -n else n);
    if n < 0 {
      MinusTail(d);
    }
  }

  lemma MinusTail(d: string)
    ensures ("-" + d)[1..] == d
  {
  }

  /** `String(n)` is injective on integers. */
  lemma IntToStringInjective(m: int, n: int)
    requires IntToString(m) == IntToString(n)
    ensures m == n
  {
    IntToStringSign(m);
    IntToStringSign(n);
    IntToStringDigits(m);
    IntToStringDigits(n);
  }
}
