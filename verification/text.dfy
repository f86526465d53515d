/** String primitives the application relies on from `java.lang.String` and
    `java.util.regex`, written out over `seq<char>`: trimming, ASCII case
    folding, literal search, literal replace-all, and decimal digit runs. */
module Text {
  import opened Wrappers

  // ---------------------------------------------------------------------
  // Character classes
  // ---------------------------------------------------------------------

  /** `\d` without UNICODE_CHARACTER_CLASS: the ASCII digits only. */
  predicate IsAsciiDigit(c: char) {
    '0' <= c <= '9'
  }

  /** `\s` without UNICODE_CHARACTER_CLASS: space, tab, newline, vertical tab,
      form feed and carriage return. */
  predicate IsRegexSpace(c: char) {
    c == ' ' || 9 <= c as int <= 13
  }

  /** `String.trim` strips every character whose code is at most U+0020. */
  predicate IsTrimmable(c: char) {
    c as int <= 32
  }

  /** ASCII-only lower-casing: 'A'..'Z' map to 'a'..'z', every other
      character is left alone. */
  function FoldAscii(c: char): (d: char)
    ensures 'A' <= c <= 'Z' ==> d as int == c as int + 32
    ensures !('A' <= c <= 'Z') ==> d == c
    ensures !('A' <= d <= 'Z')
  {
    if 'A' <= c <= 'Z' then (c as int + 32) as char else c
  }

  /** `toLowerCase` restricted to ASCII: the only string equal to `s`
      ignoring case that holds no upper-case ASCII letter. */
  function Lower(s: string): (r: string)
    ensures SameIgnoringCase(r, s)
    ensures forall i | 0 <= i < |r| :: !('A' <= r[i] <= 'Z')
  {
    seq(|s|, i requires 0 <= i < |s| => FoldAscii(s[i]))
  }

  /** Two strings that differ at most in the case of ASCII letters. */
  predicate SameIgnoringCase(a: string, b: string) {
    |a| == |b| && forall i | 0 <= i < |a| :: FoldAscii(a[i]) == FoldAscii(b[i])
  }

  lemma LowerEqualIffSameIgnoringCase(a: string, b: string)
    ensures Lower(a) == Lower(b) <==> SameIgnoringCase(a, b)
  {
    if SameIgnoringCase(a, b) {
      assert forall i | 0 <= i < |a| :: Lower(a)[i] == Lower(b)[i];
    }
    if Lower(a) == Lower(b) {
      assert forall i | 0 <= i < |a| :: FoldAscii(a[i]) == Lower(a)[i] == Lower(b)[i] == FoldAscii(b[i]);
    }
  }

  // ---------------------------------------------------------------------
  // String.trim
  // ---------------------------------------------------------------------

  /** Index of the first non-trimmable character at or after `i`. */
  function SkipTrimmable(s: string, i: nat): (j: nat)
    requires i <= |s|
    ensures i <= j <= |s|
    ensures forall k | i <= k < j :: IsTrimmable(s[k])
    ensures j == |s| || !IsTrimmable(s[j])
    decreases |s| - i
  {
    if i == |s| || !IsTrimmable(s[i]) then i else SkipTrimmable(s, i + 1)
  }

  /** Index just past the last non-trimmable character in `s[lo..j]`. */
  function BackTrimmable(s: string, lo: nat, j: nat): (m: nat)
    requires lo <= j <= |s|
    ensures lo <= m <= j
    ensures forall k | m <= k < j :: IsTrimmable(s[k])
    ensures m == lo || !IsTrimmable(s[m - 1])
    decreases j
  {
    if j == lo || !IsTrimmable(s[j - 1]) then j else BackTrimmable(s, lo, j - 1)
  }

  /** `s` with its leading and trailing characters <= U+0020 removed. */
  function Trim(s: string): (r: string)
  {
    var i := SkipTrimmable(s, 0);
    s[i..BackTrimmable(s, i, |s|)]
  }

  predicate AllTrimmable(s: string) {
    forall k | 0 <= k < |s| :: IsTrimmable(s[k])
  }

  /** `Trim(s)` is the unique slice of `s` that drops only trimmable
      characters on either side and keeps a non-trimmable character at each
      end; it is empty exactly for blank strings. */
  lemma TrimCharacterization(s: string, i: nat, j: nat)
    requires i <= j <= |s|
    requires AllTrimmable(s[..i]) && AllTrimmable(s[j..])
    requires i < j && !IsTrimmable(s[i]) && !IsTrimmable(s[j - 1])
    ensures Trim(s) == s[i..j]
  {
    assert forall k | 0 <= k < i :: IsTrimmable(s[k]) by {
      forall k | 0 <= k < i ensures IsTrimmable(s[k]) {
        assert s[..i][k] == s[k];
      }
    }
    assert forall k | j <= k < |s| :: IsTrimmable(s[k]) by {
      forall k | j <= k < |s| ensures IsTrimmable(s[k]) {
        assert s[j..][k - j] == s[k];
      }
    }
    var a := SkipTrimmable(s, 0);
    assert a == i;
    var b := BackTrimmable(s, a, |s|);
    assert b == j;
  }

  lemma TrimEmptyIffBlank(s: string)
    ensures Trim(s) == [] <==> AllTrimmable(s)
  {
    var a := SkipTrimmable(s, 0);
    var b := BackTrimmable(s, a, |s|);
    if a < |s| {
      assert b > a;
    }
  }

  /** Surrounding padding made of trimmable characters does not change the
      trimmed text. */
  lemma TrimIgnoresPadding(pre: string, s: string, post: string)
    requires AllTrimmable(pre) && AllTrimmable(post)
    ensures Trim(pre + s + post) == Trim(s)
  {
    TrimEmptyIffBlank(s);
    TrimEmptyIffBlank(pre + s + post);
    if Trim(s) == [] {
      PaddedBlank(pre, s, post);
    } else {
      PaddedCore(pre, s, post);
    }
  }

  lemma PaddedBlank(pre: string, s: string, post: string)
    requires AllTrimmable(pre) && AllTrimmable(s) && AllTrimmable(post)
    ensures AllTrimmable(pre + s + post)
  {
    var t := pre + s + post;
    forall k | 0 <= k < |t| ensures IsTrimmable(t[k]) {
      if k < |pre| {
        assert t[k] == pre[k];
      } else if k < |pre| + |s| {
        assert t[k] == s[k - |pre|];
      } else {
        assert t[k] == post[k - |pre| - |s|];
      }
    }
  }

  lemma PaddedCore(pre: string, s: string, post: string)
    requires AllTrimmable(pre) && AllTrimmable(post) && Trim(s) != []
    ensures Trim(pre + s + post) == Trim(s)
  {
    var t := pre + s + post;
    var i := SkipTrimmable(s, 0);
    var j := BackTrimmable(s, i, |s|);
    var i' := |pre| + i;
    var j' := |pre| + j;
    assert t[i'..j'] == s[i..j];
    assert t[i'] == s[i];
    assert t[j' - 1] == s[j - 1];
    PaddedPrefix(pre, s, post, i);
    PaddedSuffix(pre, s, post, j);
    TrimCharacterization(t, i', j');
  }

  lemma PaddedPrefix(pre: string, s: string, post: string, i: nat)
    requires AllTrimmable(pre) && i <= |s|
    requires forall k | 0 <= k < i :: IsTrimmable(s[k])
    ensures AllTrimmable((pre + s + post)[..|pre| + i])
  {
    var t := pre + s + post;
    var i' := |pre| + i;
    forall k | 0 <= k < i' ensures IsTrimmable(t[..i'][k]) {
      if k < |pre| {
        assert t[..i'][k] == pre[k];
      } else {
        assert t[..i'][k] == s[k - |pre|];
      }
    }
  }

  lemma PaddedSuffix(pre: string, s: string, post: string, j: nat)
    requires AllTrimmable(post) && j <= |s|
    requires forall k | j <= k < |s| :: IsTrimmable(s[k])
    ensures AllTrimmable((pre + s + post)[|pre| + j..])
  {
    var t := pre + s + post;
    var j' := |pre| + j;
    forall k | 0 <= k < |t| - j' ensures IsTrimmable(t[j'..][k]) {
      if j' + k < |pre| + |s| {
        assert t[j'..][k] == s[j + k];
      } else {
        assert t[j'..][k] == post[j' + k - |pre| - |s|];
      }
    }
  }

  // ---------------------------------------------------------------------
  // Literal search
  // ---------------------------------------------------------------------

  /** `pat` occurs in `s` starting at index `k`, compared character by
      character as `String.regionMatches` does. */
  predicate OccursAt(s: string, pat: string, k: int) {
    0 <= k && k + |pat| <= |s| && MatchesFrom(s, pat, k, 0)
  }

  /** The characters of `pat` from index `i` on appear in `s` from `k + i`. */
  predicate MatchesFrom(s: string, pat: string, k: nat, i: nat)
    requires k + |pat| <= |s| && i <= |pat|
    decreases |pat| - i
  {
    i == |pat| || (s[k + i] == pat[i] && MatchesFrom(s, pat, k, i + 1))
  }

  lemma {:induction false} MatchesFromAll(s: string, pat: string, k: nat, i: nat)
    requires k + |pat| <= |s| && i <= |pat|
    ensures MatchesFrom(s, pat, k, i) <==> forall j | i <= j < |pat| :: s[k + j] == pat[j]
    decreases |pat| - i
  {
    if i < |pat| {
      MatchesFromAll(s, pat, k, i + 1);
    }
  }

  /** An occurrence is exactly a slice equal to the pattern. */
  lemma OccursAtSlice(s: string, pat: string, k: int)
    ensures OccursAt(s, pat, k) <==> 0 <= k && k + |pat| <= |s| && s[k..k + |pat|] == pat
  {
    if 0 <= k && k + |pat| <= |s| {
      MatchesFromAll(s, pat, k, 0);
      assert s[k..k + |pat|] == pat <==> forall j | 0 <= j < |pat| :: s[k + j] == pat[j];
    }
  }

  /** `String.indexOf(pat, from)` for a non-empty `pat`: the first occurrence
      at or after `from`, or -1 when there is none (see `IndexOfFirst`). */
  function IndexOf(s: string, pat: string, from: nat): (k: int)
    requires |pat| > 0
    ensures k == -1 || (from <= k && OccursAt(s, pat, k))
    decreases |s| - from
  {
    if from + |pat| > |s| then -1
    else if OccursAt(s, pat, from) then from
    else IndexOf(s, pat, from + 1)
  }

  /** `IndexOf` finds the leftmost occurrence, and -1 means there is none. */
  lemma {:induction false} IndexOfFirst(s: string, pat: string, from: nat)
    requires |pat| > 0
    ensures IndexOf(s, pat, from) == -1 ==> forall j | from <= j :: !OccursAt(s, pat, j)
    ensures forall j | from <= j < IndexOf(s, pat, from) :: !OccursAt(s, pat, j)
    decreases |s| - from
  {
    if from + |pat| <= |s| && !OccursAt(s, pat, from) {
      IndexOfFirst(s, pat, from + 1);
    }
  }

  /** `q` occurs in `text` at index `k` when ASCII letters are compared
      without regard to case. */
  predicate OccursIgnoringCaseAt(text: string, q: string, k: int) {
    0 <= k && k + |q| <= |text| && SameIgnoringCase(text[k..k + |q|], q)
  }

  /** Declarative unanchored, ASCII-case-insensitive substring test. */
  predicate ContainsIgnoringCase(text: string, q: string) {
    exists k | 0 <= k <= |text| :: OccursIgnoringCaseAt(text, q, k)
  }

  /** `Matcher.find` for the pattern `Pattern.quote(q)` compiled with
      CASE_INSENSITIVE and without UNICODE_CASE: the leftmost match at or
      after `from`. */
  function FindIgnoringCase(text: string, q: string, from: nat): (r: Option<nat>)
    ensures r.Some? ==> from <= r.value && OccursIgnoringCaseAt(text, q, r.value)
    ensures r.Some? ==> forall k | from <= k < r.value :: !OccursIgnoringCaseAt(text, q, k)
    ensures r.None? ==> forall k | from <= k :: !OccursIgnoringCaseAt(text, q, k)
    decreases |text| - from
  {
    if from + |q| > |text| then None
    else if OccursIgnoringCaseAt(text, q, from) then Some(from)
    else FindIgnoringCase(text, q, from + 1)
  }

  lemma FindIffContains(text: string, q: string)
    ensures FindIgnoringCase(text, q, 0).Some? <==> ContainsIgnoringCase(text, q)
  {
    var r := FindIgnoringCase(text, q, 0);
    if r.Some? {
      assert OccursIgnoringCaseAt(text, q, r.value);
    }
  }

  // ---------------------------------------------------------------------
  // Literal replace-all (`String.replace(CharSequence, CharSequence)`)
  // ---------------------------------------------------------------------

  /** Replaces every occurrence of `pat`, scanning left to right and
      resuming after each replaced occurrence. The result is never longer
      than `s` when the replacement is no longer than the target, and a
      text that cannot contain the target is returned unchanged. */
  function ReplaceAll(s: string, pat: string, rep: string): (r: string)
    requires |pat| > 0
    ensures |rep| <= |pat| ==> |r| <= |s|
    ensures pat[0] !in s ==> r == s
    decreases |s|
  {
    if |s| < |pat| then s
    else if s[..|pat|] == pat then
      assert pat[0] == s[0];
      rep + ReplaceAll(s[|pat|..], pat, rep)
    else
      [s[0]] + ReplaceAll(s[1..], pat, rep)
  }

  /** An occurrence at the front is replaced, and the scan resumes after it. */
  lemma ReplaceAllHead(pat: string, s: string, rep: string)
    requires |pat| > 0
    ensures ReplaceAll(pat + s, pat, rep) == rep + ReplaceAll(s, pat, rep)
  {
    assert (pat + s)[..|pat|] == pat;
    assert (pat + s)[|pat|..] == s;
  }

  /** A character where no occurrence starts is copied, and the scan moves
      on by one. */
  lemma ReplaceAllSkip(s: string, pat: string, rep: string)
    requires |pat| > 0 && |s| > 0 && !OccursAt(s, pat, 0)
    ensures ReplaceAll(s, pat, rep) == [s[0]] + ReplaceAll(s[1..], pat, rep)
  {
    OccursAtSlice(s, pat, 0);
  }

  /** A text in which the target occurs nowhere is returned unchanged. */
  lemma {:induction false} ReplaceAllAbsent(s: string, pat: string, rep: string)
    requires |pat| > 0
    requires forall k | 0 <= k < |s| :: !OccursAt(s, pat, k)
    ensures ReplaceAll(s, pat, rep) == s
    decreases |s|
  {
    if s != [] {
      forall k | 0 <= k < |s| - 1
        ensures !OccursAt(s[1..], pat, k)
      {
        OccursAtSlice(s, pat, k + 1);
        OccursAtSlice(s[1..], pat, k);
        if k + |pat| <= |s| - 1 {
          assert s[1..][k..k + |pat|] == s[k + 1..k + 1 + |pat|];
        }
      }
      ReplaceAllAbsent(s[1..], pat, rep);
      ReplaceAllSkip(s, pat, rep);
      assert s == [s[0]] + s[1..];
    }
  }

  /** No occurrence starts at a character other than the target's first. */
  lemma NotAtStart(s: string, pat: string, c: char)
    requires |pat| > 0 && |s| > 0 && s[0] == c && c != pat[0]
    ensures !OccursAt(s, pat, 0)
  {
    if |pat| <= |s| {
      MatchesFromAll(s, pat, 0, 0);
    }
  }

  /** A prefix that does not contain the target's first character is
      copied unchanged. */
  lemma {:induction false} ReplaceAllPlainPrefix(p: string, s: string, pat: string, rep: string)
    requires |pat| > 0 && forall k | 0 <= k < |p| :: p[k] != pat[0]
    ensures ReplaceAll(p + s, pat, rep) == p + ReplaceAll(s, pat, rep)
    decreases |p|
  {
    if p == [] {
      assert p + s == s;
    } else {
      var c, q := p[0], p[1..];
      assert forall k | 0 <= k < |q| :: q[k] == p[k + 1];
      assert p + s == [c] + (q + s);
      ReplaceAllCons(c, q + s, pat, rep);
      ReplaceAllPlainPrefix(q, s, pat, rep);
      ConsAppend(p, c, q, ReplaceAll(s, pat, rep));
    }
  }

  lemma ConsAppend(p: string, c: char, q: string, z: string)
    requires p != [] && c == p[0] && q == p[1..]
    ensures [c] + (q + z) == p + z
  {
  }

  /** A leading character other than the target's first is copied. */
  lemma ReplaceAllCons(c: char, rest: string, pat: string, rep: string)
    requires |pat| > 0 && c != pat[0]
    ensures ReplaceAll([c] + rest, pat, rep) == [c] + ReplaceAll(rest, pat, rep)
  {
    NotAtStart([c] + rest, pat, c);
    ReplaceAllSkip([c] + rest, pat, rep);
    assert ([c] + rest)[1..] == rest;
  }

  /** `s` with every occurrence of the character `c` deleted, i.e.
      `s.replace(String.valueOf(c), "")`. */
  function Without(s: string, c: char): (r: string)
    ensures c !in r
    ensures forall d | d in r :: d in s
    ensures |r| <= |s|
  {
    if s == [] then []
    else
      var rest := Without(s[1..], c);
      if s[0] == c then rest else [s[0]] + rest
  }

  /** Deleting a character commutes with concatenation. */
  lemma {:induction false} WithoutAppend(a: string, b: string, c: char)
    ensures Without(a + b, c) == Without(a, c) + Without(b, c)
    decreases |a|
  {
    if a != [] {
      assert (a + b)[1..] == a[1..] + b;
      WithoutAppend(a[1..], b, c);
    } else {
      assert a + b == b;
    }
  }

  /** A text without the character is left unchanged. */
  lemma {:induction false} WithoutAbsent(s: string, c: char)
    requires c !in s
    ensures Without(s, c) == s
    decreases |s|
  {
    if s != [] {
      WithoutAbsent(s[1..], c);
    }
  }

  // ---------------------------------------------------------------------
  // Decimal digit runs
  // ---------------------------------------------------------------------

  predicate AllDigits(s: string) {
    forall i | 0 <= i < |s| :: IsAsciiDigit(s[i])
  }

  predicate NoDigits(s: string) {
    forall i | 0 <= i < |s| :: !IsAsciiDigit(s[i])
  }

  function DigitValue(c: char): (v: nat)
    requires IsAsciiDigit(c)
    ensures v < 10
  {
    c as int - '0' as int
  }

  function DigitChar(v: nat): (c: char)
    requires v < 10
    ensures IsAsciiDigit(c) && DigitValue(c) == v
  {
    ('0' as int + v) as char
  }

  /** The number a run of decimal digits denotes (leading zeros allowed). */
  function DigitsValue(ds: string): nat
    requires AllDigits(ds)
    decreases |ds|
  {
    if ds == [] then 0 else 10 * DigitsValue(ds[..|ds| - 1]) + DigitValue(ds[|ds| - 1])
  }

  /** Decimal rendering of `n` (string concatenation with an int): a
      non-empty digit run with no leading zero that denotes `n`. */
  function NatToString(n: nat): (s: string)
    ensures |s| > 0 && AllDigits(s)
    ensures DigitsValue(s) == n
    ensures s[0] == '0' ==> n == 0
    decreases n
  {
    if n < 10 then [DigitChar(n)]
    else
      var p := NatToString(n / 10);
      var s := p + [DigitChar(n % 10)];
      assert s[..|s| - 1] == p;
      s
  }

  /** Different numbers render differently. */
  lemma NatToStringInjective(a: nat, b: nat)
    requires NatToString(a) == NatToString(b)
    ensures a == b
  {
  }

  /** First index at or after `i` holding a digit, or `|s|`. */
  function SkipNonDigits(s: string, i: nat): (j: nat)
    requires i <= |s|
    ensures i <= j <= |s|
    ensures forall k | i <= k < j :: !IsAsciiDigit(s[k])
    ensures j == |s| || IsAsciiDigit(s[j])
    decreases |s| - i
  {
    if i == |s| || IsAsciiDigit(s[i]) then i else SkipNonDigits(s, i + 1)
  }

  /** End of the maximal digit run starting at `i`. */
  function SkipDigits(s: string, i: nat): (j: nat)
    requires i <= |s|
    ensures i <= j <= |s|
    ensures forall k | i <= k < j :: IsAsciiDigit(s[k])
    ensures j == |s| || !IsAsciiDigit(s[j])
    decreases |s| - i
  {
    if i == |s| || !IsAsciiDigit(s[i]) then i else SkipDigits(s, i + 1)
  }
}
