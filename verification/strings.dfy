/**
 * Character classes and string helpers with JavaScript semantics: the `\d`,
 * `\w` and `\s` regular-expression classes, `String.prototype.trim`,
 * `String.prototype.split` on a one-character separator, and the decimal text
 * a template literal produces for a non-negative integer.
 */
module Strings {
  import opened Wrappers

  /** `\d`: an ASCII decimal digit. */
  predicate IsDigit(c: char) {
    '0' <= c <= '9'
  }

  predicate IsAllDigits(s: string) {
    forall i :: 0 <= i < |s| ==> IsDigit(s[i])
  }

  /** `\w`: ASCII letters, digits and underscore (no `u` flag). */
  predicate IsWordChar(c: char) {
    IsDigit(c) || ('a' <= c <= 'z') || ('A' <= c <= 'Z') || c == '_'
  }

  /** The line terminators that the regular-expression `.` refuses. */
  predicate IsLineTerminator(c: char) {
    c == '\n' || c == '\r' || c == '\U{2028}' || c == '\U{2029}'
  }

  /** `\s` and the characters `trim()` strips: white space plus line terminators. */
  predicate IsWhite(c: char) {
    || c == '\t' || c == '\U{000B}' || c == '\U{000C}' || c == ' '
    || c == '\U{00A0}' || c == '\U{FEFF}' || c == '\U{1680}'
    || ('\U{2000}' <= c <= '\U{200A}')
    || c == '\U{202F}' || c == '\U{205F}' || c == '\U{3000}'
    || IsLineTerminator(c)
  }

  /** End of the maximal run of characters satisfying `p` that starts at `i`. */
  function RunEnd(s: string, i: nat, p: char -> bool): (e: nat)
    requires i <= |s|
    ensures i <= e <= |s|
    ensures forall j :: i <= j < e ==> p(s[j])
    ensures e == |s| || !p(s[e])
    decreases |s| - i
  {
    if i == |s| || !p(s[i]) then i else RunEnd(s, i + 1, p)
  }

  /** The first index in `[i, n)` that satisfies `p`: how a regular expression finds its leftmost match. */
  function FindFrom(n: nat, i: nat, p: nat -> bool): (r: Option<nat>)
    requires i <= n
    ensures r.Some? ==> i <= r.value < n && p(r.value)
    ensures r.Some? ==> forall j :: i <= j < r.value ==> !p(j)
    ensures r.None? ==> forall j :: i <= j < n ==> !p(j)
    decreases n - i
  {
    if i == n then None
    else if p(i) then Some(i)
    else FindFrom(n, i + 1, p)
  }

  /** Position `j` holds a digit. */
  predicate DigitAt(s: string, j: nat) {
    j < |s| && IsDigit(s[j])
  }

  /**
   * The first maximal run of digits, as `(start, end)`: what `(\d+)` matches,
   * and element 0 of `s.match(/(\d+)/g)`.
   */
  function FirstDigitRun(s: string): (r: Option<(nat, nat)>)
    ensures r.Some? ==> r.value.0 < r.value.1 <= |s|
    ensures r.Some? ==> forall j :: 0 <= j < r.value.0 ==> !IsDigit(s[j])
    ensures r.Some? ==> forall j :: r.value.0 <= j < r.value.1 ==> IsDigit(s[j])
    ensures r.Some? ==> r.value.1 == |s| || !IsDigit(s[r.value.1])
    ensures r.None? <==> forall j :: 0 <= j < |s| ==> !IsDigit(s[j])
  {
    var p := (j: nat) => DigitAt(s, j);
    var f := FindFrom(|s|, 0, p);
    var bound := if f.Some? then f.value else |s|;
    assert forall j :: 0 <= j < bound ==> !IsDigit(s[j]) by {
      forall j | 0 <= j < bound ensures !IsDigit(s[j]) { assert !p(j); }
    }
    if f.None? then None else Some((f.value, RunEnd(s, f.value, IsDigit)))
  }

  /** The text of the first maximal digit run, if any. */
  function FirstDigits(s: string): (r: Option<string>)
    ensures r.Some? ==> |r.value| > 0 && IsAllDigits(r.value)
    ensures r.None? <==> forall j :: 0 <= j < |s| ==> !IsDigit(s[j])
  {
    match FirstDigitRun(s)
    case None => None
    case Some(run) => Some(s[run.0..run.1])
  }

  /** The first digit run of `pre + d + post` is `d` when `pre` has no digit and `post` does not continue the run. */
  lemma FirstDigitsBetween(pre: string, d: string, post: string)
    requires forall j :: 0 <= j < |pre| ==> !IsDigit(pre[j])
    requires |d| > 0 && IsAllDigits(d)
    requires post == [] || !IsDigit(post[0])
    ensures FirstDigits(pre + d + post) == Some(d)
  {
    var s := pre + d + post;
    assert IsDigit(s[|pre|]);
    var run := FirstDigitRun(s).value;
    assert run.0 == |pre| by {
      assert forall j :: 0 <= j < |pre| ==> s[j] == pre[j];
    }
    assert run.1 == |pre| + |d| by {
      assert forall j :: |pre| <= j < |pre| + |d| ==> s[j] == d[j - |pre|];
      assert |pre| + |d| == |s| || s[|pre| + |d|] == post[0];
    }
    assert s[run.0..run.1] == d;
  }

  /** Text that does not start with a digit, appended after a digit, leaves the first digit run alone. */
  lemma FirstDigitsOfPrefix(t: string, rest: string)
    requires FirstDigits(t).Some?
    requires rest == [] || !IsDigit(rest[0])
    ensures FirstDigits(t + rest) == FirstDigits(t)
  {
    var run := FirstDigitRun(t).value;
    var a, b := run.0, run.1;
    var pre, d, post := t[..a], t[a..b], t[b..] + rest;
    assert t + rest == pre + d + post;
    assert post == [] || !IsDigit(post[0]) by {
      if b < |t| {
        assert post[0] == t[b];
      }
    }
    FirstDigitsBetween(pre, d, post);
  }

  // ---------------------------------------------------------------- trim

  /** The maximal run of `p` from `i` ends at the first place `k` where `p` fails. */
  lemma {:induction false} RunEndAt(s: string, i: nat, k: nat, p: char -> bool)
    requires i <= k <= |s|
    requires forall j :: i <= j < k ==> p(s[j])
    requires k == |s| || !p(s[k])
    ensures RunEnd(s, i, p) == k
    decreases k - i
  {
    if i < k {
      RunEndAt(s, i + 1, k, p);
    }
  }

  /** The end of `s[a..e]` once its trailing white space is dropped. */
  function TrailFrom(s: string, a: nat, e: nat): (b: nat)
    requires a <= e <= |s|
    ensures a <= b <= e
    ensures forall i :: b <= i < e ==> IsWhite(s[i])
    ensures b == a || !IsWhite(s[b - 1])
    decreases e
  {
    if e == a || !IsWhite(s[e - 1]) then e else TrailFrom(s, a, e - 1)
  }

  lemma {:induction false} TrailFromAt(s: string, a: nat, b: nat, e: nat)
    requires a <= b <= e <= |s|
    requires forall i :: b <= i < e ==> IsWhite(s[i])
    requires b == a || !IsWhite(s[b - 1])
    ensures TrailFrom(s, a, e) == b
    decreases e
  {
    if b < e {
      TrailFromAt(s, a, b, e - 1);
    }
  }

  /** `r` sits in `s` at `a` with nothing but white space before and after it. */
  predicate TrimmedAt(s: string, r: string, a: nat) {
    && a + |r| <= |s|
    && s[a..a + |r|] == r
    && (forall i :: 0 <= i < a ==> IsWhite(s[i]))
    && (forall i :: a + |r| <= i < |s| ==> IsWhite(s[i]))
  }

  /** `String.prototype.trim`: `s` with the white space at both ends removed and nothing else. */
  function Trim(s: string): (r: string)
    ensures r == [] || (!IsWhite(r[0]) && !IsWhite(r[|r| - 1]))
    ensures |r| <= |s|
    ensures exists a: nat :: TrimmedAt(s, r, a)
  {
    var a := RunEnd(s, 0, IsWhite);
    var b := TrailFrom(s, a, |s|);
    assert TrimmedAt(s, s[a..b], a);
    s[a..b]
  }

  /** A text with only white space around it and none at its own ends is what `trim()` returns. */
  lemma TrimmedAtIsTrim(s: string, r: string, a: nat)
    requires TrimmedAt(s, r, a)
    requires r == [] || (!IsWhite(r[0]) && !IsWhite(r[|r| - 1]))
    ensures Trim(s) == r
  {
    if r == [] {
      assert forall i :: 0 <= i < |s| ==> IsWhite(s[i]) by {
        forall i | 0 <= i < |s| ensures IsWhite(s[i]) {
          if i >= a { assert a + |r| <= i; }
        }
      }
      RunEndAt(s, 0, |s|, IsWhite);
      TrailFromAt(s, |s|, |s|, |s|);
    } else {
      assert s[a] == r[0] && s[a + |r| - 1] == r[|r| - 1];
      RunEndAt(s, 0, a, IsWhite);
      TrailFromAt(s, a, a + |r|, |s|);
    }
  }

  /** Trimming a string that neither starts nor ends with white space leaves it alone. */
  lemma TrimKeepsTrimmed(s: string)
    requires s == [] || (!IsWhite(s[0]) && !IsWhite(s[|s| - 1]))
    ensures Trim(s) == s
  {
    assert s[0..|s|] == s;
    TrimmedAtIsTrim(s, s, 0);
  }

  /** `trim()` is idempotent. */
  lemma TrimIdempotent(s: string)
    ensures Trim(Trim(s)) == Trim(s)
  {
    TrimKeepsTrimmed(Trim(s));
  }

  // ---------------------------------------------------------------- decimal text

  function DigitChar(d: nat): (c: char)
    requires d < 10
    ensures IsDigit(c)
  {
    (48 + d) as char
  }

  function DigitValue(c: char): (d: nat)
    requires IsDigit(c)
    ensures d < 10
  {
    (c as int) - 48
  }

  /** The number a string of decimal digits denotes (what unary `+` yields). */
  function DigitsValue(s: string): (v: nat)
    requires IsAllDigits(s)
    ensures v < Pow10(|s|)
  {
    if |s| == 0 then 0 else DigitsValue(s[..|s| - 1]) * 10 + DigitValue(s[|s| - 1])
  }

  /** The decimal text of `n` as a template literal `${n}` writes it. */
  function NatToString(n: nat): (r: string)
    ensures |r| > 0 && IsAllDigits(r)
    ensures r[0] == '0' ==> n == 0
  {
    if n < 10 then [DigitChar(n)] else NatToString(n / 10) + [DigitChar(n % 10)]
  }

  /** Reading back the decimal text of `n` gives `n`. */
  lemma {:induction false} NatToStringValue(n: nat)
    ensures DigitsValue(NatToString(n)) == n
  {
    var r := NatToString(n);
    if n >= 10 {
      NatToStringValue(n / 10);
      assert r[..|r| - 1] == NatToString(n / 10);
    }
  }

  /** Decimal text is injective: distinct numbers are written differently. */
  lemma NatToStringInjective(m: nat, n: nat)
    requires NatToString(m) == NatToString(n)
    ensures m == n
  {
    NatToStringValue(m);
    NatToStringValue(n);
  }

  /** `n` written with exactly `w` digits, zero-padded on the left (the low `w` digits when `n` is wider). */
  function FixedDigits(n: nat, w: nat): (r: string)
    ensures |r| == w && IsAllDigits(r)
  {
    if w == 0 then [] else FixedDigits(n / 10, w - 1) + [DigitChar(n % 10)]
  }

  /** Writing the value of a digit string at its own width gives the string back, leading zeros included. */
  lemma {:induction false} FixedDigitsOfValue(s: string)
    requires IsAllDigits(s)
    ensures FixedDigits(DigitsValue(s), |s|) == s
  {
    if |s| > 0 {
      var p := s[..|s| - 1];
      FixedDigitsOfValue(p);
      var v := DigitsValue(s);
      assert v / 10 == DigitsValue(p) && v % 10 == DigitValue(s[|s| - 1]);
      assert s == p + [s[|s| - 1]];
    }
  }

  /** Fixed-width text reads back as the number when it fits. */
  lemma {:induction false} FixedDigitsValue(n: nat, w: nat, bound: nat)
    requires bound == Pow10(w) && n < bound
    ensures DigitsValue(FixedDigits(n, w)) == n
  {
    if w > 0 {
      FixedDigitsValue(n / 10, w - 1, Pow10(w - 1));
      var r := FixedDigits(n, w);
      assert r[..|r| - 1] == FixedDigits(n / 10, w - 1);
    }
  }

  function Pow10(w: nat): (p: nat)
    ensures p >= 1
  {
    if w == 0 then 1 else 10 * Pow10(w - 1)
  }

  // ---------------------------------------------------------------- split / join

  /** Index of the first occurrence of `c` in `s`. */
  function IndexOf(s: string, c: char): (r: Option<nat>)
    ensures r.Some? ==> r.value < |s| && s[r.value] == c && c !in s[..r.value]
    ensures r.None? <==> c !in s
  {
    var p := (j: nat) => j < |s| && s[j] == c;
    var f := FindFrom(|s|, 0, p);
    var bound := if f.Some? then f.value else |s|;
    assert forall j :: 0 <= j < bound ==> s[j] != c by {
      forall j | 0 <= j < bound ensures s[j] != c { assert !p(j); }
    }
    assert f.Some? ==> c !in s[..f.value] by {
      if f.Some? {
        assert forall j :: 0 <= j < f.value ==> s[..f.value][j] == s[j];
      }
    }
    f
  }

  /** Joins the pieces with `sep` between consecutive ones (`Array.prototype.join`). */
  function Join(parts: seq<string>, sep: string): string
  {
    if |parts| == 0 then ""
    else if |parts| == 1 then parts[0]
    else parts[0] + sep + Join(parts[1..], sep)
  }

  /** A join of two or more pieces starts with the first two pieces and a separator between them. */
  lemma JoinFirstTwo(parts: seq<string>, sep: string)
    requires |parts| >= 2
    ensures Join(parts, sep) == parts[0] + sep + parts[1]
      + (if |parts| > 2 then sep + Join(parts[2..], sep) else [])
  {
    var tail := parts[1..];
    assert Join(parts, sep) == parts[0] + sep + Join(tail, sep);
    if |parts| > 2 {
      assert tail[1..] == parts[2..];
      assert Join(tail, sep) == parts[1] + sep + Join(parts[2..], sep);
    } else {
      assert Join(tail, sep) == parts[1];
    }
  }

  /** `s.split(sep)` for a one-character separator: at least one piece, none holding `sep`. */
  function Split(s: string, sep: char): (r: seq<string>)
    ensures |r| >= 1
    ensures forall k :: 0 <= k < |r| ==> sep !in r[k]
    ensures Join(r, [sep]) == s
    decreases |s|
  {
    match IndexOf(s, sep)
    case None => [s]
    case Some(i) =>
      var rest := Split(s[i + 1..], sep);
      assert s == s[..i] + [sep] + s[i + 1..];
      [s[..i]] + rest
  }

  /** Splitting a joined list of separator-free pieces gives the pieces back. */
  lemma {:induction false} SplitJoin(parts: seq<string>, sep: char)
    requires |parts| >= 1
    requires forall k :: 0 <= k < |parts| ==> sep !in parts[k]
    ensures Split(Join(parts, [sep]), sep) == parts
  {
    if |parts| == 1 {
      assert IndexOf(parts[0], sep).None?;
    } else {
      var s := Join(parts, [sep]);
      var rest := Join(parts[1..], [sep]);
      assert s == parts[0] + [sep] + rest;
      assert IndexOf(s, sep) == Some(|parts[0]|) by {
        assert s[|parts[0]|] == sep;
        assert s[..|parts[0]|] == parts[0];
      }
      assert s[|parts[0]| + 1..] == rest;
      SplitJoin(parts[1..], sep);
      assert s[..|parts[0]|] == parts[0];
    }
  }
}
