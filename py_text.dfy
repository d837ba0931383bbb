/**
 * The parts of Python's `str` semantics that the scraper relies on:
 * `str.isspace`, `str.strip()`, `str.find`, the `in` operator on strings,
 * `str.split()` with no separator, and `int()` applied to a string.
 */
module PyText {

  import opened Wrappers

  /** `c.isspace()` in Python 3: the Unicode whitespace characters. */
  predicate IsSpace(c: char)
  {
    c == ' ' || ('\t' <= c <= '\r') || ('\U{1C}' <= c <= '\U{1F}') ||
    c == '\U{85}' || c == '\U{A0}' || c == '\U{1680}' ||
    ('\U{2000}' <= c <= '\U{200A}') || c == '\U{2028}' || c == '\U{2029}' ||
    c == '\U{202F}' || c == '\U{205F}' || c == '\U{3000}'
  }

  predicate AllSpace(s: string)
  {
    forall i :: 0 <= i < |s| ==> IsSpace(s[i])
  }

  /** No whitespace at either end: what `strip()` leaves behind. */
  predicate IsStripped(s: string)
  {
    |s| == 0 || (!IsSpace(s[0]) && !IsSpace(s[|s| - 1]))
  }

  /** Index of the first non-whitespace character at or after `i`, or `|s|`. */
  function LeadFrom(s: string, i: nat): (n: nat)
    requires i <= |s|
    ensures i <= n <= |s| && (forall j :: i <= j < n ==> IsSpace(s[j]))
    ensures n < |s| ==> !IsSpace(s[n])
    decreases |s| - i
  {
    if i < |s| && IsSpace(s[i]) then LeadFrom(s, i + 1) else i
  }

  /** Number of leading whitespace characters. */
  function Lead(s: string): (n: nat)
    ensures n <= |s| && AllSpace(s[..n])
    ensures n < |s| ==> !IsSpace(s[n])
  {
    var n := LeadFrom(s, 0);
    assert forall j :: 0 <= j < n ==> s[..n][j] == s[j];
    n
  }

  /** The leading whitespace is determined by where the first non-whitespace character stands. */
  lemma LeadIs(s: string, n: nat)
    requires n <= |s| && (forall j :: 0 <= j < n ==> IsSpace(s[j])) && (n < |s| ==> !IsSpace(s[n]))
    ensures Lead(s) == n
  {
    var m := Lead(s);
    assert forall j :: 0 <= j < m ==> IsSpace(s[j]) by {
      assert forall j :: 0 <= j < m ==> s[..m][j] == s[j];
    }
  }

  /** Number of whitespace characters just before index `j`, looking no further back than `a`. */
  function Trail(s: string, a: nat, j: nat): (n: nat)
    requires a <= j <= |s|
    ensures a + n <= j && forall i :: j - n <= i < j ==> IsSpace(s[i])
    ensures a + n < j ==> !IsSpace(s[j - n - 1])
    decreases j
  {
    if j > a && IsSpace(s[j - 1]) then 1 + Trail(s, a, j - 1) else 0
  }

  /**
   * `s.strip()`: `s` is whitespace, then the result, then whitespace, and the
   * result neither starts nor ends with whitespace.
   */
  function Strip(s: string): (r: string)
    ensures IsStripped(r)
    ensures Lead(s) + |r| <= |s| && s[Lead(s)..Lead(s) + |r|] == r
    ensures AllSpace(s[..Lead(s)]) && AllSpace(s[Lead(s) + |r|..])
  {
    var a := Lead(s);
    var n := Trail(s, a, |s|);
    StrippedPart(s, a, n);
    s[a..|s| - n]
  }

  /** Cutting whitespace-free ends out of a string leaves a stripped string. */
  lemma StrippedPart(s: string, a: nat, n: nat)
    requires a + n <= |s|
    requires a + n < |s| ==> !IsSpace(s[a]) && !IsSpace(s[|s| - n - 1])
    ensures IsStripped(s[a..|s| - n])
  {
    var r := s[a..|s| - n];
    if |r| > 0 {
      assert r[0] == s[a] && r[|r| - 1] == s[|s| - n - 1];
    }
  }

  /** Stripping yields the empty string exactly when the input is all whitespace. */
  lemma StripEmptyIff(s: string)
    ensures Strip(s) == [] <==> AllSpace(s)
  {
    var a, r := Lead(s), Strip(s);
    if r == [] {
      forall i | 0 <= i < |s| ensures IsSpace(s[i]) {
        assert s[..a][i] == s[i];
      }
    }
  }

  /** Stripping an already stripped string changes nothing. */
  lemma StripStripped(s: string)
    requires IsStripped(s)
    ensures Strip(s) == s
  {
    LeadIs(s, 0);
  }

  /** `sub` occurs in `s` starting at index `i`. */
  predicate Occurs(s: string, sub: string, i: int)
  {
    0 <= i && i + |sub| <= |s| && s[i..i + |sub|] == sub
  }

  function FindFrom(s: string, sub: string, i: nat): (r: int)
    requires i <= |s| + 1
    ensures r == -1 || (i <= r && Occurs(s, sub, r))
    ensures r == -1 ==> forall j :: i <= j ==> !Occurs(s, sub, j)
    ensures r != -1 ==> forall j :: i <= j < r ==> !Occurs(s, sub, j)
    decreases |s| + 1 - i
  {
    if i + |sub| > |s| then -1
    else if s[i..i + |sub|] == sub then i
    else FindFrom(s, sub, i + 1)
  }

  /** `s.find(sub)`: the first index where `sub` occurs, or -1. */
  function Find(s: string, sub: string): (r: int)
    ensures r == -1 <==> forall j :: !Occurs(s, sub, j)
    ensures r != -1 ==> Occurs(s, sub, r) && forall j :: 0 <= j < r ==> !Occurs(s, sub, j)
  {
    FindFrom(s, sub, 0)
  }

  /** A one-character substring occurs exactly where that character stands. */
  lemma OccursChar(s: string, c: char, j: int)
    ensures Occurs(s, [c], j) <==> 0 <= j < |s| && s[j] == c
  {
    if 0 <= j < |s| { assert s[j..j + 1] == [s[j]]; }
  }

  /** `s.find(c)` for one character: the first position of `c`, or -1 when `c` is not in `s`. */
  lemma FindChar(s: string, c: char)
    ensures Find(s, [c]) == -1 <==> c !in s
    ensures Find(s, [c]) != -1 ==> 0 <= Find(s, [c]) < |s| && s[Find(s, [c])] == c && c !in s[..Find(s, [c])]
  {
    var r := Find(s, [c]);
    forall j ensures Occurs(s, [c], j) <==> 0 <= j < |s| && s[j] == c { OccursChar(s, c, j); }
    if r != -1 {
      assert forall j :: 0 <= j < r ==> s[..r][j] == s[j];
    }
  }

  /** Python's `sub in s` on strings. */
  predicate Contains(s: string, sub: string)
  {
    Find(s, sub) >= 0
  }

  /** A string none of whose characters is `c` does not contain a substring starting with `c`. */
  lemma NotContainsChar(s: string, sub: string)
    requires |sub| > 0 && forall i :: 0 <= i < |s| ==> s[i] != sub[0]
    ensures !Contains(s, sub)
  {
    forall j ensures !Occurs(s, sub, j) {
      if 0 <= j && j + |sub| <= |s| {
        assert s[j..j + |sub|][0] == s[j];
      }
    }
  }

  /** The characters of `s` that are not whitespace, in order. */
  function NonSpace(s: string): string
  {
    if s == [] then []
    else if IsSpace(s[0]) then NonSpace(s[1..])
    else [s[0]] + NonSpace(s[1..])
  }

  lemma {:induction false} NonSpaceAppend(a: string, b: string)
    ensures NonSpace(a + b) == NonSpace(a) + NonSpace(b)
  {
    if a == [] {
      assert a + b == b;
    } else {
      assert (a + b)[1..] == a[1..] + b;
      NonSpaceAppend(a[1..], b);
    }
  }

  lemma {:induction false} NonSpaceOfWord(s: string)
    requires forall i :: 0 <= i < |s| ==> !IsSpace(s[i])
    ensures NonSpace(s) == s
  {
    if s != [] { NonSpaceOfWord(s[1..]); }
  }

  /** A split token: non-empty and free of whitespace. */
  predicate IsToken(w: string)
  {
    |w| > 0 && forall i :: 0 <= i < |w| ==> !IsSpace(w[i])
  }

  /** Index just past the run of non-whitespace characters that starts at `i`. */
  function WordEnd(s: string, i: nat): (j: nat)
    requires i <= |s|
    ensures i <= j <= |s| && (forall k :: i <= k < j ==> !IsSpace(s[k]))
    ensures j < |s| ==> IsSpace(s[j])
    decreases |s| - i
  {
    if i < |s| && !IsSpace(s[i]) then WordEnd(s, i + 1) else i
  }

  /** A run of whitespace from `i` is determined by where it ends. */
  lemma {:induction false} LeadFromIs(s: string, i: nat, a: nat)
    requires i <= a <= |s| && (forall k :: i <= k < a ==> IsSpace(s[k])) && (a < |s| ==> !IsSpace(s[a]))
    ensures LeadFrom(s, i) == a
    decreases a - i
  {
    if i < a { LeadFromIs(s, i + 1, a); }
  }

  /** A run of non-whitespace from `i` is determined by where it ends. */
  lemma {:induction false} WordEndIs(s: string, i: nat, b: nat)
    requires i <= b <= |s| && (forall k :: i <= k < b ==> !IsSpace(s[k])) && (b < |s| ==> IsSpace(s[b]))
    ensures WordEnd(s, i) == b
    decreases b - i
  {
    if i < b { WordEndIs(s, i + 1, b); }
  }

  function Concat(ws: seq<string>): string
  {
    if ws == [] then [] else ws[0] + Concat(ws[1..])
  }

  /** The tokens of `s[i..]`: skip whitespace, take a word, go on after it. */
  function SplitFrom(s: string, i: nat): (ws: seq<string>)
    requires i <= |s|
    ensures forall k :: 0 <= k < |ws| ==> IsToken(ws[k])
    decreases |s| - i
  {
    var a := LeadFrom(s, i);
    if a == |s| then []
    else
      var b := WordEnd(s, a);
      assert b > a by { assert WordEnd(s, a) == WordEnd(s, a + 1); }
      var w, ws := s[a..b], SplitFrom(s, b);
      assert IsToken(w) by { assert forall k :: 0 <= k < |w| ==> w[k] == s[a + k]; }
      assert forall k :: 0 < k < |ws| + 1 ==> ([w] + ws)[k] == ws[k - 1];
      [w] + ws
  }

  /**
   * `s.split()`: the maximal runs of non-whitespace characters, in order.
   * Every token is non-empty and whitespace-free.
   */
  function Split(s: string): (ws: seq<string>)
    ensures forall k :: 0 <= k < |ws| ==> IsToken(ws[k])
  {
    SplitFrom(s, 0)
  }

  /** There are no tokens exactly when `s` is all whitespace. */
  lemma SplitEmptyIff(s: string)
    ensures Split(s) == [] <==> AllSpace(s)
  {
    SplitFromStep(s, 0);
    var a := LeadFrom(s, 0);
    if a < |s| {
      assert !IsSpace(s[a]);
    }
  }

  /** Whitespace at `i` does not change the tokens from `i` on. */
  lemma SplitFromSpace(s: string, i: nat)
    requires i < |s| && IsSpace(s[i])
    ensures SplitFrom(s, i) == SplitFrom(s, i + 1)
  {
    assert LeadFrom(s, i) == LeadFrom(s, i + 1);
  }

  /** A word that starts at `i` and ends at whitespace or at the end is the first token from `i`. */
  lemma SplitFromWord(s: string, i: nat, b: nat)
    requires i < b <= |s| && (forall k :: i <= k < b ==> !IsSpace(s[k])) && (b < |s| ==> IsSpace(s[b]))
    ensures SplitFrom(s, i) == [s[i..b]] + SplitFrom(s, b)
  {
    LeadFromIs(s, i, i);
    WordEndIs(s, i, b);
  }

  /** Equal suffixes have the same tokens. */
  lemma {:induction false} SplitFromShift(s: string, i: nat, t: string, j: nat)
    requires i <= |s| && j <= |t| && s[i..] == t[j..]
    ensures SplitFrom(s, i) == SplitFrom(t, j)
    decreases |s| - i
  {
    var a := LeadFrom(s, i);
    var l := LeadFrom(t, j);
    assert l == a - i + j by { LeadFromShift(s, i, t, j); }
    if a < |s| {
      var b := WordEnd(s, a);
      var e := WordEnd(t, l);
      var w, ws := s[a..b], SplitFrom(s, b);
      assert e == b - i + j && t[l..e] == w by {
        WordEndShift(s, i, t, j, a);
        SliceShift(s, i, t, j, a, b);
      }
      assert SplitFrom(t, e) == ws by {
        assert s[b..] == s[i..][b - i..] && t[e..] == t[j..][b - i..];
        SplitFromShift(s, b, t, e);
      }
      assert SplitFrom(s, i) == [w] + ws by { SplitFromStep(s, i); }
      assert SplitFrom(t, j) == [t[l..e]] + SplitFrom(t, e) by { SplitFromStep(t, j); }
    } else {
      assert SplitFrom(s, i) == [] && SplitFrom(t, j) == [] by {
        SplitFromStep(s, i);
        SplitFromStep(t, j);
      }
    }
  }

  /** One step of `SplitFrom`, as an equation. */
  lemma SplitFromStep(s: string, i: nat)
    requires i <= |s|
    ensures LeadFrom(s, i) == |s| ==> SplitFrom(s, i) == []
    ensures LeadFrom(s, i) < |s| ==>
      SplitFrom(s, i) == [s[LeadFrom(s, i)..WordEnd(s, LeadFrom(s, i))]] + SplitFrom(s, WordEnd(s, LeadFrom(s, i)))
  {
  }

  /** Position `k` of `t` from `j` on is the matching position of `s` from `i` on. */
  lemma AtShift(s: string, i: nat, t: string, j: nat, k: nat)
    requires i <= |s| && j <= |t| && s[i..] == t[j..] && j <= k < |t|
    ensures k - j + i < |s| && t[k] == s[k - j + i]
  {
    assert t[k] == t[j..][k - j] && s[k - j + i] == s[i..][k - j];
  }

  lemma LeadFromShift(s: string, i: nat, t: string, j: nat)
    requires i <= |s| && j <= |t| && s[i..] == t[j..]
    ensures LeadFrom(t, j) == LeadFrom(s, i) - i + j
  {
    var a := LeadFrom(s, i);
    var d := a - i;
    forall k | j <= k < j + d ensures IsSpace(t[k]) {
      AtShift(s, i, t, j, k);
    }
    if a < |s| {
      AtShift(s, i, t, j, j + d);
    }
    LeadFromIs(t, j, j + d);
  }

  lemma WordEndShift(s: string, i: nat, t: string, j: nat, a: nat)
    requires i <= a <= |s| && j <= |t| && s[i..] == t[j..]
    ensures WordEnd(t, a - i + j) == WordEnd(s, a) - i + j
  {
    var b := WordEnd(s, a);
    forall k | a - i + j <= k < b - i + j ensures !IsSpace(t[k]) {
      AtShift(s, i, t, j, k);
    }
    if b < |s| {
      AtShift(s, i, t, j, b - i + j);
    }
    WordEndIs(t, a - i + j, b - i + j);
  }

  lemma SliceShift(s: string, i: nat, t: string, j: nat, a: nat, b: nat)
    requires i <= a <= b <= |s| && j <= |t| && s[i..] == t[j..]
    ensures s[a..b] == t[a - i + j..b - i + j]
  {
    forall k | 0 <= k < b - a ensures s[a..b][k] == t[a - i + j..b - i + j][k] {
      AtShift(s, i, t, j, a + k - i + j);
    }
  }

  lemma ConcatCons(w: string, ws: seq<string>)
    ensures Concat([w] + ws) == w + Concat(ws)
  {
    assert ([w] + ws)[1..] == ws;
  }

  /** Together the tokens of `s[i..]` hold exactly its non-whitespace characters, in order. */
  lemma {:induction false} SplitFromNonSpace(s: string, i: nat)
    requires i <= |s|
    ensures Concat(SplitFrom(s, i)) == NonSpace(s[i..])
    decreases |s| - i
  {
    var a := LeadFrom(s, i);
    if a == |s| {
      assert SplitFrom(s, i) == [] by { SplitFromStep(s, i); }
      assert NonSpace(s[i..]) == [] by {
        NonSpaceSkip(s, i, a);
        assert s[a..] == [];
      }
    } else {
      var b := WordEnd(s, a);
      var w, ws := s[a..b], SplitFrom(s, b);
      assert Concat(SplitFrom(s, i)) == w + Concat(ws) by {
        SplitFromStep(s, i);
        ConcatCons(w, ws);
      }
      assert Concat(ws) == NonSpace(s[b..]) by { SplitFromNonSpace(s, b); }
      assert NonSpace(s[i..]) == w + NonSpace(s[b..]) by { NonSpaceWord(s, i, a, b); }
    }
  }

  /** Whitespace, then a word, then the rest: only the word and the rest's non-whitespace remain. */
  lemma NonSpaceWord(s: string, i: nat, a: nat, b: nat)
    requires i <= a <= b <= |s|
    requires forall k :: i <= k < a ==> IsSpace(s[k])
    requires forall k :: a <= k < b ==> !IsSpace(s[k])
    ensures NonSpace(s[i..]) == s[a..b] + NonSpace(s[b..])
  {
    var w := s[a..b];
    NonSpaceSkip(s, i, a);
    assert s[a..] == w + s[b..];
    NonSpaceAppend(w, s[b..]);
    NonSpaceOfWord(w);
  }

  /** Together the tokens hold exactly the non-whitespace characters of `s`, in order. */
  lemma SplitNonSpace(s: string)
    ensures Concat(Split(s)) == NonSpace(s)
  {
    SplitFromNonSpace(s, 0);
    assert s[0..] == s;
  }

  /** Whitespace contributes nothing. */
  lemma {:induction false} NonSpaceSkip(s: string, i: nat, a: nat)
    requires i <= a <= |s| && forall k :: i <= k < a ==> IsSpace(s[k])
    ensures NonSpace(s[i..]) == NonSpace(s[a..])
    decreases a - i
  {
    if i < a {
      assert s[i..][0] == s[i] && s[i..][1..] == s[i + 1..];
      NonSpaceSkip(s, i + 1, a);
    }
  }

  /** `s.split()` after a leading space is `s.split()`. */
  lemma SplitSkipsSpace(rest: string)
    ensures Split(" " + rest) == Split(rest)
  {
    var s := " " + rest;
    SplitFromSpace(s, 0);
    assert s[1..] == rest[0..];
    SplitFromShift(s, 1, rest, 0);
  }

  /** A word standing before whitespace or the end is the first token. */
  lemma SplitWord(w: string, rest: string)
    requires IsToken(w) && (rest == "" || IsSpace(rest[0]))
    ensures Split(w + rest) == [w] + Split(rest)
  {
    var s := w + rest;
    assert forall k :: 0 <= k < |w| ==> s[k] == w[k];
    SplitFromWord(s, 0, |w|);
    assert s[0..|w|] == w;
    assert s[|w|..] == rest[0..];
    SplitFromShift(s, |w|, rest, 0);
  }

  predicate IsDigit(c: char)
  {
    '0' <= c <= '9'
  }

  predicate AllDigits(s: string)
  {
    forall i :: 0 <= i < |s| ==> IsDigit(s[i])
  }

  function DigitOf(c: char): nat
    requires IsDigit(c)
  {
    (c as int) - ('0' as int)
  }

  function DigitChar(d: nat): (c: char)
    requires d < 10
    ensures IsDigit(c) && DigitOf(c) == d
  {
    (('0' as int) + d) as char
  }

  /** The value of a string of decimal digits, most significant first. */
  function DigitsValue(s: string): nat
    requires AllDigits(s)
  {
    if s == [] then 0 else DigitsValue(s[..|s| - 1]) * 10 + DigitOf(s[|s| - 1])
  }

  /** `str(n)` for a non-negative integer: the decimal digits of `n`. */
  function Dec(n: nat): (s: string)
    ensures |s| > 0 && AllDigits(s)
    ensures n > 0 ==> s[0] != '0'
  {
    if n < 10 then [DigitChar(n)]
    else Dec(n / 10) + [DigitChar(n % 10)]
  }

  /** Reading back the digits of `str(n)` gives `n`. */
  lemma {:induction false} DecValue(n: nat)
    ensures DigitsValue(Dec(n)) == n
  {
    if n >= 10 {
      var s := Dec(n);
      assert s[..|s| - 1] == Dec(n / 10);
      DecValue(n / 10);
    }
  }

  /** The digits of `s` with the `_` separators Python allows between them removed. */
  function NoUnderscores(s: string): string
  {
    if s == [] then [] else (if s[0] == '_' then [] else [s[0]]) + NoUnderscores(s[1..])
  }

  /** Python's digit-part syntax: digits, each `_` standing between two digits. */
  predicate DigitPart(s: string)
  {
    |s| > 0 && IsDigit(s[0]) && IsDigit(s[|s| - 1]) &&
    (forall i :: 0 <= i < |s| ==> IsDigit(s[i]) || s[i] == '_') &&
    (forall i :: 0 <= i < |s| - 1 && s[i] == '_' ==> s[i + 1] != '_')
  }

  lemma {:induction false} NoUnderscoresDigits(s: string)
    requires forall i :: 0 <= i < |s| ==> IsDigit(s[i]) || s[i] == '_'
    ensures AllDigits(NoUnderscores(s))
  {
    if s != [] { NoUnderscoresDigits(s[1..]); }
  }

  lemma {:induction false} NoUnderscoresOfDigits(s: string)
    requires AllDigits(s)
    ensures NoUnderscores(s) == s
  {
    if s != [] { NoUnderscoresOfDigits(s[1..]); }
  }

  function DigitPartValue(s: string): nat
    requires DigitPart(s)
  {
    NoUnderscoresDigits(s);
    DigitsValue(NoUnderscores(s))
  }

  /**
   * `int(s)` for a string `s` in base 10: surrounding whitespace is ignored,
   * an optional sign is followed by a digit part; anything else is a
   * `ValueError`, here `None`. Only ASCII digits are modelled.
   */
  function PyInt(s: string): Option<int>
  {
    SignedDigits(Strip(s))
  }

  /** The sign and digit part of `int()`, read from already stripped text. */
  function SignedDigits(t: string): Option<int>
  {
    if |t| > 0 && (t[0] == '+' || t[0] == '-') then
      if DigitPart(t[1..]) then
        var v: int := DigitPartValue(t[1..]);
        Some(if t[0] == '-' then -v else v)
      else None
    else if DigitPart(t) then Some(DigitPartValue(t))
    else None
  }

  lemma DigitsArePart(d: string)
    requires |d| > 0 && AllDigits(d)
    ensures DigitPart(d) && DigitPartValue(d) == DigitsValue(d)
  {
    NoUnderscoresOfDigits(d);
  }

  /** `int(d)` for a non-empty run of ASCII digits is the value of those digits. */
  lemma PyIntDigits(d: string)
    requires |d| > 0 && AllDigits(d)
    ensures PyInt(d) == Some(DigitsValue(d) as int)
  {
    assert IsDigit(d[0]) && IsDigit(d[|d| - 1]);
    StripStripped(d);
    DigitsArePart(d);
    assert d[0] != '+' && d[0] != '-';
  }

  /** `int(str(n)) == n`, also behind a sign. */
  lemma PyIntDec(n: nat, sign: string)
    requires sign in ["", "+", "-"]
    ensures PyInt(sign + Dec(n)) == Some(if sign == "-" then 0 - n else n)
  {
    var d := Dec(n);
    if sign == "" {
      assert sign + d == d;
      assert PyInt(d) == Some(n) by {
        DecValue(n);
        PyIntDigits(d);
      }
    } else {
      assert sign == [sign[0]];
      PyIntSigned(n, sign[0]);
    }
  }

  /** A sign in front of `str(n)` is read as the sign of `n`. */
  lemma PyIntSigned(n: nat, sign: char)
    requires sign == '+' || sign == '-'
    ensures PyInt([sign] + Dec(n)) == Some(if sign == '-' then 0 - n else n)
  {
    var d := Dec(n);
    var t := [sign] + d;
    assert t[0] == sign && t[|t| - 1] == d[|d| - 1];
    assert IsDigit(d[|d| - 1]);
    StripStripped(t);
    assert DigitPart(d) && DigitPartValue(d) == n by {
      DigitsArePart(d);
      DecValue(n);
    }
    SignedPart(d, sign, n);
  }

  lemma SignedPart(d: string, sign: char, v: int)
    requires DigitPart(d) && (sign == '+' || sign == '-') && v == DigitPartValue(d)
    ensures SignedDigits([sign] + d) == Some(if sign == '-' then 0 - v else v)
  {
    var t := [sign] + d;
    assert t[0] == sign && t[1..] == d;
  }

  /** A character that is neither a digit, a sign, `_` nor whitespace makes `int()` fail. */
  lemma PyIntRejects(s: string, i: nat)
    requires i < |s| && !IsDigit(s[i]) && !IsSpace(s[i]) && s[i] !in "+-_"
    ensures PyInt(s) == None
  {
    var a, t := Lead(s), Strip(s);
    assert i >= a;
    if i < a + |t| {
      assert t[i - a] == s[i];
      if |t| > 0 && (t[0] == '+' || t[0] == '-') {
        assert i - a != 0;
        assert t[1..][i - a - 1] == s[i];
      }
    }
  }

  /** `int()` of a string without a minus sign is never negative. */
  lemma PyIntUnsigned(s: string)
    requires '-' !in s && PyInt(s).Some?
    ensures PyInt(s).value >= 0
  {
    var t := Strip(s);
    if |t| > 0 {
      assert t[0] == s[Lead(s)];
    }
  }
}
