/**
 * `video_info_scraper.py`: likes and comment counts read from each video's
 * own page, added to the records loaded from a saved JSON file; each record
 * must carry the page address under `urls` and the video kind under `type`.
 */
module VideoInfoScraper {

  import opened Wrappers
  import opened Dom
  import opened PyText
  import opened Records
  import SearchInfoScraper

  /** The text in front of the count in the like button's `aria-label`. */
  const LikesMarker := "и ещё "

  /** The character class `[\d\s\xa0]` (ASCII digits only). */
  predicate InLikesClass(c: char)
  {
    IsDigit(c) || IsSpace(c) || c == '\U{A0}'
  }

  /** `re.search` finds a match of `и ещё ([\d\s\xa0]+)` starting at `q`. */
  predicate MatchAt(s: string, q: int)
  {
    Occurs(s, LikesMarker, q) && q + |LikesMarker| < |s| && InLikesClass(s[q + |LikesMarker|])
  }

  /** The leftmost match at or after `p`. */
  function FirstMatch(s: string, p: nat): (r: Option<nat>)
    ensures r.Some? ==> p <= r.value && MatchAt(s, r.value) && forall j :: p <= j < r.value ==> !MatchAt(s, j)
    ensures r.None? ==> forall j :: p <= j ==> !MatchAt(s, j)
    decreases |s| - p
  {
    if p + |LikesMarker| >= |s| then None
    else if MatchAt(s, p) then Some(p)
    else FirstMatch(s, p + 1)
  }

  /** How many characters of the class stand from `i` on: the greedy `+`. */
  function RunLen(s: string, i: nat): (n: nat)
    requires i <= |s|
    ensures i + n <= |s| && (forall j :: i <= j < i + n ==> InLikesClass(s[j]))
    ensures i + n < |s| ==> !InLikesClass(s[i + n])
    decreases |s| - i
  {
    if i < |s| && InLikesClass(s[i]) then 1 + RunLen(s, i + 1) else 0
  }

  /** `match.group(1)`, or `None` when nothing matches. */
  function LikesGroup(s: string): (g: Option<string>)
    ensures g.Some? ==> |g.value| > 0 && forall i :: 0 <= i < |g.value| ==> InLikesClass(g.value[i])
  {
    match FirstMatch(s, 0)
    case None => None
    case Some(q) =>
      var i := q + |LikesMarker|;
      Some(s[i..i + RunLen(s, i)])
  }

  /** `s.replace(c, "")`. */
  function Remove(s: string, c: char): (r: string)
    ensures c !in r
  {
    if s == [] then [] else (if s[0] == c then [] else [s[0]]) + Remove(s[1..], c)
  }

  /** Removing a character keeps only characters that were there. */
  lemma {:induction false} RemoveKeeps(s: string, c: char)
    ensures forall x :: x in Remove(s, c) ==> x in s
  {
    if s != [] {
      RemoveKeeps(s[1..], c);
    }
  }

  lemma {:induction false} RemoveAppend(a: string, b: string, c: char)
    ensures Remove(a + b, c) == Remove(a, c) + Remove(b, c)
  {
    if a == [] {
      assert a + b == b;
    } else {
      var x := if a[0] == c then [] else [a[0]];
      var ra, rb := Remove(a[1..], c), Remove(b, c);
      assert Remove(a + b, c) == x + Remove(a[1..] + b, c) by {
        assert (a + b)[0] == a[0] && (a + b)[1..] == a[1..] + b;
      }
      assert Remove(a[1..] + b, c) == ra + rb by { RemoveAppend(a[1..], b, c); }
      assert x + (ra + rb) == (x + ra) + rb;
    }
  }

  lemma {:induction false} RemoveAbsent(s: string, c: char)
    requires c !in s
    ensures Remove(s, c) == s
  {
    if s != [] {
      assert s == [s[0]] + s[1..];
      RemoveAbsent(s[1..], c);
    }
  }

  /** `"тыс"` (thousands) is looked for first, then `"млн"` (millions), anywhere in the label. */
  function Scale(ariaLabel: string, n: int): int
  {
    if Contains(ariaLabel, "тыс") then n * 1000
    else if Contains(ariaLabel, "млн") then n * 1000000
    else n
  }

  /** Three digits, with leading zeros. */
  function Pad3(d: nat): (s: string)
    requires d < 1000
    ensures |s| == 3 && AllDigits(s) && DigitsValue(s) == d
  {
    var s := [DigitChar(d / 100), DigitChar(d / 10 % 10), DigitChar(d % 10)];
    assert s[..2][..1] == s[..1] == [DigitChar(d / 100)];
    assert DigitsValue(s[..1]) == d / 100;
    assert DigitsValue(s[..2]) == d / 100 * 10 + d / 10 % 10;
    s
  }

  /** The decimal digits of `n` with `.` between groups of three, counted from the right. */
  function Grouped(n: nat): string
  {
    if n < 1000 then Dec(n) else Grouped(n / 1000) + "." + Pad3(n % 1000)
  }

  /** `"{:,}".format(n).replace(",", ".")`. */
  function FormatThousands(n: int): string
  {
    if n < 0 then "-" + Grouped(0 - n) else Grouped(n)
  }

  /**
   * The label's count: the matched run with no-break spaces and spaces
   * removed, through `int()`, scaled, and formatted. `None` when nothing
   * matches, and when `int()` raises, which the handler turns into `None`.
   */
  function ParseLikes(ariaLabel: string): Option<string>
  {
    match LikesGroup(ariaLabel)
    case None => None
    case Some(g) =>
      match PyInt(Remove(Remove(g, '\U{A0}'), ' '))
      case None => None
      case Some(n) => Some(FormatThousands(Scale(ariaLabel, n)))
  }

  function Pow10(k: nat): nat
  {
    if k == 0 then 1 else 10 * Pow10(k - 1)
  }

  /** Appending digits shifts the value of the digits in front. */
  lemma {:induction false} DigitsValueAppend(a: string, b: string)
    requires AllDigits(a) && AllDigits(b)
    ensures AllDigits(a + b) && DigitsValue(a + b) == DigitsValue(a) * Pow10(|b|) + DigitsValue(b)
    decreases |b|
  {
    if b == [] {
      assert a + b == a;
    } else {
      var b' := b[..|b| - 1];
      var d := DigitOf(b[|b| - 1]);
      var x, y, p := DigitsValue(a), DigitsValue(b'), Pow10(|b'|);
      assert DigitsValue(a + b) == DigitsValue(a + b') * 10 + d by {
        assert (a + b)[..|a + b| - 1] == a + b' && (a + b)[|a + b| - 1] == b[|b| - 1];
      }
      assert DigitsValue(a + b') == x * p + y by { DigitsValueAppend(a, b'); }
      assert DigitsValue(b) == y * 10 + d && Pow10(|b|) == 10 * p;
      ShiftDigit(x, p, y, d);
    }
  }

  lemma ShiftDigit(x: int, p: int, y: int, d: int)
    ensures (x * p + y) * 10 + d == x * (10 * p) + (y * 10 + d)
  {
  }

  /** Removing the dots of a grouped number leaves its digits. */
  lemma {:induction false} GroupedDigits(n: nat)
    ensures var u := Remove(Grouped(n), '.'); |u| > 0 && AllDigits(u) && DigitsValue(u) == n
  {
    if n < 1000 {
      RemoveAbsent(Dec(n), '.');
      DecValue(n);
    } else {
      var g, p := Grouped(n / 1000), Pad3(n % 1000);
      var u := Remove(g, '.');
      assert |u| > 0 && AllDigits(u) && DigitsValue(u) == n / 1000 by { GroupedDigits(n / 1000); }
      assert Remove(Grouped(n), '.') == u + p by {
        RemoveAppend(g + ".", p, '.');
        RemoveAppend(g, ".", '.');
        RemoveAbsent(p, '.');
        assert Remove(".", '.') == [];
        assert u + [] == u;
      }
      assert DigitsValue(u + p) == n / 1000 * 1000 + n % 1000 by {
        DigitsValueAppend(u, p);
        assert Pow10(3) == 1000;
      }
    }
  }

  /** Round trip: the formatted count with its dots removed reads back, through `int()`, as the count. */
  lemma LikesRoundTrip(n: nat)
    ensures PyInt(Remove(FormatThousands(n), '.')) == Some(n)
  {
    GroupedDigits(n);
    PyIntDigits(Remove(Grouped(n), '.'));
  }

  /** A dot stands exactly at every fourth position from the right, digits everywhere else. */
  predicate DotsEveryFourth(g: string)
  {
    (forall i :: 0 <= i < |g| ==> (g[i] == '.' <==> (|g| - i) % 4 == 0)) &&
    (forall i :: 0 <= i < |g| && g[i] != '.' ==> IsDigit(g[i]))
  }

  lemma DotsStep(h: string, p: string)
    requires DotsEveryFourth(h) && |p| == 3 && AllDigits(p)
    ensures DotsEveryFourth(h + "." + p)
  {
    var g := h + "." + p;
    forall i | 0 <= i < |g|
      ensures (g[i] == '.' <==> (|g| - i) % 4 == 0) && (g[i] != '.' ==> IsDigit(g[i]))
    {
      if i < |h| {
        assert g[i] == h[i];
      } else if i > |h| {
        assert g[i] == p[i - |h| - 1];
      }
    }
  }

  /**
   * The shape of a grouped number: dots at every fourth position from the
   * right and digits elsewhere, a digit in front, and no leading zero in a
   * non-zero count.
   */
  lemma {:induction false} GroupedShape(n: nat)
    ensures var g := Grouped(n); |g| > 0 && DotsEveryFourth(g) && IsDigit(g[0]) && (n > 0 ==> g[0] != '0')
  {
    if n < 1000 {
      DecShort(n);
    } else {
      GroupedShape(n / 1000);
      var h := Grouped(n / 1000);
      DotsStep(h, Pad3(n % 1000));
      assert Grouped(n)[0] == h[0];
    }
  }

  lemma DecShort(n: nat)
    requires n < 1000
    ensures |Dec(n)| <= 3
  {
    if n >= 10 {
      assert |Dec(n)| == |Dec(n / 10)| + 1;
      if n >= 100 {
        assert |Dec(n / 10)| == |Dec(n / 100)| + 1;
      }
    }
  }

  /** Thousands are looked for before millions: a label naming both counts thousands. */
  lemma ThousandsBeforeMillions(ariaLabel: string, n: int)
    requires Contains(ariaLabel, "тыс") && Contains(ariaLabel, "млн")
    ensures Scale(ariaLabel, n) == n * 1000
  {
  }

  /** A label without the marker yields no count. */
  lemma {:induction false} NoMarkerNoLikes(ariaLabel: string)
    requires !Contains(ariaLabel, LikesMarker)
    ensures ParseLikes(ariaLabel) == None
  {
    assert forall j :: !MatchAt(ariaLabel, j);
  }

  /** A run of class characters reaching the end of the label is taken whole. */
  lemma RunToEnd(s: string, i: nat)
    requires i <= |s| && forall j :: i <= j < |s| ==> InLikesClass(s[j])
    ensures RunLen(s, i) == |s| - i
  {
  }

  /** The marker at the very start, followed by a digit, is the leftmost match. */
  lemma MatchAtStart(s: string)
    requires |s| > |LikesMarker| && s[..|LikesMarker|] == LikesMarker && IsDigit(s[|LikesMarker|])
    ensures FirstMatch(s, 0) == Some(0)
  {
    assert Occurs(s, LikesMarker, 0);
  }

  /** A label whose group reads as `n` through `int()` gives `n`, scaled and formatted. */
  lemma ParseLikesOf(ariaLabel: string, g: string, n: int)
    requires LikesGroup(ariaLabel) == Some(g) && PyInt(Remove(Remove(g, '\U{A0}'), ' ')) == Some(n)
    ensures ParseLikes(ariaLabel) == Some(FormatThousands(Scale(ariaLabel, n)))
  {
  }

  /**
   * The marker at the start, then a run of the class that begins with a
   * digit, then anything outside the class: the group is exactly that run.
   */
  lemma GroupAtStart(d: string, t: string)
    requires |d| > 0 && IsDigit(d[0]) && forall j :: 0 <= j < |d| ==> InLikesClass(d[j])
    requires t == [] || !InLikesClass(t[0])
    ensures LikesGroup(LikesMarker + d + t) == Some(d)
  {
    var s := LikesMarker + d + t;
    var i := |LikesMarker|;
    assert FirstMatch(s, 0) == Some(0) by {
      assert s[..i] == LikesMarker && s[i] == d[0];
      MatchAtStart(s);
    }
    assert RunLen(s, i) == |d| by {
      forall j | i <= j < i + |d| ensures InLikesClass(s[j]) {
        assert s[j] == d[j - i];
      }
      if t == [] {
        RunToEnd(s, i);
      } else {
        assert s[i + |d|] == t[0];
        RunPrefix(s, i, |d|);
      }
    }
    assert s[i..i + |d|] == d;
  }

  lemma PlainGroup(n: nat)
    ensures LikesGroup(LikesMarker + Dec(n)) == Some(Dec(n))
  {
    GroupAtStart(Dec(n), []);
    assert LikesMarker + Dec(n) + [] == LikesMarker + Dec(n);
  }

  /**
   * The marker, a run of the class and a tail contain no word whose first
   * character is outside the class and absent from the marker and the tail.
   */
  lemma MarkerRunLacks(d: string, t: string, sub: string)
    requires forall i :: 0 <= i < |d| ==> InLikesClass(d[i])
    requires |sub| > 0 && !InLikesClass(sub[0]) && sub[0] !in LikesMarker && sub[0] !in t
    ensures !Contains(LikesMarker + d + t, sub)
  {
    var s := LikesMarker + d + t;
    forall i | 0 <= i < |s| ensures s[i] != sub[0] {
      if i < |LikesMarker| {
        assert s[i] == LikesMarker[i];
      } else if i < |LikesMarker| + |d| {
        assert s[i] == d[i - |LikesMarker|];
      } else {
        assert s[i] == t[i - |LikesMarker| - |d|];
      }
    }
    NotContainsChar(s, sub);
  }

  /** Digits with a trailing space read, once spaces are removed, as their value. */
  lemma DigitsRead(d: string, t: string)
    requires |d| > 0 && AllDigits(d) && (t == [] || t == " ")
    ensures PyInt(Remove(Remove(d + t, '\U{A0}'), ' ')) == Some(DigitsValue(d) as int)
  {
    assert Remove(Remove(d + t, '\U{A0}'), ' ') == d by {
      RemoveAbsent(d + t, '\U{A0}');
      RemoveAppend(d, t, ' ');
      RemoveAbsent(d, ' ');
      assert Remove(t, ' ') == [];
      assert d + [] == d;
    }
    PyIntDigits(d);
  }

  /** A count with no unit after it is not scaled. */
  lemma PlainScale(d: string, n: int)
    requires forall i :: 0 <= i < |d| ==> InLikesClass(d[i])
    ensures Scale(LikesMarker + d, n) == n
  {
    assert LikesMarker + d + [] == LikesMarker + d;
    MarkerRunLacks(d, [], "тыс");
    MarkerRunLacks(d, [], "млн");
  }

  /** `"и ещё 1234"` gives `"1.234"`: the plain count, formatted. */
  lemma PlainCount(n: nat)
    ensures ParseLikes(LikesMarker + Dec(n)) == Some(FormatThousands(n))
  {
    var d := Dec(n);
    PlainGroup(n);
    assert PyInt(Remove(Remove(d, '\U{A0}'), ' ')) == Some(n) by {
      DigitsRead(d, []);
      DecValue(n);
      assert d + [] == d;
    }
    ParseLikesOf(LikesMarker + d, d, n);
    PlainScale(d, n);
  }

  /** A count, a space and a unit word: the group is the count with its space. */
  lemma UnitGroup(n: nat, unit: string)
    requires |unit| > 0 && !InLikesClass(unit[0])
    ensures LikesGroup(LikesMarker + Dec(n) + " " + unit) == Some(Dec(n) + " ")
  {
    var d := Dec(n) + " ";
    assert forall j :: 0 <= j < |d| ==> InLikesClass(d[j]) by {
      forall j | 0 <= j < |d| ensures InLikesClass(d[j]) {
        if j < |d| - 1 {
          assert d[j] == Dec(n)[j];
        }
      }
    }
    GroupAtStart(d, unit);
    assert LikesMarker + d + unit == LikesMarker + Dec(n) + " " + unit;
  }

  lemma Regroup<T>(a: seq<T>, b: seq<T>, c: seq<T>, e: seq<T>)
    ensures a + (b + c) + e == a + b + (c + e)
  {
  }
  /** A string contains what stands in its middle. */
  lemma ContainsMiddle(a: string, b: string, c: string)
    ensures Contains(a + b + c, b)
  {
    assert (a + b + c)[|a|..|a| + |b|] == b;
    assert Occurs(a + b + c, b, |a|);
  }

  /** A label naming thousands is scaled by a thousand. */
  lemma ThousandsScale(d: string, n: int)
    ensures Scale(LikesMarker + d + " тыс.", n) == n * 1000
  {
    ContainsMiddle(LikesMarker + d + " ", "тыс", ".");
    assert LikesMarker + d + " " + "тыс" + "." == LikesMarker + d + " тыс.";
  }

  /** `"и ещё 12 тыс."` gives `"12.000"`: the space before the unit is dropped and the count scaled. */
  lemma ThousandsCount(n: nat)
    ensures ParseLikes(LikesMarker + Dec(n) + " тыс.") == Some(FormatThousands(n * 1000))
  {
    var d := Dec(n);
    assert LikesMarker + d + " тыс." == LikesMarker + d + " " + "тыс." by {
      Regroup(LikesMarker, d, " ", "тыс.");
    }
    UnitGroup(n, "тыс.");
    assert PyInt(Remove(Remove(d + " ", '\U{A0}'), ' ')) == Some(n) by {
      DigitsRead(d, " ");
      DecValue(n);
    }
    ParseLikesOf(LikesMarker + d + " тыс.", d + " ", n);
    ThousandsScale(d, n);
  }

  /** A label naming millions, and not thousands, is scaled by a million. */
  lemma MillionsScale(d: string, n: int)
    requires forall i :: 0 <= i < |d| ==> InLikesClass(d[i])
    ensures Scale(LikesMarker + d + " млн", n) == n * 1000000
  {
    MarkerRunLacks(d, " млн", "тыс");
    ContainsMiddle(LikesMarker + d + " ", "млн", "");
    assert LikesMarker + d + " " + "млн" + "" == LikesMarker + d + " млн";
  }

  /** `"и ещё 3 млн"` gives `"3.000.000"`: the count scaled by a million. */
  lemma MillionsCount(n: nat)
    ensures ParseLikes(LikesMarker + Dec(n) + " млн") == Some(FormatThousands(n * 1000000))
  {
    var d := Dec(n);
    assert LikesMarker + d + " млн" == LikesMarker + d + " " + "млн" by {
      Regroup(LikesMarker, d, " ", "млн");
    }
    UnitGroup(n, "млн");
    assert PyInt(Remove(Remove(d + " ", '\U{A0}'), ' ')) == Some(n) by {
      DigitsRead(d, " ");
      DecValue(n);
    }
    ParseLikesOf(LikesMarker + d + " млн", d + " ", n);
    assert forall i :: 0 <= i < |d| ==> InLikesClass(d[i]);
    MillionsScale(d, n);
  }

  /** Removing a character from around a separator that is that character. */
  lemma RemoveSeparator(x: string, c: char, y: string)
    requires c !in x && c !in y
    ensures Remove(x + [c] + y, c) == x + y
  {
    assert Remove([c], c) == [] by {
      assert [c][1..] == [];
    }
    assert Remove(x + [c], c) == x by {
      RemoveAppend(x, [c], c);
      RemoveAbsent(x, c);
    }
    assert Remove(y, c) == y by {
      RemoveAbsent(y, c);
    }
    RemoveAppend(x + [c], y, c);
  }

  /** Removing a separating space or no-break space between two digit strings joins them. */
  lemma DropSeparator(x: string, sep: char, y: string)
    requires AllDigits(x) && AllDigits(y) && (sep == ' ' || sep == '\U{A0}')
    ensures Remove(Remove(x + [sep] + y, '\U{A0}'), ' ') == x + y
  {
    assert ' ' !in x && '\U{A0}' !in x && ' ' !in y && '\U{A0}' !in y;
    if sep == ' ' {
      assert '\U{A0}' !in x + [sep] + y;
      RemoveAbsent(x + [sep] + y, '\U{A0}');
      RemoveSeparator(x, ' ', y);
    } else {
      RemoveSeparator(x, '\U{A0}', y);
      assert ' ' !in x + y;
      RemoveAbsent(x + y, ' ');
    }
  }

  /** Two digit strings around a space or no-break space read, through `int()`, as their concatenation. */
  lemma SeparatedRead(x: string, sep: char, y: string)
    requires |x| > 0 && AllDigits(x) && AllDigits(y) && (sep == ' ' || sep == '\U{A0}')
    ensures AllDigits(x + y)
    ensures PyInt(Remove(Remove(x + [sep] + y, '\U{A0}'), ' ')) == Some(DigitsValue(x + y) as int)
  {
    DropSeparator(x, sep, y);
    PyIntDigits(x + y);
  }

  /** Digits, a space or no-break space, and digits after the marker are matched as one group. */
  lemma SeparatedGroup(x: string, sep: char, y: string)
    requires |x| > 0 && AllDigits(x) && AllDigits(y) && (sep == ' ' || sep == '\U{A0}')
    ensures forall j :: 0 <= j < |x + [sep] + y| ==> InLikesClass((x + [sep] + y)[j])
    ensures LikesGroup(LikesMarker + (x + [sep] + y)) == Some(x + [sep] + y)
  {
    var g := x + [sep] + y;
    forall j | 0 <= j < |g| ensures InLikesClass(g[j]) {
      if j < |x| {
        assert g[j] == x[j];
      } else if j > |x| {
        assert g[j] == y[j - |x| - 1];
      }
    }
    assert g[0] == x[0];
    GroupAtStart(g, []);
    assert LikesMarker + g + [] == LikesMarker + g;
  }

  /** Two digit strings around a space or no-break space after the marker give one unscaled count. */
  lemma SeparatedDigits(x: string, sep: char, y: string)
    requires |x| > 0 && AllDigits(x) && AllDigits(y) && (sep == ' ' || sep == '\U{A0}')
    ensures AllDigits(x + y)
    ensures ParseLikes(LikesMarker + x + [sep] + y) == Some(FormatThousands(DigitsValue(x + y)))
  {
    var g := x + [sep] + y;
    assert LikesMarker + x + [sep] + y == LikesMarker + g;
    SeparatedRead(x, sep, y);
    SeparatedGroup(x, sep, y);
    ParseLikesOf(LikesMarker + g, g, DigitsValue(x + y));
    PlainScale(g, DigitsValue(x + y));
  }

  /**
   * `"и ещё 1 234"` and `"и ещё 1\u00a0234"` give `"1.234"`: a space or
   * no-break space inside the count is removed before `int()`.
   */
  lemma SeparatedCount(a: nat, sep: char, b: nat)
    requires b < 1000 && (sep == ' ' || sep == '\U{A0}')
    ensures ParseLikes(LikesMarker + Dec(a) + [sep] + Pad3(b)) == Some(FormatThousands(a * 1000 + b))
  {
    var x, y := Dec(a), Pad3(b);
    SeparatedDigits(x, sep, y);
    assert DigitsValue(x + y) == a * 1000 + b by {
      DigitsValueAppend(x, y);
      DecValue(a);
      assert Pow10(|y|) == 1000;
    }
  }

  /** A run of `k` class characters followed by one outside the class has length `k`. */
  lemma {:induction false} RunPrefix(s: string, i: nat, k: nat)
    requires i + k < |s| && (forall j :: i <= j < i + k ==> InLikesClass(s[j])) && !InLikesClass(s[i + k])
    ensures RunLen(s, i) == k
    decreases k
  {
    if k > 0 {
      RunPrefix(s, i + 1, k - 1);
    }
  }

  /** The digits `int()` reads out of a matched group carry no sign. */
  lemma GroupUnsigned(g: string)
    requires forall i :: 0 <= i < |g| ==> InLikesClass(g[i])
    ensures '-' !in Remove(Remove(g, '\U{A0}'), ' ')
  {
    var g' := Remove(g, '\U{A0}');
    RemoveKeeps(g, '\U{A0}');
    RemoveKeeps(g', ' ');
    assert '-' !in g;
  }

  /**
   * Whatever the label says, a count it yields is a grouped non-negative
   * number that reads back, with its dots removed, as that number.
   */
  lemma ParseLikesShape(ariaLabel: string)
    ensures ParseLikes(ariaLabel).Some? ==>
      exists n: nat :: ParseLikes(ariaLabel).value == Grouped(n) && PyInt(Remove(Grouped(n), '.')) == Some(n as int)
    ensures ParseLikes(ariaLabel).Some? ==> |ParseLikes(ariaLabel).value| > 0 && IsDigit(ParseLikes(ariaLabel).value[0])
  {
    var o := LikesGroup(ariaLabel);
    if o.Some? {
      var u := Remove(Remove(o.value, '\U{A0}'), ' ');
      var v := PyInt(u);
      if v.Some? {
        GroupUnsigned(o.value);
        PyIntUnsigned(u);
        var n: nat := Scale(ariaLabel, v.value);
        assert ParseLikes(ariaLabel) == Some(FormatThousands(n));
        LikesRoundTrip(n);
        GroupedShape(n);
      }
    }
  }

  const LikesTimeoutMessage := "Количество лайков в видео не найдено!"
  const ShortsLikesTimeoutMessage := "Количество лайков Shorts не найдено!"
  const CommentsTimeoutMessage := "Количество комментариев к видео не найдено!"
  const ShortsCommentsTimeoutMessage := "Количество комментариев к Shorts не найдено!"

  /** The count the like button's `aria-label` shows; `None` when it has no label or no count. */
  function LabelLikes(e: Element): Option<string>
  {
    match GetAttribute(e, "aria-label")
    case Null => None
    case Str(l) => ParseLikes(l)
  }

  /** `get_video_likes`. */
  function GetVideoLikes(page: Page, catalog: Catalog): Value
  {
    match Wait(Locate(page.find, catalog, "likes"))
    case Timeout => Str(LikesTimeoutMessage)
    case Found(e) =>
      (match GetAttribute(e, "aria-label")
       case Null => Null
       case Str(l) =>
         match ParseLikes(l)
         case None => Null
         case Some(t) => Str(t))
    case _ => Null
  }

  /**
   * The likes getter gives the not-found message exactly when the wait times
   * out; the label's count when the button is there and its label shows one;
   * `None` in every other case (a missing selector key, a driver error, no
   * label, no count in it, a count `int()` rejects).
   */
  lemma GetVideoLikesOutcomes(page: Page, catalog: Catalog)
    ensures var r, o := GetVideoLikes(page, catalog), Wait(Locate(page.find, catalog, "likes"));
      && (r == Str(LikesTimeoutMessage) <==> o.Timeout?)
      && (o.Found? && LabelLikes(o.value).Some? ==> r == Str(LabelLikes(o.value).value))
      && (r == Null <==> !o.Timeout? && !(o.Found? && LabelLikes(o.value).Some?))
  {
    var o := Wait(Locate(page.find, catalog, "likes"));
    if o.Found? && GetAttribute(o.value, "aria-label").Str? {
      ParseLikesShape(GetAttribute(o.value, "aria-label").s);
      assert !IsDigit(LikesTimeoutMessage[0]);
    }
  }

  /**
   * `get_shorts_likes`, `get_video_comments` and `get_shorts_comments`, the
   * same `try` with their own selector key and message.
   */
  function WaitedText(page: Page, catalog: Catalog, key: string, message: string): Value
  {
    match Wait(Locate(page.find, catalog, key))
    case Found(e) => Str(Strip(e.text))
    case Timeout => Str(message)
    case _ => Null
  }

  /**
   * A waited text is the node's stripped text once it is present, the
   * getter's message when the wait times out, and `None` on any other error,
   * a missing selector key included.
   */
  lemma WaitedTextOutcomes(page: Page, catalog: Catalog, key: string, message: string)
    ensures var r, o := WaitedText(page, catalog, key, message), Wait(Locate(page.find, catalog, key));
      && (o.Found? ==> r == Str(Strip(o.value.text)))
      && (o.Timeout? ==> r == Str(message))
      && (r == Null <==> o.OtherError?)
      && (key !in catalog ==> r == Null)
      && (r.Str? ==> IsStripped(r.s) || r.s == message)
  {
  }

  /** The four per-page getters. */
  datatype VideoGetter = VideoLikes | ShortsLikes | VideoComments | ShortsComments

  function RunGetter(g: VideoGetter, page: Page, catalog: Catalog): Value
  {
    match g
    case VideoLikes => GetVideoLikes(page, catalog)
    case ShortsLikes => WaitedText(page, catalog, "shorts_likes", ShortsLikesTimeoutMessage)
    case VideoComments => WaitedText(page, catalog, "comments", CommentsTimeoutMessage)
    case ShortsComments => WaitedText(page, catalog, "shorts_comments", ShortsCommentsTimeoutMessage)
  }

  /** The names offered to the user, `all_scraper_functions`. */
  const InfoNames := ["likes", "comments"]

  /** `video_scraper_functions` when `isVideo`, `shorts_scraper_functions` otherwise. */
  function FunctionsFor(isVideo: bool, name: string): (g: Option<VideoGetter>)
    ensures g.Some? <==> name in InfoNames
    ensures g.Some? ==> (g.value.VideoLikes? || g.value.VideoComments? <==> isVideo)
    ensures g.Some? ==> (g.value.VideoLikes? || g.value.ShortsLikes? <==> name == "likes")
  {
    if name == "likes" then Some(if isVideo then VideoLikes else ShortsLikes)
    else if name == "comments" then Some(if isVideo then VideoComments else ShortsComments)
    else None
  }

  /**
   * One selected name on one page: the table's getter sets it; a name the
   * table lacks raises `KeyError`.
   */
  function VideoInfoStep(page: Page, catalog: Catalog, isVideo: bool): string -> Step
  {
    name =>
      match FunctionsFor(isVideo, name)
      case None => Fail(KeyError(name))
      case Some(g) => Set(RunGetter(g, page, catalog))
  }

  lemma VideoInfoStepCases(page: Page, catalog: Catalog, isVideo: bool, name: string)
    ensures name in InfoNames ==> VideoInfoStep(page, catalog, isVideo)(name) == Set(RunGetter(FunctionsFor(isVideo, name).value, page, catalog))
    ensures name !in InfoNames ==> VideoInfoStep(page, catalog, isVideo)(name) == Fail(KeyError(name))
  {
  }

  /**
   * One pass of the loop of `scraping_info_from_videos` over one saved
   * record: `video['urls']` (a `KeyError` when missing), `driver.get` on it
   * (`open` gives the loaded page, or `None` when navigation raises; `None`
   * is not a URL), `video['type']`, then a copy of the record with every
   * selected name set by the table the type picks.
   */
  function VideoInfo(video: Record, sel: seq<string>, open: string -> Option<Page>, catalog: Catalog): Attempt<Record>
    requires Valid(video)
  {
    if "urls" !in video.values then Raised(KeyError("urls"))
    else if video.values["urls"].Null? then Raised(DriverError)
    else if open(video.values["urls"].s).None? then Raised(DriverError)
    else if "type" !in video.values then Raised(KeyError("type"))
    else
      var page := open(video.values["urls"].s).value;
      Assemble(video, sel, VideoInfoStep(page, catalog, video.values["type"] == Str("Video")))
  }

  /**
   * `scraping_info_from_videos`: the first record whose pass raises ends the
   * run with that exception; otherwise one updated record per saved record,
   * in order.
   */
  method ScrapingInfoFromVideos(input: seq<Record>, sel: seq<string>, open: string -> Option<Page>, catalog: Catalog)
    returns (r: Attempt<seq<Record>>)
    requires forall k :: 0 <= k < |input| ==> Valid(input[k])
    ensures r.Returned? ==>
      && |r.value| == |input|
      && forall k :: 0 <= k < |input| ==> Returned(r.value[k]) == VideoInfo(input[k], sel, open, catalog)
    ensures r.Raised? ==>
      exists k :: && 0 <= k < |input|
                  && VideoInfo(input[k], sel, open, catalog) == Raised(r.fault)
                  && forall j :: 0 <= j < k ==> VideoInfo(input[j], sel, open, catalog).Returned?
    ensures r.Returned? <==> forall k :: 0 <= k < |input| ==> VideoInfo(input[k], sel, open, catalog).Returned?
  {
    var data := [];
    var i := 0;
    while i < |input|
      invariant 0 <= i <= |input| && |data| == i
      invariant forall k :: 0 <= k < i ==> Returned(data[k]) == VideoInfo(input[k], sel, open, catalog)
    {
      var info := ScrapeVideo(input[i], sel, open, catalog);
      if info.Raised? {
        assert forall j :: 0 <= j < i ==> VideoInfo(input[j], sel, open, catalog).Returned? by {
          forall j | 0 <= j < i ensures VideoInfo(input[j], sel, open, catalog).Returned? {
            assert Returned(data[j]) == VideoInfo(input[j], sel, open, catalog);
          }
        }
        return Raised(info.fault);
      }
      ghost var data0 := data;
      data := data + [info.value];
      forall k | 0 <= k <= i ensures Returned(data[k]) == VideoInfo(input[k], sel, open, catalog) {
        if k < i {
          assert data[k] == data0[k];
        }
      }
      i := i + 1;
    }
    r := Returned(data);
  }

  /** One pass of the loop of `scraping_info_from_videos`. */
  method ScrapeVideo(video: Record, sel: seq<string>, open: string -> Option<Page>, catalog: Catalog)
    returns (info: Attempt<Record>)
    requires Valid(video)
    ensures info == VideoInfo(video, sel, open, catalog)
  {
    if "urls" !in video.values {
      info := Raised(KeyError("urls"));
    } else if video.values["urls"].Null? {
      info := Raised(DriverError);
    } else {
      var loaded := open(video.values["urls"].s);
      if loaded.None? {
        info := Raised(DriverError);
      } else if "type" !in video.values {
        info := Raised(KeyError("type"));
      } else {
        var isVideo := video.values["type"] == Str("Video");
        info := AssembleLoop(video, sel, VideoInfoStep(loaded.value, catalog, isVideo));
      }
    }
  }

  /** `driver.get(video['urls'])` succeeds: the record has a URL and it loads. */
  predicate Loads(video: Record, open: string -> Option<Page>)
  {
    "urls" in video.values && video.values["urls"].Str? && open(video.values["urls"].s).Some?
  }

  /**
   * Once the record's page loads and it has a type, its pass raises exactly
   * when some selected name is in neither table, and then with the
   * `KeyError` of the first such name; the type never matters, since both
   * tables have the same names.
   */
  lemma {:induction false} VideoInfoRaises(video: Record, sel: seq<string>, open: string -> Option<Page>, catalog: Catalog)
    requires Valid(video) && Loads(video, open) && "type" in video.values
    ensures VideoInfo(video, sel, open, catalog).Raised? <==> exists i :: 0 <= i < |sel| && sel[i] !in InfoNames
    ensures VideoInfo(video, sel, open, catalog).Raised? ==>
      exists i :: && 0 <= i < |sel| && sel[i] !in InfoNames
                  && VideoInfo(video, sel, open, catalog) == Raised(KeyError(sel[i]))
                  && forall j :: 0 <= j < i ==> sel[j] in InfoNames
  {
    var page := open(video.values["urls"].s).value;
    var step := VideoInfoStep(page, catalog, video.values["type"] == Str("Video"));
    AssembleRaises(video, sel, step);
    forall i | 0 <= i < |sel| ensures step(sel[i]).Fail? <==> sel[i] !in InfoNames {
      VideoInfoStepCases(page, catalog, video.values["type"] == Str("Video"), sel[i]);
    }
    if VideoInfo(video, sel, open, catalog).Raised? {
      var i :| 0 <= i < |sel| && step(sel[i]) == Fail(Assemble(video, sel, step).fault) &&
        forall j :: 0 <= j < i ==> !step(sel[j]).Fail?;
      VideoInfoStepCases(page, catalog, video.values["type"] == Str("Video"), sel[i]);
    }
  }

  /**
   * An updated record keeps the saved record's keys in their places in
   * front; the new keys follow, each a selected name the saved record
   * lacked, in first-selection order.
   */
  lemma VideoInfoKeys(video: Record, sel: seq<string>, open: string -> Option<Page>, catalog: Catalog)
    requires Valid(video) && VideoInfo(video, sel, open, catalog).Returned?
    ensures Loads(video, open) && "type" in video.values
    ensures var r := VideoInfo(video, sel, open, catalog).value;
      && |video.keys| <= |r.keys| && r.keys[..|video.keys|] == video.keys
      && (forall q :: |video.keys| <= q < |r.keys| ==> r.keys[q] in sel && r.keys[q] !in video.values)
      && (forall p, q :: |video.keys| <= p < q < |r.keys| ==> IndexOf(sel, r.keys[p]) < IndexOf(sel, r.keys[q]))
  {
    var page := open(video.values["urls"].s).value;
    var step := VideoInfoStep(page, catalog, video.values["type"] == Str("Video"));
    assert VideoInfo(video, sel, open, catalog) == Assemble(video, sel, step);
    var r := Assemble(video, sel, step).value;
    assert AddedFrom(video, r.keys, sel) by { AssembleKeys(video, sel, step); }
    assert InSelectionOrder(sel, r.keys, |video.keys|) by { AssembleOrder(video, sel, step); }
  }

  /**
   * An updated record holds the saved record's keys and the selected names;
   * every selected name holds what the table for the record's type gives on
   * its page, and every other value is unchanged.
   */
  lemma VideoInfoValues(video: Record, sel: seq<string>, open: string -> Option<Page>, catalog: Catalog)
    requires Valid(video) && VideoInfo(video, sel, open, catalog).Returned?
    ensures Loads(video, open) && "type" in video.values
    ensures var r := VideoInfo(video, sel, open, catalog).value;
      var page := open(video.values["urls"].s).value;
      var isVideo := video.values["type"] == Str("Video");
      && (forall k :: k in r.values <==> k in video.values || k in sel)
      && (forall k :: k in sel ==> k in InfoNames && r.values[k] == RunGetter(FunctionsFor(isVideo, k).value, page, catalog))
      && (forall k :: k in video.values && k !in sel ==> r.values[k] == video.values[k])
  {
    var page := open(video.values["urls"].s).value;
    var isVideo := video.values["type"] == Str("Video");
    var step := VideoInfoStep(page, catalog, isVideo);
    assert VideoInfo(video, sel, open, catalog) == Assemble(video, sel, step);
    assert forall k :: k in sel ==> k in InfoNames && step(k) == Set(RunGetter(FunctionsFor(isVideo, k).value, page, catalog)) by {
      AssembleRaises(video, sel, step);
      forall k | k in sel ensures k in InfoNames && step(k) == Set(RunGetter(FunctionsFor(isVideo, k).value, page, catalog)) {
        var i :| 0 <= i < |sel| && sel[i] == k;
        VideoInfoStepCases(page, catalog, isVideo, k);
      }
    }
    AssembleValues(video, sel, step);
  }

  /**
   * Only a record typed `Video` is read with the video getters: a `Shorts`,
   * `Live` or unclassified record gets its likes from the Shorts like count.
   */
  lemma NonVideoReadsShortsLikes(video: Record, sel: seq<string>, open: string -> Option<Page>, catalog: Catalog)
    requires Valid(video) && VideoInfo(video, sel, open, catalog).Returned? && "likes" in sel
    requires "type" in video.values && video.values["type"] != Str("Video")
    ensures Loads(video, open) && "likes" in VideoInfo(video, sel, open, catalog).value.values
    ensures var page := open(video.values["urls"].s).value;
      VideoInfo(video, sel, open, catalog).value.values["likes"] ==
      WaitedText(page, catalog, "shorts_likes", ShortsLikesTimeoutMessage)
  {
    VideoInfoValues(video, sel, open, catalog);
  }

  /**
   * The search scraper stores a video's address under `url`, never `urls`:
   * a record it saves, handed to this scraper, raises `KeyError('urls')`.
   */
  lemma SearchRecordLacksUrls(item: Scope, searchCatalog: Catalog, searchSel: seq<string>,
                              sel: seq<string>, open: string -> Option<Page>, catalog: Catalog)
    ensures var a := Assemble(Empty, searchSel, SearchInfoScraper.SearchStep(item, searchCatalog));
      a.Returned? && VideoInfo(a.value, sel, open, catalog) == Raised(KeyError("urls"))
  {
    var a := Assemble(Empty, searchSel, SearchInfoScraper.SearchStep(item, searchCatalog));
    assert a.Returned? && Valid(a.value) && "urls" !in a.value.values by {
      SearchInfoScraper.SearchRecordKeys(item, searchCatalog, searchSel);
      assert "urls" !in SearchInfoScraper.SearchVideoFields;
    }
  }
}
