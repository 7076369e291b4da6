/** Decimal numerals as Python 3 reads and writes them: `int(str)`, `str(int)`, `format(n, ',')`,
    and the first match of the regular expression `\d+`. Only ASCII digits are modelled. */
module Numerals {
  import opened Chars
  import opened Wrappers
  import opened PyStr
  import opened Seqs

  predicate AllDigits(d: string)
  {
    forall i :: 0 <= i < |d| ==> IsDigit(d[i])
  }

  /** The value of a digit string, leading zeros included. */
  function DigitsValue(d: string): nat
    requires AllDigits(d)
  {
    if |d| == 0 then 0 else 10 * DigitsValue(d[..|d| - 1]) + DigitValue(d[|d| - 1])
  }

  /** `str(n)` for a non-negative `n`: the shortest decimal numeral, so it has no leading zero. */
  function ShowNat(n: nat): (r: string)
    ensures |r| > 0 && AllDigits(r)
    ensures r[0] == '0' ==> n == 0 && |r| == 1
  {
    if n < 10 then [DigitChar(n)] else ShowNat(n / 10) + [DigitChar(n % 10)]
  }

  /** `str(n)` for any integer. */
  function IntToString(n: int): (r: string)
  {
    if n < 0 then "-" + ShowNat(-n) else ShowNat(n)
  }

  /** Reading back the numeral `str` writes gives the number. */
  lemma {:induction false} ShowNatValue(n: nat)
    ensures DigitsValue(ShowNat(n)) == n
  {
    if n >= 10 {
      ShowNatValue(n / 10);
      var r := ShowNat(n);
      assert r[..|r| - 1] == ShowNat(n / 10);
    }
  }

  /** A digit string without its redundant leading zeros (a lone `0` stays). */
  function DropLeadingZeros(d: string): (r: string)
    requires AllDigits(d)
    ensures AllDigits(r)
  {
    if |d| > 1 && d[0] == '0' then DropLeadingZeros(d[1..]) else d
  }

  lemma {:induction false} LeadingZeroValue(d: string)
    requires AllDigits(d) && |d| > 0 && d[0] == '0'
    ensures DigitsValue(d) == DigitsValue(d[1..])
    decreases |d|
  {
    if |d| > 1 {
      LeadingZeroValue(d[..|d| - 1]);
      assert d[..|d| - 1][1..] == d[1..][..|d[1..]| - 1];
    }
  }

  lemma {:induction false} NoLeadingZeroPositive(d: string)
    requires AllDigits(d) && |d| > 0 && d[0] != '0'
    ensures DigitsValue(d) > 0
    decreases |d|
  {
    if |d| > 1 {
      NoLeadingZeroPositive(d[..|d| - 1]);
    }
  }

  lemma {:induction false} ShowOfCanonical(d: string)
    requires AllDigits(d) && |d| > 0 && (d[0] == '0' ==> |d| == 1)
    ensures ShowNat(DigitsValue(d)) == d
    decreases |d|
  {
    if |d| > 1 {
      var p := d[..|d| - 1];
      ShowOfCanonical(p);
      NoLeadingZeroPositive(p);
      assert p + [d[|d| - 1]] == d;
    }
  }

  /** `int` of a digit run drops its leading zeros and nothing else: printing the value gives
      the run without them. */
  lemma {:induction false} ShowOfDigitsValue(d: string)
    requires AllDigits(d) && |d| > 0
    ensures ShowNat(DigitsValue(d)) == DropLeadingZeros(d)
    decreases |d|
  {
    if |d| > 1 && d[0] == '0' {
      LeadingZeroValue(d);
      ShowOfDigitsValue(d[1..]);
    } else {
      ShowOfCanonical(d);
    }
  }

  /** `s` with every occurrence of `c` removed. */
  function Without(s: string, c: char): (r: string)
    ensures c !in r
    ensures |r| <= |s|
  {
    if |s| == 0 then [] else (if s[0] == c then [] else [s[0]]) + Without(s[1..], c)
  }

  lemma {:induction false} WithoutAbsent(s: string, c: char)
    requires c !in s
    ensures Without(s, c) == s
  {
    if |s| > 0 {
      assert c !in s[1..];
      WithoutAbsent(s[1..], c);
    }
  }

  lemma {:induction false} WithoutAppend(a: string, b: string, c: char)
    ensures Without(a + b, c) == Without(a, c) + Without(b, c)
  {
    if |a| > 0 {
      assert (a + b)[1..] == a[1..] + b;
      WithoutAppend(a[1..], b, c);
    } else {
      assert a + b == b;
    }
  }

  lemma {:induction false} WithoutKeepsDigits(s: string, c: char)
    requires forall i :: 0 <= i < |s| ==> IsDigit(s[i]) || s[i] == c
    ensures AllDigits(Without(s, c))
  {
    if |s| > 0 {
      WithoutKeepsDigits(s[1..], c);
    }
  }

  /** Comma thousands grouping of a digit string, as `format(n, ',')` writes it. */
  function Group(d: string): (r: string)
    requires AllDigits(d)
    ensures forall i :: 0 <= i < |r| ==> IsDigit(r[i]) || r[i] == ','
  {
    if |d| <= 3 then d else Group(d[..|d| - 3]) + "," + d[|d| - 3..]
  }

  /** One comma for every full group of three digits after the leading group. */
  lemma {:induction false} GroupLength(d: string)
    requires AllDigits(d) && |d| > 0
    ensures |Group(d)| == |d| + (|d| - 1) / 3
    decreases |d|
  {
    if |d| > 3 {
      GroupLength(d[..|d| - 3]);
    }
  }

  /** The groups are well formed: one to three leading digits, then comma-separated triples. */
  predicate WellGrouped(s: string)
    decreases |s|
  {
    if |s| <= 3 then |s| > 0 && AllDigits(s)
    else s[|s| - 4] == ',' && AllDigits(s[|s| - 3..]) && WellGrouped(s[..|s| - 4])
  }

  /** Grouping only inserts commas: removing them gives the digits back. */
  lemma {:induction false} GroupUngroup(d: string)
    requires AllDigits(d)
    ensures Without(Group(d), ',') == d
    decreases |d|
  {
    if |d| <= 3 {
      WithoutAbsent(d, ',');
    } else {
      var p, t := d[..|d| - 3], d[|d| - 3..];
      UngroupLast(d);
      GroupUngroup(p);
      assert p + t == d;
    }
  }

  /** Removing the commas of a grouping of more than three digits: the last comma goes, the
      last three digits stay. */
  lemma UngroupLast(d: string)
    requires AllDigits(d) && |d| > 3
    ensures AllDigits(d[..|d| - 3])
    ensures Without(Group(d), ',') == Without(Group(d[..|d| - 3]), ',') + d[|d| - 3..]
  {
    var p, t := d[..|d| - 3], d[|d| - 3..];
    var gp := Group(p);
    var w1, w2 := Without(gp + ",", ','), Without(t, ',');
    assert Without(Group(d), ',') == w1 + w2 by {
      assert Group(d) == (gp + ",") + t;
      WithoutAppend(gp + ",", t, ',');
    }
    assert w1 == Without(gp, ',') by {
      WithoutAppend(gp, ",", ',');
      assert Without(",", ',') == [];
    }
    assert w2 == t by {
      assert ',' !in t;
      WithoutAbsent(t, ',');
    }
  }

  /** Grouping puts a comma before every third digit from the right and nowhere else. */
  lemma {:induction false} GroupWellGrouped(d: string)
    requires AllDigits(d) && |d| > 0
    ensures WellGrouped(Group(d))
    decreases |d|
  {
    if |d| > 3 {
      var p, t := d[..|d| - 3], d[|d| - 3..];
      GroupWellGrouped(p);
      assert AllDigits(t);
      WellGroupedStep(Group(p), t);
    }
  }

  /** A well-grouped string, a comma and three more digits are still well grouped. */
  lemma WellGroupedStep(p: string, t: string)
    requires WellGrouped(p) && AllDigits(t) && |t| == 3
    ensures WellGrouped(p + "," + t)
  {
    var g := p + "," + t;
    assert |p| > 0;
    assert g[..|g| - 4] == p;
    assert g[|g| - 3..] == t;
  }

  /** `format(n, ',')` for an integer `n`. */
  function FormatGrouped(n: int): (r: string)
  {
    if n < 0 then "-" + Group(ShowNat(-n)) else Group(ShowNat(n))
  }

  /** Reads a comma-grouped integer back. */
  function ReadGrouped(s: string): Option<int>
  {
    var neg := |s| > 0 && s[0] == '-';
    var body := if neg then s[1..] else s;
    var digits := Without(body, ',');
    if |digits| > 0 && AllDigits(digits) then
      var v: int := DigitsValue(digits);
      Some(if neg then -v else v)
    else None
  }

  /** The grouped rendering loses nothing: reading it back gives the number. */
  lemma GroupedRoundTrip(n: int)
    ensures ReadGrouped(FormatGrouped(n)) == Some(n)
  {
    var m: nat := if n < 0 then -n else n;
    var d := ShowNat(m);
    var g := Group(d);
    GroupedDigits(d);
    assert DigitsValue(d) == m by {
      ShowNatValue(m);
    }
    if n < 0 {
      assert FormatGrouped(n) == "-" + g;
      assert ("-" + g)[1..] == g;
    } else {
      assert FormatGrouped(n) == g;
    }
  }

  /** `s` is `n` as `format(n, ',')` writes it: a minus sign exactly when `n` is negative, then
      well-formed groups whose digits, once the commas are dropped, are the shortest numeral of
      the magnitude, so there is no leading zero. */
  predicate GroupedShows(s: string, n: int)
  {
    && (n < 0 <==> |s| > 0 && s[0] == '-')
    && var body := if n < 0 then s[1..] else s;
       WellGrouped(body) && Without(body, ',') == ShowNat(if n < 0 then -n else n)
  }

  /** The grouped rendering has exactly that shape. */
  lemma FormatGroupedShows(n: int)
    ensures GroupedShows(FormatGrouped(n), n)
  {
    var m: nat := if n < 0 then -n else n;
    var g := Group(ShowNat(m));
    GroupedDigits(ShowNat(m));
    GroupWellGrouped(ShowNat(m));
    if n < 0 {
      assert FormatGrouped(n)[1..] == g;
    }
  }

  /** The shape fixes the text: only the grouped rendering of `n` shows `n`. */
  lemma GroupedShowsUnique(s: string, n: int)
    requires GroupedShows(s, n)
    ensures s == FormatGrouped(n)
  {
    var m: nat := if n < 0 then -n else n;
    var body := if n < 0 then s[1..] else s;
    WellGroupedIsGroup(body);
    if n < 0 {
      assert s == "-" + body;
    }
  }

  /** A well-grouped text is the grouping of its own digits. */
  lemma {:induction false} WellGroupedIsGroup(g: string)
    requires WellGrouped(g)
    ensures AllDigits(Without(g, ','))
    ensures g == Group(Without(g, ','))
    decreases |g|
  {
    if |g| <= 3 {
      ShortGroup(g);
    } else {
      var p, t := SplitGrouped(g);
      WellGroupedIsGroup(p);
      GroupOfStep(p, t);
    }
  }

  /** A well-grouped text longer than three characters is a shorter well-grouped text, a comma
      and three digits. */
  lemma SplitGrouped(g: string) returns (p: string, t: string)
    requires WellGrouped(g) && |g| > 3
    ensures g == p + "," + t && WellGrouped(p) && AllDigits(t) && |t| == 3
    ensures |p| < |g|
  {
    p, t := g[..|g| - 4], g[|g| - 3..];
    assert g == p + "," + t;
  }

  /** Grouping more than three digits groups all but the last three, then a comma and those. */
  lemma GroupSplit(d: string, w: string, t: string)
    requires AllDigits(d) && |d| > 3 && d[..|d| - 3] == w && d[|d| - 3..] == t
    ensures AllDigits(w) && Group(d) == Group(w) + "," + t
  {
  }

  /** Up to three digits are their own grouping. */
  lemma ShortGroup(g: string)
    requires AllDigits(g) && |g| <= 3
    ensures Without(g, ',') == g && g == Group(g)
  {
    assert ',' !in g;
    WithoutAbsent(g, ',');
  }

  /** The induction step: a grouping, a comma and three digits is the grouping of all the digits. */
  lemma GroupOfStep(p: string, t: string)
    requires WellGrouped(p) && AllDigits(Without(p, ',')) && p == Group(Without(p, ','))
    requires AllDigits(t) && |t| == 3
    ensures AllDigits(Without(p + "," + t, ','))
    ensures p + "," + t == Group(Without(p + "," + t, ','))
  {
    var d := GroupedStep(p, t);
    GroupSplit(d, Without(p, ','), t);
  }

  /** Dropping the commas of `p`, a comma and a comma-free `t`. */
  lemma WithoutComma(p: string, t: string)
    requires ',' !in t
    ensures Without(p + "," + t, ',') == Without(p, ',') + t
  {
    var w := Without(p, ',');
    assert Without(p + ",", ',') == w by {
      WithoutAppend(p, ",", ',');
      assert Without(",", ',') == [];
      assert w + [] == w;
    }
    assert Without(p + "," + t, ',') == w + t by {
      WithoutAppend(p + ",", t, ',');
      WithoutAbsent(t, ',');
    }
  }

  /** Removing the commas of a well-grouped text, a comma and three digits: the digits of the
      text, then the three. */
  lemma GroupedStep(p: string, t: string) returns (d: string)
    requires WellGrouped(p) && AllDigits(Without(p, ',')) && AllDigits(t) && |t| == 3
    ensures d == Without(p + "," + t, ',') && AllDigits(d) && |d| > 3
    ensures d[..|d| - 3] == Without(p, ',') && d[|d| - 3..] == t
  {
    assert ',' !in t;
    d := Without(p, ',') + t;
    assert |Without(p, ',')| > 0 by {
      GroupStartsWithDigit(p);
      assert p[0] != ',';
    }
    WithoutComma(p, t);
  }


  /** A grouped digit string starts with a digit and gives its digits back without the commas. */
  lemma GroupedDigits(d: string)
    requires AllDigits(d) && |d| > 0
    ensures |Group(d)| > 0 && Group(d)[0] != '-'
    ensures Without(Group(d), ',') == d
  {
    GroupUngroup(d);
    GroupWellGrouped(d);
    GroupStartsWithDigit(Group(d));
  }

  lemma {:induction false} GroupStartsWithDigit(g: string)
    requires WellGrouped(g)
    ensures |g| > 0 && IsDigit(g[0])
    decreases |g|
  {
    if |g| > 3 {
      GroupStartsWithDigit(g[..|g| - 4]);
    }
  }

  lemma FormatGroupedNoSpace(n: int)
    ensures NoSpace(FormatGrouped(n))
  {
    var m: nat := if n < 0 then -n else n;
    var g := Group(ShowNat(m));
    assert forall i :: 0 <= i < |g| ==> !IsSpace(g[i]);
  }

  /** The first maximal run of digits in `s` at or after position `k`, as a half-open index range. */
  function DigitRunFrom(s: string, k: nat): (r: Option<(nat, nat)>)
    requires k <= |s|
    ensures r.None? <==> forall i :: k <= i < |s| ==> !IsDigit(s[i])
    ensures r.Some? ==> k <= r.value.0 < r.value.1 <= |s|
    ensures r.Some? ==> AllDigits(s[r.value.0..r.value.1])
    ensures r.Some? ==> forall i :: k <= i < r.value.0 ==> !IsDigit(s[i])
    ensures r.Some? ==> r.value.1 == |s| || !IsDigit(s[r.value.1])
    decreases |s| - k
  {
    if k == |s| then None
    else if IsDigit(s[k]) then Some((k, RunEnd(s, k)))
    else DigitRunFrom(s, k + 1)
  }

  /** The end of the run of digits that starts at `k`. */
  function RunEnd(s: string, k: nat): (j: nat)
    requires k <= |s|
    ensures k <= j <= |s|
    ensures forall i :: k <= i < j ==> IsDigit(s[i])
    ensures j == |s| || !IsDigit(s[j])
    decreases |s| - k
  {
    if k < |s| && IsDigit(s[k]) then RunEnd(s, k + 1) else k
  }

  /** `re.findall(r'\d+', s)[0]`: the leftmost maximal digit run, or the `IndexError` of indexing
      an empty match list. */
  function FirstDigitRun(s: string): (r: Result<string>)
    ensures r.Failure? <==> forall i :: 0 <= i < |s| ==> !IsDigit(s[i])
    ensures r.Failure? ==> r.error == IndexError
    ensures r.Success? ==> |r.value| > 0 && AllDigits(r.value)
    ensures r.Success? ==> exists i :: FirstRunAt(s, i, r.value)
  {
    match DigitRunFrom(s, 0)
    case None => Failure(IndexError)
    case Some((i, j)) =>
      assert FirstRunAt(s, i, s[i..j]);
      Success(s[i..j])
  }

  /** `d` occurs in `s` at `i` as a maximal digit run with no digit before it. */
  predicate FirstRunAt(s: string, i: int, d: string)
  {
    && 0 <= i && i + |d| <= |s| && s[i..i + |d|] == d
    && (forall k :: 0 <= k < i ==> !IsDigit(s[k]))
    && (i + |d| == |s| || !IsDigit(s[i + |d|]))
  }

  /** The digits part of an `int()` argument: digits, single underscores only between digits. */
  predicate DigitsWithUnderscores(b: string)
  {
    && |b| > 0 && IsDigit(b[0]) && IsDigit(b[|b| - 1])
    && forall i :: 0 <= i < |b| ==> DigitOrJoin(b, i)
  }

  /** Position `i` of an `int()` argument holds a digit, or an underscore followed by a digit. */
  predicate DigitOrJoin(b: string, i: nat)
    requires i < |b|
  {
    IsDigit(b[i]) || (b[i] == '_' && i + 1 < |b| && IsDigit(b[i + 1]))
  }

  /** Python's `int(s)` for a `str` argument: surrounding whitespace, an optional sign, decimal
      digits with optional single underscores; anything else is a `ValueError`, modelled as `None`.
      `int()` trims every `str.isspace()` character except the information separators, so a
      separator anywhere in `s` is left in the digits part and makes the call fail. */
  function ParseInt(s: string): (r: Option<int>)
    ensures r.Some? ==> exists i :: 0 <= i < |s| && IsDigit(s[i])
  {
    if HasInfoSeparator(s) then None
    else
      StrippedDigit(s);
      ParseStripped(Strip(s))
  }

  /** A stripped argument that parses has a digit, which comes from the unstripped text. */
  lemma StrippedDigit(s: string)
    ensures ParseStripped(Strip(s)).Some? ==> exists i :: 0 <= i < |s| && IsDigit(s[i])
  {
    var t := Strip(s);
    if ParseStripped(t).Some? {
      var k := if |t| > 0 && (t[0] == '+' || t[0] == '-') then 1 else 0;
      assert IsDigit(t[k]);
      assert t[k] == s[LeadingSpaces(s) + k];
    }
  }

  predicate HasInfoSeparator(s: string)
  {
    exists i :: 0 <= i < |s| && IsInfoSeparator(s[i])
  }

  /** An information separator anywhere in the argument makes `int()` raise. */
  lemma ParseIntRejectsSeparator(a: string, c: char, b: string)
    requires IsInfoSeparator(c)
    ensures ParseInt(a + [c] + b).None?
  {
    assert (a + [c] + b)[|a|] == c;
  }

  /** `int()` trims any other whitespace around its argument. */
  lemma {:induction false} ParseIntTrims(w1: string, t: string, w2: string)
    requires forall i :: 0 <= i < |w1| ==> IsSpace(w1[i]) && !IsInfoSeparator(w1[i])
    requires forall i :: 0 <= i < |w2| ==> IsSpace(w2[i]) && !IsInfoSeparator(w2[i])
    requires NoSpace(t)
    ensures ParseInt(w1 + t + w2) == ParseStripped(t)
  {
    var s := w1 + t + w2;
    forall i | 0 <= i < |s| ensures !IsInfoSeparator(s[i]) {
      ConcatAt(s, w1 + t, w2, i);
      if i < |w1 + t| {
        ConcatAt(w1 + t, w1, t, i);
      }
    }
    StripAround(w1, t, w2);
  }

  /** `strip()` of a whitespace-free text between two whitespace runs is that text. */
  lemma StripAround(w1: string, t: string, w2: string)
    requires forall i :: 0 <= i < |w1| ==> IsSpace(w1[i])
    requires forall i :: 0 <= i < |w2| ==> IsSpace(w2[i])
    requires NoSpace(t)
    ensures Strip(w1 + t + w2) == t
  {
    var s := w1 + t + w2;
    var r := Strip(s);
    var l := LeadingSpaces(s);
    assert forall i :: 0 <= i < |w1| ==> s[i] == w1[i];
    assert forall i :: 0 <= i < |t| ==> s[|w1| + i] == t[i];
    assert forall i :: 0 <= i < |w2| ==> s[|w1| + |t| + i] == w2[i];
    if |t| > 0 {
      assert !IsSpace(s[|w1|]);
      assert !IsSpace(s[|w1| + |t| - 1]);
      assert l <= |w1|;
      if |r| == 0 {
        assert false;
      }
      assert r[0] == s[l];
      assert l == |w1|;
      assert r[|r| - 1] == s[l + |r| - 1];
      assert l + |r| == |w1| + |t|;
      assert r == s[|w1|..|w1| + |t|];
    }
  }

  /** `int()` of an argument that is already stripped. */
  function ParseStripped(t: string): Option<int>
  {
    var signed := |t| > 0 && (t[0] == '+' || t[0] == '-');
    var body := if signed then t[1..] else t;
    if DigitsWithUnderscores(body) then
      var v: int := DigitsValue(DigitsOf(body));
      Some(if signed && t[0] == '-' then -v else v)
    else None
  }

  /** The digits of an `int()` argument once its underscores are dropped. */
  function DigitsOf(body: string): (r: string)
    requires DigitsWithUnderscores(body)
    ensures AllDigits(r)
  {
    UnderscoreDigits(body);
    WithoutKeepsDigits(body, '_');
    Without(body, '_')
  }

  lemma UnderscoreDigits(body: string)
    requires DigitsWithUnderscores(body)
    ensures forall i :: 0 <= i < |body| ==> IsDigit(body[i]) || body[i] == '_'
  {
    forall i | 0 <= i < |body|
      ensures IsDigit(body[i]) || body[i] == '_'
    {
      assert DigitOrJoin(body, i);
    }
  }

  lemma ParseDigits(d: string)
    requires AllDigits(d) && |d| > 0
    ensures DigitsWithUnderscores(d)
    ensures DigitsOf(d) == d
  {
    assert '_' !in d;
    WithoutAbsent(d, '_');
  }

  /** `int(str(n)) == n`. */
  lemma ParseIntToString(n: int)
    ensures ParseInt(IntToString(n)) == Some(n)
  {
    var m: nat := if n < 0 then -n else n;
    var d := ShowNat(m);
    ShowNatValue(m);
    if n < 0 {
      NumeralNoSpace("-", d);
      ParseIntNoSpace("-" + d);
      ParseNegative(d);
    } else {
      NumeralNoSpace("", d);
      assert "" + d == d;
      ParseIntNoSpace(d);
      ParsePositive(d);
    }
  }

  /** A text without whitespace has no separator and nothing to trim. */
  lemma ParseIntNoSpace(s: string)
    requires NoSpace(s)
    ensures ParseInt(s) == ParseStripped(s)
  {
    StripNoSpace(s);
    assert !HasInfoSeparator(s) by {
      forall i | 0 <= i < |s| ensures !IsInfoSeparator(s[i]) {
        assert !IsSpace(s[i]);
      }
    }
  }

  lemma NumeralNoSpace(sign: string, d: string)
    requires AllDigits(d) && (sign == "" || sign == "-")
    ensures NoSpace(sign + d)
  {
  }

  lemma ParsePositive(d: string)
    requires AllDigits(d) && |d| > 0
    ensures ParseStripped(d) == Some(DigitsValue(d) as int)
  {
    ParseDigits(d);
  }

  lemma ParseNegative(d: string)
    requires AllDigits(d) && |d| > 0
    ensures ParseStripped("-" + d) == Some(-(DigitsValue(d) as int))
  {
    ParseDigits(d);
    ParseMinus(d);
  }

  /** `int()` of a minus sign followed by a valid digit string. */
  lemma ParseMinus(d: string)
    requires DigitsWithUnderscores(d)
    ensures ParseStripped("-" + d) == Some(-(DigitsValue(DigitsOf(d)) as int))
  {
    assert ("-" + d)[1..] == d;
  }

  /** A string whose last character is neither whitespace nor a digit is never a valid `int()` argument. */
  lemma ParseIntRejectsNonDigitEnd(s: string)
    requires |s| > 0 && !IsSpace(s[|s| - 1]) && !IsDigit(s[|s| - 1])
    ensures ParseInt(s).None?
  {
    var t := Strip(s);
    StripKeepsLast(s);
    RejectNonDigitEnd(t);
  }

  lemma StripKeepsLast(s: string)
    requires |s| > 0 && !IsSpace(s[|s| - 1])
    ensures |Strip(s)| > 0 && Strip(s)[|Strip(s)| - 1] == s[|s| - 1]
  {
    var t := Strip(s);
    var i := LeadingSpaces(s);
    assert i + |t| == |s|;
  }

  lemma RejectNonDigitEnd(t: string)
    requires |t| > 0 && !IsDigit(t[|t| - 1])
    ensures ParseStripped(t).None?
  {
  }
}
