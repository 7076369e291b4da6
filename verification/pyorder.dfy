/** The values the aggregators keep as prices, and Python's `<`, `min` and `max` on them. */
module PyOrder {

  /** A price as it ends up in a site's dictionary: an `int` when `int()` accepted it, else the raw `str`. */
  datatype PyVal = Num(n: int) | Str(s: string)

  predicate SameKind(a: PyVal, b: PyVal)
  {
    a.Num? == b.Num?
  }

  /** Python's `<` on `str`: code point by code point, a proper prefix being smaller. */
  predicate StrLess(a: string, b: string)
  {
    if |a| == 0 then |b| > 0
    else if |b| == 0 then false
    else if a[0] == b[0] then StrLess(a[1..], b[1..])
    else a[0] < b[0]
  }

  /** Python's `<` between two values of the same kind (between an `int` and a `str` it raises
      `TypeError`; callers rule that case out, and it is `false` here). */
  predicate Less(a: PyVal, b: PyVal)
  {
    match (a, b)
    case (Num(x), Num(y)) => x < y
    case (Str(x), Str(y)) => StrLess(x, y)
    case _ => false
  }

  lemma {:induction false} StrLessIrreflexive(a: string)
    ensures !StrLess(a, a)
  {
    if |a| > 0 {
      StrLessIrreflexive(a[1..]);
    }
  }

  lemma {:induction false} StrLessTransitive(a: string, b: string, c: string)
    requires StrLess(a, b) && StrLess(b, c)
    ensures StrLess(a, c)
  {
    if |a| > 0 && |b| > 0 && |c| > 0 && a[0] == b[0] && b[0] == c[0] {
      StrLessTransitive(a[1..], b[1..], c[1..]);
    }
  }

  lemma {:induction false} StrLessTotal(a: string, b: string)
    ensures StrLess(a, b) || a == b || StrLess(b, a)
  {
    if |a| > 0 && |b| > 0 && a[0] == b[0] {
      StrLessTotal(a[1..], b[1..]);
      if a[1..] == b[1..] {
        assert a == [a[0]] + a[1..] && b == [b[0]] + b[1..];
      }
    }
  }

  /** On values of one kind, `<` is a strict total order. */
  lemma LessIrreflexive(a: PyVal)
    ensures !Less(a, a)
  {
    if a.Str? {
      StrLessIrreflexive(a.s);
    }
  }

  lemma LessTransitive(a: PyVal, b: PyVal, c: PyVal)
    requires Less(a, b) && Less(b, c)
    ensures Less(a, c)
  {
    if a.Str? {
      StrLessTransitive(a.s, b.s, c.s);
    }
  }

  lemma LessTotal(a: PyVal, b: PyVal)
    requires SameKind(a, b)
    ensures Less(a, b) || a == b || Less(b, a)
  {
    if a.Str? {
      StrLessTotal(a.s, b.s);
    }
  }

  lemma LessSameKind(a: PyVal, b: PyVal)
    requires Less(a, b)
    ensures SameKind(a, b)
  {
  }

  /** All `int`s or all `str`s: the lists Python can compare without `TypeError`. */
  predicate Homogeneous(s: seq<PyVal>)
  {
    (forall i :: 0 <= i < |s| ==> s[i].Num?) || (forall i :: 0 <= i < |s| ==> s[i].Str?)
  }

  /** Python's `min(s)`: scans left to right and keeps the first value nothing later undercuts. */
  function Minimum(s: seq<PyVal>): (r: PyVal)
    requires |s| > 0 && Homogeneous(s)
    ensures r in s
    ensures forall i :: 0 <= i < |s| ==> !Less(s[i], r)
  {
    if |s| == 1 then LessIrreflexive(s[0]); s[0]
    else
      var m := Minimum(s[..|s| - 1]);
      var x := s[|s| - 1];
      assert forall i :: 0 <= i < |s| - 1 ==> s[..|s| - 1][i] == s[i];
      if Less(x, m) then
        forall i | 0 <= i < |s| - 1 ensures !Less(s[i], x) {
          if Less(s[i], x) { LessTransitive(s[i], x, m); }
        }
        LessIrreflexive(x);
        x
      else m
  }

  /** Python's `max(s)`: scans left to right and keeps the first value nothing later exceeds. */
  function Maximum(s: seq<PyVal>): (r: PyVal)
    requires |s| > 0 && Homogeneous(s)
    ensures r in s
    ensures forall i :: 0 <= i < |s| ==> !Less(r, s[i])
  {
    if |s| == 1 then LessIrreflexive(s[0]); s[0]
    else
      var m := Maximum(s[..|s| - 1]);
      var x := s[|s| - 1];
      assert forall i :: 0 <= i < |s| - 1 ==> s[..|s| - 1][i] == s[i];
      if Less(m, x) then
        forall i | 0 <= i < |s| - 1 ensures !Less(x, s[i]) {
          if Less(x, s[i]) { LessTransitive(m, x, s[i]); }
        }
        LessIrreflexive(x);
        x
      else m
  }

  /** The least value never exceeds the greatest. */
  lemma MinimumNotAboveMaximum(s: seq<PyVal>)
    requires |s| > 0 && Homogeneous(s)
    ensures !Less(Maximum(s), Minimum(s))
  {
    var lo := Minimum(s);
    var hi := Maximum(s);
    var i :| 0 <= i < |s| && s[i] == lo;
    assert !Less(hi, s[i]);
  }
}
