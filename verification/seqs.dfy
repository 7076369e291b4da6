/** Generic sequence helpers: concatenation of a sequence of sequences, sums. */
module Seqs {

  /** All the inner sequences, one after the other. */
  function Flatten<T>(ss: seq<seq<T>>): seq<T>
  {
    if |ss| == 0 then [] else Flatten(ss[..|ss| - 1]) + ss[|ss| - 1]
  }

  function Sum(xs: seq<nat>): nat
  {
    if |xs| == 0 then 0 else Sum(xs[..|xs| - 1]) + xs[|xs| - 1]
  }

  lemma {:induction false} SumAppend(a: seq<nat>, b: seq<nat>)
    ensures Sum(a + b) == Sum(a) + Sum(b)
    decreases |b|
  {
    if |b| == 0 {
      assert a + b == a;
    } else {
      assert (a + b)[..|a + b| - 1] == a + b[..|b| - 1];
      SumAppend(a, b[..|b| - 1]);
    }
  }

  /** A sum does not depend on the order of its terms. */
  lemma {:induction false} SumPermutes(a: seq<nat>, b: seq<nat>)
    requires multiset(a) == multiset(b)
    ensures Sum(a) == Sum(b)
    decreases |a|
  {
    if |a| == 0 {
      assert |b| == |multiset(b)| == 0;
    } else {
      var j := IndexOf(b, a[|a| - 1]);
      PermuteInit(a, b, j);
      SumPermutes(a[..|a| - 1], b[..j] + b[j + 1..]);
      SumRemove(b, j);
    }
  }

  /** Taking the last element of `a` out of both sides of a rearrangement. */
  lemma PermuteInit<T>(a: seq<T>, b: seq<T>, j: int)
    requires multiset(a) == multiset(b) && |a| > 0 && 0 <= j < |b| && b[j] == a[|a| - 1]
    ensures multiset(a[..|a| - 1]) == multiset(b[..j] + b[j + 1..])
  {
    assert a == a[..|a| - 1] + [a[|a| - 1]];
    assert multiset(a) == multiset(a[..|a| - 1]) + multiset{a[|a| - 1]};
    MultisetRemove(b, j);
    Cancel(multiset(a[..|a| - 1]), multiset(b[..j] + b[j + 1..]), multiset{b[j]});
  }

  /** Taking one term out of a sum. */
  lemma {:induction false} SumRemove(b: seq<nat>, j: int)
    requires 0 <= j < |b|
    ensures Sum(b) == Sum(b[..j] + b[j + 1..]) + b[j]
  {
    var pre, post := b[..j], b[j + 1..];
    assert b == (pre + [b[j]]) + post;
    SumAppend(pre + [b[j]], post);
    SumAppend(pre, [b[j]]);
    SumAppend(pre, post);
    assert Sum([b[j]]) == b[j] by {
      assert [b[j]][..0] == [];
    }
  }

  lemma {:induction false} FlattenAppend<T>(a: seq<seq<T>>, b: seq<seq<T>>)
    ensures Flatten(a + b) == Flatten(a) + Flatten(b)
    decreases |b|
  {
    if |b| == 0 {
      assert a + b == a;
    } else {
      assert (a + b)[..|a + b| - 1] == a + b[..|b| - 1];
      FlattenAppend(a, b[..|b| - 1]);
    }
  }

  function MapSeq<T, U>(s: seq<T>, f: T -> U): (r: seq<U>)
    ensures |r| == |s|
    ensures forall i :: 0 <= i < |s| ==> r[i] == f(s[i])
  {
    seq(|s|, i requires 0 <= i < |s| => f(s[i]))
  }

  /** `[f(x) for x in s]` for a function defined on every element of `s`. */
  function MapWhere<T, U>(s: seq<T>, f: T --> U): (r: seq<U>)
    requires forall i :: 0 <= i < |s| ==> f.requires(s[i])
    ensures |r| == |s|
    ensures forall i :: 0 <= i < |s| ==> r[i] == f(s[i])
  {
    seq(|s|, i requires 0 <= i < |s| => f(s[i]))
  }

  lemma MapWhereAppend<T, U>(a: seq<T>, b: seq<T>, f: T --> U)
    requires forall i :: 0 <= i < |a| ==> f.requires(a[i])
    requires forall i :: 0 <= i < |b| ==> f.requires(b[i])
    ensures forall i :: 0 <= i < |a + b| ==> f.requires((a + b)[i])
    ensures MapWhere(a + b, f) == MapWhere(a, f) + MapWhere(b, f)
  {
    forall i | 0 <= i < |a + b| ensures f.requires((a + b)[i]) {
      if i >= |a| {
        assert (a + b)[i] == b[i - |a|];
      }
    }
  }

  lemma MapAppend<T, U>(a: seq<T>, b: seq<T>, f: T -> U)
    ensures MapSeq(a + b, f) == MapSeq(a, f) + MapSeq(b, f)
  {
  }

  /** Mapping two rearrangements of one another gives two rearrangements of one another. */
  lemma {:induction false} MapPermutes<T, U>(a: seq<T>, b: seq<T>, f: T -> U)
    requires multiset(a) == multiset(b)
    ensures multiset(MapSeq(a, f)) == multiset(MapSeq(b, f))
    decreases |a|
  {
    if |a| > 0 {
      var j := IndexOf(b, a[0]);
      PermuteTail(a, b, j);
      MapPermutes(a[1..], b[..j] + b[j + 1..], f);
      MapHead(a, f);
      MapRemove(b, j, f);
    }
  }

  /** A position where an element of the sequence occurs. */
  lemma IndexOf<T>(b: seq<T>, x: T) returns (j: int)
    requires x in multiset(b)
    ensures 0 <= j < |b| && b[j] == x
  {
    j :| 0 <= j < |b| && b[j] == x;
  }

  /** Taking the first element of `a` out of both sides of a rearrangement. */
  lemma PermuteTail<T>(a: seq<T>, b: seq<T>, j: int)
    requires multiset(a) == multiset(b) && |a| > 0 && 0 <= j < |b| && b[j] == a[0]
    ensures multiset(a[1..]) == multiset(b[..j] + b[j + 1..])
  {
    MultisetHead(a);
    MultisetRemove(b, j);
    Cancel(multiset(a[1..]), multiset(b[..j] + b[j + 1..]), multiset{b[j]});
  }

  lemma AppendLeft<T>(x: seq<T>, y: seq<T>, i: int)
    requires 0 <= i < |x|
    ensures (x + y)[i] == x[i]
  {
  }

  lemma AppendRight<T>(x: seq<T>, y: seq<T>, i: int)
    requires |x| <= i < |x| + |y|
    ensures (x + y)[i] == y[i - |x|]
  {
  }

  /** Position `i` of `x + y`, read in `x` or in `y`. */
  lemma ConcatAt<T>(s: seq<T>, x: seq<T>, y: seq<T>, i: int)
    requires s == x + y && 0 <= i < |s|
    ensures |s| == |x| + |y|
    ensures i < |x| ==> s[i] == x[i]
    ensures i >= |x| ==> s[i] == y[i - |x|]
  {
  }

  /** A sequence that agrees with `x` and then with `y`, position by position, is `x + y`. */
  lemma PointwiseConcat<T>(s: seq<T>, x: seq<T>, y: seq<T>)
    requires |s| == |x| + |y|
    requires forall i :: 0 <= i < |x| ==> s[i] == x[i]
    requires forall i :: 0 <= i < |y| ==> s[|x| + i] == y[i]
    ensures s == x + y
  {
    forall i | 0 <= i < |s| ensures s[i] == (x + y)[i] {
      if i >= |x| {
        assert s[|x| + (i - |x|)] == y[i - |x|];
      }
    }
  }

  lemma Cancel<T>(x: multiset<T>, y: multiset<T>, z: multiset<T>)
    requires x + z == y + z
    ensures x == y
  {
    assert x == (x + z) - z;
    assert y == (y + z) - z;
  }

  /** The multiset of a sequence: one element and the multiset of the others. */
  lemma MultisetRemove<T>(b: seq<T>, j: int)
    requires 0 <= j < |b|
    ensures multiset(b) == multiset(b[..j] + b[j + 1..]) + multiset{b[j]}
  {
    var pre, post := b[..j], b[j + 1..];
    assert b == pre + [b[j]] + post;
    assert multiset(b) == multiset(pre) + multiset{b[j]} + multiset(post);
    assert multiset(pre + post) == multiset(pre) + multiset(post);
  }

  lemma MapHead<T, U>(a: seq<T>, f: T -> U)
    requires |a| > 0
    ensures multiset(MapSeq(a, f)) == multiset{f(a[0])} + multiset(MapSeq(a[1..], f))
  {
    assert MapSeq(a, f) == [f(a[0])] + MapSeq(a[1..], f);
  }

  lemma MapRemove<T, U>(b: seq<T>, j: int, f: T -> U)
    requires 0 <= j < |b|
    ensures multiset(MapSeq(b, f)) == multiset(MapSeq(b[..j] + b[j + 1..], f)) + multiset{f(b[j])}
  {
    var mp, mq := MapSeq(b[..j], f), MapSeq(b[j + 1..], f);
    assert MapSeq(b, f) == mp + [f(b[j])] + mq;
    assert MapSeq(b[..j] + b[j + 1..], f) == mp + mq;
  }

  /** The multiset of a non-empty sequence: its head and the multiset of its tail. */
  lemma MultisetHead<T>(s: seq<T>)
    requires |s| > 0
    ensures multiset(s) == multiset(s[1..]) + multiset{s[0]}
  {
    assert s == [s[0]] + s[1..];
  }

  lemma ConcatAssoc<T>(a: seq<T>, b: seq<T>, c: seq<T>)
    ensures a + (b + c) == (a + b) + c
  {
  }
}
