/** Python's `sorted(xs, key=...)`: a stable sort by `<` on the keys, which raises `TypeError`
    when the keys mix `int`s and `str`s. Modelled as a stable insertion sort. */
module Sorting {
  import opened Wrappers
  import opened PyOrder
  import opened Seqs

  predicate KeysHomogeneous<T>(s: seq<T>, key: T -> PyVal)
  {
    (forall i :: 0 <= i < |s| ==> key(s[i]).Num?) || (forall i :: 0 <= i < |s| ==> key(s[i]).Str?)
  }

  /** No element's key is `<` the key of an element before it. */
  predicate SortedBy<T>(s: seq<T>, key: T -> PyVal)
  {
    forall i, j :: 0 <= i < j < |s| ==> !Less(key(s[j]), key(s[i]))
  }

  /** The elements of `s` whose key is `k`, in their order in `s`. */
  function WithKey<T>(s: seq<T>, key: T -> PyVal, k: PyVal): (r: seq<T>)
    ensures forall i :: 0 <= i < |r| ==> r[i] in s && key(r[i]) == k
  {
    if |s| == 0 then [] else (if key(s[0]) == k then [s[0]] else []) + WithKey(s[1..], key, k)
  }

  /** Places `x` before the first element whose key is not `<` its own. */
  function Insert<T>(x: T, s: seq<T>, key: T -> PyVal): seq<T>
  {
    if |s| == 0 || !Less(key(s[0]), key(x)) then [x] + s else [s[0]] + Insert(x, s[1..], key)
  }

  function SortBy<T>(s: seq<T>, key: T -> PyVal): seq<T>
  {
    if |s| == 0 then [] else Insert(s[0], SortBy(s[1..], key), key)
  }

  lemma {:induction false} InsertPermutes<T>(x: T, s: seq<T>, key: T -> PyVal)
    ensures multiset(Insert(x, s, key)) == multiset(s) + multiset{x}
  {
    if |s| > 0 && Less(key(s[0]), key(x)) {
      InsertPermutes(x, s[1..], key);
      MultisetHead(s);
    }
  }

  lemma {:induction false} SortByPermutes<T>(s: seq<T>, key: T -> PyVal)
    ensures multiset(SortBy(s, key)) == multiset(s)
  {
    if |s| > 0 {
      SortByPermutes(s[1..], key);
      InsertPermutes(s[0], SortBy(s[1..], key), key);
      MultisetHead(s);
    }
  }

  /** Putting in front an element whose key nothing in a sorted `t` undercuts keeps it sorted. */
  lemma SortedCons<T>(y: T, t: seq<T>, key: T -> PyVal)
    requires SortedBy(t, key)
    requires forall j :: 0 <= j < |t| ==> !Less(key(t[j]), key(y))
    ensures SortedBy([y] + t, key)
  {
    var r := [y] + t;
    forall i, j | 0 <= i < j < |r| ensures !Less(key(r[j]), key(r[i])) {
      assert r[j] == t[j - 1];
      if i > 0 {
        assert r[i] == t[i - 1];
      }
    }
  }

  lemma {:induction false} InsertSorted<T>(x: T, s: seq<T>, key: T -> PyVal)
    requires SortedBy(s, key) && KeysHomogeneous([x] + s, key)
    ensures SortedBy(Insert(x, s, key), key)
    decreases |s|, 1
  {
    var kx := key(x);
    if |s| == 0 {
    } else if !Less(key(s[0]), kx) {
      forall j | 0 <= j < |s| ensures !Less(key(s[j]), kx) {
        assert ([x] + s)[j + 1] == s[j];
        assert ([x] + s)[1] == s[0];
        LessTotal(key(s[0]), key(s[j]));
        if Less(key(s[j]), kx) && Less(key(s[0]), key(s[j])) {
          LessTransitive(key(s[0]), key(s[j]), kx);
        }
      }
      SortedCons(x, s, key);
    } else {
      InsertSortedDeep(x, s, key);
    }
  }

  lemma {:induction false} InsertSortedDeep<T>(x: T, s: seq<T>, key: T -> PyVal)
    requires SortedBy(s, key) && KeysHomogeneous([x] + s, key)
    requires |s| > 0 && Less(key(s[0]), key(x))
    ensures SortedBy(Insert(x, s, key), key)
    decreases |s|, 0
  {
    var t := s[1..];
    assert KeysHomogeneous([x] + t, key) by {
      assert forall i :: 1 <= i < |[x] + t| ==> ([x] + t)[i] == ([x] + s)[i + 1];
      assert ([x] + t)[0] == ([x] + s)[0];
    }
    assert SortedBy(t, key) by {
      assert forall i :: 0 <= i < |t| ==> t[i] == s[i + 1];
    }
    InsertSorted(x, t, key);
    var ins := Insert(x, t, key);
    InsertPermutes(x, t, key);
    forall j | 0 <= j < |ins| ensures !Less(key(ins[j]), key(s[0])) {
      var y := ins[j];
      assert y in multiset(ins);
      if y == x {
        if Less(key(x), key(s[0])) {
          LessTransitive(key(x), key(s[0]), key(x));
          LessIrreflexive(key(x));
        }
      } else {
        assert y in multiset(t);
        var i :| 0 <= i < |t| && t[i] == y;
        assert s[i + 1] == y;
      }
    }
    SortedCons(s[0], ins, key);
  }

  lemma {:induction false} SortBySorted<T>(s: seq<T>, key: T -> PyVal)
    requires KeysHomogeneous(s, key)
    ensures SortedBy(SortBy(s, key), key)
  {
    if |s| > 0 {
      var t := s[1..];
      assert s == [s[0]] + t;
      assert KeysHomogeneous(t, key) by {
        assert forall i :: 0 <= i < |t| ==> t[i] == s[i + 1];
      }
      SortBySorted(t, key);
      var st := SortBy(t, key);
      SortByPermutes(t, key);
      assert multiset([s[0]] + st) == multiset(s) by {
        assert multiset([s[0]] + st) == multiset([s[0]]) + multiset(st);
        assert multiset(s) == multiset([s[0]]) + multiset(t);
      }
      KeysHomogeneousPermute([s[0]] + st, s, key);
      InsertSorted(s[0], st, key);
    }
  }

  /** A rearrangement of keys that are all `int`s, or all `str`s, still is. */
  lemma KeysHomogeneousPermute<T>(a: seq<T>, b: seq<T>, key: T -> PyVal)
    requires multiset(a) == multiset(b) && KeysHomogeneous(b, key)
    ensures KeysHomogeneous(a, key)
  {
    forall i | 0 <= i < |a| ensures exists j :: 0 <= j < |b| && b[j] == a[i] {
      assert a[i] in multiset(b);
    }
  }

  lemma {:induction false} InsertWithKey<T>(x: T, s: seq<T>, key: T -> PyVal, k: PyVal)
    ensures WithKey(Insert(x, s, key), key, k) == (if key(x) == k then [x] else []) + WithKey(s, key, k)
  {
    if |s| == 0 || !Less(key(s[0]), key(x)) {
      WithKeyCons(x, s, key, k);
    } else {
      InsertWithKey(x, s[1..], key, k);
      WithKeyCons(s[0], Insert(x, s[1..], key), key, k);
      LessIrreflexive(key(x));
      SwapUnits(if key(s[0]) == k then [s[0]] else [], if key(x) == k then [x] else [], WithKey(s[1..], key, k));
    }
  }

  lemma WithKeyCons<T>(y: T, t: seq<T>, key: T -> PyVal, k: PyVal)
    ensures WithKey([y] + t, key, k) == (if key(y) == k then [y] else []) + WithKey(t, key, k)
  {
    assert ([y] + t)[1..] == t;
  }

  /** Two parts of which at least one is empty can trade places. */
  lemma SwapUnits<T>(a: seq<T>, b: seq<T>, c: seq<T>)
    requires |a| == 0 || |b| == 0
    ensures a + (b + c) == b + (a + c)
  {
    if |a| == 0 {
      assert a + (b + c) == b + c;
      assert a + c == c;
    } else {
      assert b + (a + c) == a + c;
      assert b + c == c;
    }
  }

  /** Stability: the elements sharing a key keep their relative order. */
  lemma {:induction false} SortByStable<T>(s: seq<T>, key: T -> PyVal, k: PyVal)
    ensures WithKey(SortBy(s, key), key, k) == WithKey(s, key, k)
  {
    if |s| > 0 {
      SortByStable(s[1..], key, k);
      InsertWithKey(s[0], SortBy(s[1..], key), key, k);
    }
  }

  /** Mapping by a function that keeps every key commutes with picking out the elements of one key. */
  lemma {:induction false} WithKeyMap<T>(s: seq<T>, key: T -> PyVal, f: T -> T, k: PyVal)
    requires forall x :: key(f(x)) == key(x)
    ensures WithKey(MapSeq(s, f), key, k) == MapSeq(WithKey(s, key, k), f)
  {
    if |s| > 0 {
      assert MapSeq(s, f)[1..] == MapSeq(s[1..], f);
      WithKeyMap(s[1..], key, f, k);
      var h := if key(s[0]) == k then [s[0]] else [];
      MapAppend(h, WithKey(s[1..], key, k), f);
    }
  }

  /** `sorted(s, key=key)`: `TypeError` exactly when the keys mix `int`s and `str`s (any correct
      comparison sort compares the two neighbours of the output where the kinds change); otherwise
      an ascending, stable rearrangement of `s`. */
  function PySorted<T(==)>(s: seq<T>, key: T -> PyVal): (r: Result<seq<T>>)
    ensures r.Success? <==> KeysHomogeneous(s, key)
    ensures r.Failure? ==> r.error == TypeError
    ensures r.Success? ==> SortedBy(r.value, key)
    ensures r.Success? ==> multiset(r.value) == multiset(s)
    ensures r.Success? ==> forall k :: WithKey(r.value, key, k) == WithKey(s, key, k)
  {
    if KeysHomogeneous(s, key) then
      SortBySorted(s, key);
      SortByPermutes(s, key);
      forall k ensures WithKey(SortBy(s, key), key, k) == WithKey(s, key, k) {
        SortByStable(s, key, k);
      }
      Success(SortBy(s, key))
    else Failure(TypeError)
  }
}
