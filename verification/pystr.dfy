/** The `str` operations of Python 3 that the modelled code uses, over `seq<char>`. */
module PyStr {
  import opened Chars

  predicate NoSpace(s: string)
  {
    forall i :: 0 <= i < |s| ==> !IsSpace(s[i])
  }

  predicate HasNonSpace(s: string)
  {
    exists i :: 0 <= i < |s| && !IsSpace(s[i])
  }

  /** `s.replace(a, b)` for one-character `a` and `b`. */
  function ReplaceChar(s: string, a: char, b: char): (r: string)
    ensures |r| == |s|
    ensures forall i :: 0 <= i < |s| ==> r[i] == (if s[i] == a then b else s[i])
  {
    seq(|s|, i requires 0 <= i < |s| => if s[i] == a then b else s[i])
  }

  /** `s.replace(a, sep)` for a one-character `a` and any replacement string `sep`. */
  function ReplaceWith(s: string, a: char, sep: string): (r: string)
  {
    if |s| == 0 then []
    else (if s[0] == a then sep else [s[0]]) + ReplaceWith(s[1..], a, sep)
  }

  /** Number of occurrences of `a` in `s`. */
  function Count(s: string, a: char): nat
  {
    if |s| == 0 then 0 else (if s[0] == a then 1 else 0) + Count(s[1..], a)
  }

  /** Every occurrence of `a` is replaced and nothing else is: the length grows by `|sep| - 1` per occurrence. */
  lemma {:induction false} ReplaceWithLength(s: string, a: char, sep: string)
    ensures |ReplaceWith(s, a, sep)| == |s| + Count(s, a) * (|sep| - 1)
  {
    if |s| > 0 {
      ReplaceWithLength(s[1..], a, sep);
      if s[0] == a {
        MulSucc(Count(s[1..], a), |sep| - 1);
      }
    }
  }

  lemma MulSucc(c: int, k: int)
    ensures (c + 1) * k == c * k + k
  {
  }

  /** No occurrence of `a` survives unless the replacement brings it in. */
  lemma {:induction false} ReplaceWithRemoves(s: string, a: char, sep: string)
    ensures a !in sep ==> a !in ReplaceWith(s, a, sep)
  {
    if |s| > 0 {
      ReplaceWithRemoves(s[1..], a, sep);
    }
  }

  /** With a one-character replacement absent from `s`, replacing back restores `s`. */
  lemma {:induction false} ReplaceWithInverse(s: string, a: char, d: char)
    requires d !in s
    ensures ReplaceChar(ReplaceWith(s, a, [d]), d, a) == s
  {
    if |s| > 0 {
      assert d !in s[1..];
      ReplaceWithInverse(s[1..], a, d);
      var x := if s[0] == a then d else s[0];
      assert ReplaceWith(s, a, [d]) == [x] + ReplaceWith(s[1..], a, [d]);
      ReplaceCharCons(x, ReplaceWith(s[1..], a, [d]), d, a);
      SplitHead(s);
    }
  }

  /** `replace` on a string with a first character handles that character and then the rest. */
  lemma ReplaceCharCons(x: char, t: string, a: char, b: char)
    ensures ReplaceChar([x] + t, a, b) == [if x == a then b else x] + ReplaceChar(t, a, b)
  {
  }

  lemma SplitHead(s: string)
    requires |s| > 0
    ensures s == [s[0]] + s[1..]
  {
  }

  /** Replacing a character that does not occur changes nothing. */
  lemma {:induction false} ReplaceWithAbsent(s: string, a: char, sep: string)
    requires a !in s
    ensures ReplaceWith(s, a, sep) == s
  {
    if |s| > 0 {
      assert a !in s[1..];
      ReplaceWithAbsent(s[1..], a, sep);
    }
  }

  /** `s.lower()`, character by character. */
  function LowerStr(s: string): (r: string)
    ensures |r| == |s|
    ensures forall i :: 0 <= i < |s| ==> r[i] == Lower(s[i])
  {
    seq(|s|, i requires 0 <= i < |s| => Lower(s[i]))
  }

  /** Lowering keeps whitespace, `_` and `-` where they are and creates none. */
  lemma LowerStrKeepsClass(s: string)
    ensures forall i :: 0 <= i < |s| ==> (IsSpace(LowerStr(s)[i]) <==> IsSpace(s[i]))
    ensures forall i :: 0 <= i < |s| ==> (LowerStr(s)[i] == '_' <==> s[i] == '_')
    ensures forall i :: 0 <= i < |s| ==> (LowerStr(s)[i] == '-' <==> s[i] == '-')
    ensures forall i :: 0 <= i < |s| && IsSpace(s[i]) ==> LowerStr(s)[i] == s[i]
  {
    forall i | 0 <= i < |s| {
      LowerKeepsClass(s[i]);
    }
  }

  lemma LowerStrIdempotent(s: string)
    ensures LowerStr(LowerStr(s)) == LowerStr(s)
  {
    forall i | 0 <= i < |s| ensures LowerStr(LowerStr(s))[i] == LowerStr(s)[i] {
      LowerIdempotent(s[i]);
    }
  }

  /** `s.lstrip()`: drops the leading whitespace and nothing more. */
  function LStrip(s: string): (r: string)
    ensures |r| <= |s| && r == s[|s| - |r|..]
    ensures forall k :: 0 <= k < |s| - |r| ==> IsSpace(s[k])
    ensures |r| == 0 || !IsSpace(r[0])
  {
    if |s| == 0 || !IsSpace(s[0]) then s else LStrip(s[1..])
  }

  /** `s.rstrip()`: drops the trailing whitespace and nothing more. */
  function RStrip(s: string): (r: string)
    ensures |r| <= |s| && r == s[..|r|]
    ensures forall k :: |r| <= k < |s| ==> IsSpace(s[k])
    ensures |r| == 0 || !IsSpace(r[|r| - 1])
  {
    if |s| == 0 || !IsSpace(s[|s| - 1]) then s else RStrip(s[..|s| - 1])
  }

  /** How many whitespace characters `s.lstrip()` removes. */
  function LeadingSpaces(s: string): nat
  {
    |s| - |LStrip(s)|
  }

  /** `s.strip()`: the part of `s` between its leading and trailing whitespace. */
  function Strip(s: string): (r: string)
    ensures LeadingSpaces(s) + |r| <= |s|
    ensures r == s[LeadingSpaces(s)..LeadingSpaces(s) + |r|]
    ensures forall k :: 0 <= k < LeadingSpaces(s) ==> IsSpace(s[k])
    ensures forall k :: LeadingSpaces(s) + |r| <= k < |s| ==> IsSpace(s[k])
    ensures |r| == 0 || (!IsSpace(r[0]) && !IsSpace(r[|r| - 1]))
  {
    RStrip(LStrip(s))
  }

  lemma StripNoSpace(s: string)
    requires NoSpace(s)
    ensures Strip(s) == s
  {
  }

  /** `re.sub(r'\s+', ' ', s)`: every maximal run of whitespace becomes one space. */
  function Collapse(s: string): (r: string)
    ensures |r| <= |s|
    ensures |r| == 0 <==> |s| == 0
    ensures |s| > 0 ==> (IsSpace(r[0]) <==> IsSpace(s[0]))
    decreases |s|
  {
    if |s| == 0 then []
    else if IsSpace(s[0]) then
      var rest := LStrip(s);
      assert |rest| < |s|;
      [' '] + Collapse(rest)
    else [s[0]] + Collapse(s[1..])
  }

  /** The characters of `s` that are not whitespace, in order. */
  function NonSpaces(s: string): (r: string)
    ensures NoSpace(r)
  {
    if |s| == 0 then [] else (if IsSpace(s[0]) then [] else [s[0]]) + NonSpaces(s[1..])
  }

  lemma {:induction false} NonSpacesMember(s: string, c: char)
    requires !IsSpace(c)
    ensures c in NonSpaces(s) <==> c in s
  {
    if |s| > 0 {
      NonSpacesMember(s[1..], c);
      assert s == [s[0]] + s[1..];
    }
  }

  lemma {:induction false} NonSpacesLStrip(s: string)
    ensures NonSpaces(LStrip(s)) == NonSpaces(s)
  {
    if |s| > 0 && IsSpace(s[0]) {
      NonSpacesLStrip(s[1..]);
    }
  }

  /** Collapsing keeps every non-whitespace character, in order, and adds none. */
  lemma {:induction false} CollapseKeepsText(s: string)
    ensures NonSpaces(Collapse(s)) == NonSpaces(s)
    decreases |s|
  {
    if |s| > 0 {
      if IsSpace(s[0]) {
        var rest := LStrip(s);
        CollapseKeepsText(rest);
        NonSpacesLStrip(s);
        assert ([' '] + Collapse(rest))[1..] == Collapse(rest);
      } else {
        CollapseKeepsText(s[1..]);
        assert ([s[0]] + Collapse(s[1..]))[1..] == Collapse(s[1..]);
      }
    }
  }

  /** A character that is not whitespace occurs in the collapsed text exactly when it occurs in the text. */
  lemma CollapseMember(s: string, c: char)
    requires !IsSpace(c)
    ensures c in Collapse(s) <==> c in s
  {
    CollapseKeepsText(s);
    NonSpacesMember(s, c);
    NonSpacesMember(Collapse(s), c);
  }

  /** `strip()` brings in no character. */
  lemma StripKeeps(s: string, c: char)
    requires c !in s
    ensures c !in Strip(s)
  {
    var k := LeadingSpaces(s);
    var r := Strip(s);
    forall i | 0 <= i < |r| ensures r[i] != c {
      assert r[i] == s[k + i];
    }
  }

  /** The only whitespace in `r` is single `' '` characters. */
  predicate SingleSpaces(r: string)
  {
    && (forall i :: 0 <= i < |r| && IsSpace(r[i]) ==> r[i] == ' ')
    && (forall i :: 0 <= i < |r| - 1 ==> !IsSpace(r[i]) || !IsSpace(r[i + 1]))
  }

  /** The only whitespace left after collapsing is single `' '` characters. */
  lemma {:induction false} CollapseSpaces(s: string)
    ensures SingleSpaces(Collapse(s))
    decreases |s|
  {
    if |s| > 0 {
      if IsSpace(s[0]) {
        var rest := LStrip(s);
        CollapseSpaces(rest);
        SingleSpacesCons(' ', Collapse(rest));
      } else {
        CollapseSpaces(s[1..]);
        SingleSpacesCons(s[0], Collapse(s[1..]));
      }
    }
  }

  lemma SingleSpacesCons(c: char, t: string)
    requires SingleSpaces(t)
    requires IsSpace(c) ==> c == ' ' && (|t| == 0 || !IsSpace(t[0]))
    ensures SingleSpaces([c] + t)
  {
    var r := [c] + t;
    assert forall i :: 1 <= i < |r| ==> r[i] == t[i - 1];
  }

  /** Text without whitespace is left as it is. */
  lemma {:induction false} CollapseNoSpace(s: string)
    requires NoSpace(s)
    ensures Collapse(s) == s
  {
    if |s| > 0 {
      CollapseNoSpace(s[1..]);
      assert s == [s[0]] + s[1..];
    }
  }

  /** Collapsing twice is collapsing once. */
  lemma {:induction false} CollapseIdempotent(s: string)
    ensures Collapse(Collapse(s)) == Collapse(s)
    decreases |s|
  {
    if |s| > 0 {
      var r := Collapse(s);
      if IsSpace(s[0]) {
        var rest := LStrip(s);
        var t := Collapse(rest);
        CollapseIdempotent(rest);
        assert r == [' '] + t;
        assert LStrip(r) == t by {
          assert r[1..] == t;
          assert |t| == 0 || !IsSpace(t[0]);
        }
      } else {
        CollapseIdempotent(s[1..]);
        assert r[1..] == Collapse(s[1..]);
      }
    }
  }
}
