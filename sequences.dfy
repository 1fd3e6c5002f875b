/** Prefix selection and reversed concatenation over sequences: the slice
    loops of `onlyThoseBefore`, `GetActivity` and the `String` methods of
    the activity lists, stated once for any element type. */
module Sequences {

  /** The longest prefix of `s` whose last element satisfies `p`, found by
      scanning from the end; empty when no element satisfies `p`. */
  function TrimAfterLast<T>(s: seq<T>, p: T -> bool): (r: seq<T>)
    ensures |r| <= |s| && r == s[..|r|]
    ensures |r| > 0 ==> p(s[|r| - 1])
    ensures forall i :: |r| <= i < |s| ==> !p(s[i])
  {
    if |s| == 0 then []
    else if p(s[|s| - 1]) then s
    else TrimAfterLast(s[..|s| - 1], p)
  }

  /** The renderings of the elements of `s`, first element first: what a
      loop writing each rendering to a buffer produces. */
  function Concat<T>(s: seq<T>, render: T -> string): string
    decreases |s|
  {
    if |s| == 0 then "" else Concat(s[..|s| - 1], render) + render(s[|s| - 1])
  }

  /** `ConcatContains` for a concatenation written between a header and a
      trailer. */
  lemma FramedConcatContains<T>(header: string, s: seq<T>, render: T -> string, trailer: string, i: int)
    requires 0 <= i < |s|
    ensures var at := |header| + |Concat(s[..i], render)|;
      var whole := header + Concat(s, render) + trailer;
      && at + |render(s[i])| <= |whole|
      && whole[at..at + |render(s[i])|] == render(s[i])
  {
    var body := Concat(s, render);
    var at := |Concat(s[..i], render)|;
    ConcatContains(s, render, i);
    MiddleSlice(header, body, trailer, at, at + |render(s[i])|);
  }

  /** A slice of the middle part of a concatenation. */
  lemma MiddleSlice<T>(a: seq<T>, b: seq<T>, c: seq<T>, lo: int, hi: int)
    requires 0 <= lo <= hi <= |b|
    ensures (a + b + c)[|a| + lo..|a| + hi] == b[lo..hi]
  {
    var s := a + b + c;
    var mid := s[|a| + lo..|a| + hi];
    forall k | 0 <= k < hi - lo
      ensures mid[k] == b[lo..hi][k]
    {
      assert mid[k] == s[|a| + lo + k];
    }
  }

  /** One more step of the writing loop. */
  lemma ConcatSnoc<T>(s: seq<T>, i: int, render: T -> string)
    requires 0 <= i < |s|
    ensures Concat(s[..i + 1], render) == Concat(s[..i], render) + render(s[i])
  {
    assert s[..i + 1][..i] == s[..i];
  }

  lemma {:induction false} ConcatAppend<T>(s: seq<T>, t: seq<T>, render: T -> string)
    ensures Concat(s + t, render) == Concat(s, render) + Concat(t, render)
    decreases |t|
  {
    if |t| == 0 {
      assert s + t == s;
    } else {
      var n := |t| - 1;
      assert (s + t)[..|s + t| - 1] == s + t[..n];
      ConcatAppend(s, t[..n], render);
    }
  }

  /** The rendering of each element occurs in the concatenation, after
      those of the elements before it. */
  lemma ConcatContains<T>(s: seq<T>, render: T -> string, i: int)
    requires 0 <= i < |s|
    ensures var before := |Concat(s[..i], render)|;
      && before + |render(s[i])| <= |Concat(s, render)|
      && Concat(s, render)[before..before + |render(s[i])|] == render(s[i])
  {
    assert s == s[..i] + [s[i]] + s[i + 1..];
    ConcatAppend(s[..i] + [s[i]], s[i + 1..], render);
    ConcatAppend(s[..i], [s[i]], render);
    assert [s[i]][..0] == [];
    assert Concat([s[i]], render) == render(s[i]);
  }

  /** The renderings of the elements of `s`, last element first. */
  function ConcatReversed<T>(s: seq<T>, render: T -> string): string {
    if |s| == 0 then "" else ConcatReversed(s[1..], render) + render(s[0])
  }

  /** Rendering a concatenation emits the second part first. */
  lemma {:induction false} ConcatReversedAppend<T>(s: seq<T>, t: seq<T>, render: T -> string)
    ensures ConcatReversed(s + t, render) == ConcatReversed(t, render) + ConcatReversed(s, render)
  {
    if |s| > 0 {
      assert (s + t)[1..] == s[1..] + t;
      ConcatReversedAppend(s[1..], t, render);
    } else {
      assert s + t == t;
    }
  }

  /** The last element of a non-empty sequence is emitted first. */
  lemma ConcatReversedLastFirst<T>(s: seq<T>, render: T -> string)
    requires |s| > 0
    ensures ConcatReversed(s, render) == render(s[|s| - 1]) + ConcatReversed(s[..|s| - 1], render)
  {
    var last := s[|s| - 1];
    assert s == s[..|s| - 1] + [last];
    ConcatReversedAppend(s[..|s| - 1], [last], render);
    assert [last][1..] == [];
    assert ConcatReversed([last], render) == render(last);
  }

  /** The buffer loop shared by both `Activities.String` methods: writes
      the elements' renderings from the last element to the first. */
  method WriteReversed<T>(s: seq<T>, render: T -> string) returns (out: string)
    ensures out == ConcatReversed(s, render)
  {
    out := "";
    var i := |s|;
    while i > 0
      invariant 0 <= i <= |s|
      invariant out == ConcatReversed(s[i..], render)
    {
      assert s[i - 1..][1..] == s[i..];
      out := out + render(s[i - 1]);
      i := i - 1;
    }
  }

  /** The elements of `s` that satisfy `p`, in their order in `s`: what a
      loop appending the selected elements to a slice builds. */
  function Filter<T(!new)>(s: seq<T>, p: T -> bool): (r: seq<T>)
    ensures |r| <= |s|
    ensures forall x :: x in r <==> x in s && p(x)
    decreases |s|
  {
    if |s| == 0 then []
    else
      assert s == s[..|s| - 1] + [s[|s| - 1]];
      Filter(s[..|s| - 1], p) + (if p(s[|s| - 1]) then [s[|s| - 1]] else [])
  }

  /** One more step of the selecting loop. */
  lemma FilterSnoc<T(!new)>(s: seq<T>, i: int, p: T -> bool)
    requires 0 <= i < |s|
    ensures Filter(s[..i + 1], p) == Filter(s[..i], p) + (if p(s[i]) then [s[i]] else [])
  {
    assert s[..i + 1][..i] == s[..i];
  }

  lemma {:induction false} FilterAppend<T(!new)>(s: seq<T>, t: seq<T>, p: T -> bool)
    ensures Filter(s + t, p) == Filter(s, p) + Filter(t, p)
    decreases |t|
  {
    if |t| == 0 {
      assert s + t == s;
    } else {
      var n := |t| - 1;
      var tail := if p(t[n]) then [t[n]] else [];
      assert (s + t)[..|s + t| - 1] == s + t[..n];
      assert (s + t)[|s + t| - 1] == t[n];
      FilterAppend(s, t[..n], p);
      AppendAssoc(Filter(s, p), Filter(t[..n], p), tail);
    }
  }

  lemma FilterSingle<T(!new)>(x: T, p: T -> bool)
    ensures Filter([x], p) == if p(x) then [x] else []
  {
    assert [x][..0] == [];
  }

  lemma AppendAssoc<T>(a: seq<T>, b: seq<T>, c: seq<T>)
    ensures a + (b + c) == (a + b) + c
  {
  }

  /** Regrouping a chain of five concatenations after its first and its
      second link. */
  lemma Reassoc5<T>(a: seq<T>, b: seq<T>, c: seq<T>, d: seq<T>, e: seq<T>)
    ensures a + b + c + d + e == a + (b + c + d + e)
    ensures b + c + d + e == b + (c + d + e)
  {
  }

  /** Equal concatenations with equally long heads have equal heads and
      equal tails. */
  lemma EqualHeads<T>(x1: seq<T>, y1: seq<T>, x2: seq<T>, y2: seq<T>)
    requires |x1| == |x2| && x1 + y1 == x2 + y2
    ensures x1 == x2 && y1 == y2
  {
    assert x1 == (x1 + y1)[..|x1|];
    assert y1 == (x1 + y1)[|x1|..];
  }

  /** Slicing at `a + b` is slicing at `a`, then at `b` in what follows. */
  lemma SliceSplit<T>(s: seq<T>, a: nat, b: nat)
    requires a + b <= |s|
    ensures s[..a + b] == s[..a] + s[a..][..b]
    ensures s[a + b..] == s[a..][b..]
  {
  }

  /** Slicing a concatenation within its first part. */
  lemma AppendSlices<T>(s: seq<T>, t: seq<T>, n: nat)
    requires n <= |s|
    ensures (s + t)[..n] == s[..n]
    ensures (s + t)[n..] == s[n..] + t
  {
  }

  /** A non-empty sequence is its front followed by its last element. */
  lemma LastSplit<T>(s: seq<T>)
    requires |s| > 0
    ensures s[..|s| - 1] + [s[|s| - 1]] == s
  {
  }

  /** Nothing is selected when no element qualifies. */
  lemma {:induction false} FilterNone<T(!new)>(s: seq<T>, p: T -> bool)
    requires forall i :: 0 <= i < |s| ==> !p(s[i])
    ensures Filter(s, p) == []
    decreases |s|
  {
    if |s| > 0 {
      var n := |s| - 1;
      assert forall i :: 0 <= i < n ==> s[..n][i] == s[i];
      FilterNone(s[..n], p);
    }
  }

  /** Everything is selected when every element qualifies. */
  lemma {:induction false} FilterAll<T(!new)>(s: seq<T>, p: T -> bool)
    requires forall i :: 0 <= i < |s| ==> p(s[i])
    ensures Filter(s, p) == s
    decreases |s|
  {
    if |s| > 0 {
      var n := |s| - 1;
      assert forall i :: 0 <= i < n ==> s[..n][i] == s[i];
      FilterAll(s[..n], p);
      LastSplit(s);
    }
  }

  /** Selecting twice is selecting by both conditions. */
  lemma {:induction false} FilterFilter<T(!new)>(s: seq<T>, p: T -> bool, q: T -> bool, both: T -> bool)
    requires forall i :: 0 <= i < |s| ==> both(s[i]) == (p(s[i]) && q(s[i]))
    ensures Filter(Filter(s, p), q) == Filter(s, both)
    decreases |s|
  {
    if |s| > 0 {
      var n := |s| - 1;
      assert forall i :: 0 <= i < n ==> s[..n][i] == s[i];
      FilterFilter(s[..n], p, q, both);
      if p(s[n]) {
        assert Filter(s, p) == Filter(s[..n], p) + [s[n]];
        FilterAppend(Filter(s[..n], p), [s[n]], q);
        FilterSingle(s[n], q);
      } else {
        assert Filter(s, p) == Filter(s[..n], p);
      }
    }
  }

  /** A sequence without repetitions that enumerates a set has the set's
      size. */
  lemma {:induction false} DistinctCardinality<T>(s: seq<T>, elems: set<T>)
    requires forall i, j :: 0 <= i < j < |s| ==> s[i] != s[j]
    requires forall x :: x in s <==> x in elems
    ensures |s| == |elems|
    decreases |s|
  {
    if |s| > 0 {
      var n := |s| - 1;
      var last := s[n];
      var init := s[..n];
      forall x
        ensures x in init <==> x in elems - {last}
      {
        if x in init {
          var j :| 0 <= j < n && init[j] == x;
          assert s[j] == x;
        }
        if x in elems - {last} {
          var j :| 0 <= j < |s| && s[j] == x;
          assert j != n;
          assert init[j] == x;
        }
      }
      DistinctCardinality(init, elems - {last});
    }
  }
}
