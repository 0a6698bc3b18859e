/** Order-preserving selection from a sequence: the shape shared by
    `lines().filter(..).collect()` and by the walk loop that keeps only the
    regular files. */
module Seqs {

  /** The elements of `s` that satisfy `p`, in their original order. */
  function Filter<T>(s: seq<T>, p: T -> bool): (r: seq<T>)
    ensures |r| <= |s|
    ensures forall k :: 0 <= k < |r| ==> p(r[k]) && r[k] in s
  {
    if s == [] then []
    else (if p(s[0]) then [s[0]] else []) + Filter(s[1..], p)
  }

  /** `a` can be obtained from `b` by deleting elements. */
  predicate IsSubsequence<T(==)>(a: seq<T>, b: seq<T>)
    decreases |b|
  {
    a == [] || (b != [] && ((a[0] == b[0] && IsSubsequence(a[1..], b[1..])) || IsSubsequence(a, b[1..])))
  }

  /** The positions of `s` whose element satisfies `p`, in increasing order,
      counted from `from`. */
  function Positions<T>(s: seq<T>, p: T -> bool, from: nat): (idx: seq<nat>)
    ensures |idx| == |Filter(s, p)|
    ensures forall k :: 0 <= k < |idx| ==> from <= idx[k] < from + |s|
  {
    if s == [] then []
    else (if p(s[0]) then [from] else []) + Positions(s[1..], p, from + 1)
  }

  /** Filter keeps exactly the positions of `s` whose element satisfies `p`,
      in increasing order: `idx` lists them, and the result is `s` read at `idx`. */
  lemma FilterSelects<T>(s: seq<T>, p: T -> bool) returns (idx: seq<nat>)
    ensures |idx| == |Filter(s, p)|
    ensures forall k :: 0 <= k < |idx| ==> idx[k] < |s| && Filter(s, p)[k] == s[idx[k]]
    ensures forall k, m :: 0 <= k < m < |idx| ==> idx[k] < idx[m]
    ensures forall j :: 0 <= j < |s| ==> (j in idx <==> p(s[j]))
  {
    idx := Positions(s, p, 0);
    PositionsRead(s, p, 0);
    PositionsIncrease(s, p, 0);
    PositionsComplete(s, p, 0);
  }

  lemma {:induction false} PositionsRead<T>(s: seq<T>, p: T -> bool, from: nat)
    ensures forall k :: 0 <= k < |Positions(s, p, from)| ==>
      Filter(s, p)[k] == s[Positions(s, p, from)[k] - from]
  {
    if s != [] {
      PositionsRead(s[1..], p, from + 1);
      var idx, rest, tail := Positions(s, p, from), Positions(s[1..], p, from + 1), Filter(s[1..], p);
      var h := if p(s[0]) then 1 else 0;
      assert idx == (if p(s[0]) then [from] else []) + rest;
      assert Filter(s, p) == (if p(s[0]) then [s[0]] else []) + tail;
      forall k | h <= k < |idx|
        ensures Filter(s, p)[k] == s[idx[k] - from]
      {
        assert idx[k] == rest[k - h];
        assert Filter(s, p)[k] == tail[k - h];
      }
    }
  }

  lemma {:induction false} PositionsIncrease<T>(s: seq<T>, p: T -> bool, from: nat)
    ensures forall k, m :: 0 <= k < m < |Positions(s, p, from)| ==> Positions(s, p, from)[k] < Positions(s, p, from)[m]
  {
    if s != [] {
      PositionsIncrease(s[1..], p, from + 1);
      var idx, rest := Positions(s, p, from), Positions(s[1..], p, from + 1);
      var h := if p(s[0]) then 1 else 0;
      assert idx == (if p(s[0]) then [from] else []) + rest;
      forall k, m | 0 <= k < m < |idx|
        ensures idx[k] < idx[m]
      {
        assert idx[m] == rest[m - h];
        if k >= h {
          assert idx[k] == rest[k - h];
        }
      }
    }
  }

  lemma {:induction false} PositionsComplete<T>(s: seq<T>, p: T -> bool, from: nat)
    ensures forall j :: 0 <= j < |s| ==> (from + j in Positions(s, p, from) <==> p(s[j]))
  {
    if s != [] {
      PositionsComplete(s[1..], p, from + 1);
      var idx, rest := Positions(s, p, from), Positions(s[1..], p, from + 1);
      assert idx == (if p(s[0]) then [from] else []) + rest;
      assert from !in rest;
      forall j | 0 < j < |s|
        ensures from + j in idx <==> p(s[j])
      {
        assert s[j] == s[1..][j - 1];
        assert from + j == (from + 1) + (j - 1);
      }
    }
  }

  /** Filtering with a weaker predicate keeps everything the stronger one kept. */
  lemma {:induction false} FilterMonotone<T>(s: seq<T>, p: T -> bool, q: T -> bool)
    requires forall x :: x in s && p(x) ==> q(x)
    ensures IsSubsequence(Filter(s, p), Filter(s, q))
  {
    if s != [] {
      FilterMonotone(s[1..], p, q);
      var a, b := Filter(s[1..], p), Filter(s[1..], q);
      if p(s[0]) {
        assert Filter(s, p) == [s[0]] + a && Filter(s, q) == [s[0]] + b;
        assert ([s[0]] + a)[1..] == a && ([s[0]] + b)[1..] == b;
      } else if q(s[0]) {
        assert Filter(s, p) == a && Filter(s, q) == [s[0]] + b;
        assert ([s[0]] + b)[1..] == b;
        SkipHead(a, s[0], b);
      } else {
        assert Filter(s, p) == a && Filter(s, q) == b;
      }
    }
  }

  /** A subsequence of `b` is also one of `[x] + b`. */
  lemma SkipHead<T>(a: seq<T>, x: T, b: seq<T>)
    requires IsSubsequence(a, b)
    ensures IsSubsequence(a, [x] + b)
  {
    assert ([x] + b)[1..] == b;
  }

  /** When every element satisfies `p`, nothing is dropped. */
  lemma {:induction false} FilterKeepsAll<T>(s: seq<T>, p: T -> bool)
    requires forall x :: x in s ==> p(x)
    ensures Filter(s, p) == s
  {
    if s != [] {
      FilterKeepsAll(s[1..], p);
    }
  }
}
