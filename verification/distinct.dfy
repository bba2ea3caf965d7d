/**
  First-occurrence deduplication, as `[...new Set(xs)]` does it: a JavaScript
  Set remembers the order in which its elements were first inserted, so
  spreading it back into an array keeps the first copy of every element and
  drops the later ones.
 */
module Distinct {

  /** No element occurs twice. */
  predicate NoDuplicates<T(==)>(s: seq<T>) {
    forall i, j :: 0 <= i < j < |s| ==> s[i] != s[j]
  }

  /** The position of the first occurrence of `x` in `s`. */
  function IndexOf<T(==)>(s: seq<T>, x: T): (k: nat)
    requires x in s
    ensures k < |s| && s[k] == x
    ensures forall j :: 0 <= j < k ==> s[j] != x
  {
    if s[0] == x then 0 else 1 + IndexOf(s[1..], x)
  }

  /**
    The elements of `s` in the order of their first occurrence: the sequence
    a Set holds after the elements of `s` were added to it one by one.
   */
  function Dedup<T(==)>(s: seq<T>): (d: seq<T>)
    ensures NoDuplicates(d)
    ensures forall i :: 0 <= i < |d| ==> d[i] in s
    ensures forall i :: 0 <= i < |s| ==> s[i] in d
    ensures |d| <= |s|
  {
    if s == [] then []
    else
      var d := Dedup(s[..|s| - 1]);
      if s[|s| - 1] in d then d else d + [s[|s| - 1]]
  }

  /** Appending an element does not move the first occurrence of any other. */
  lemma IndexOfAppend<T>(s: seq<T>, x: T, w: T)
    requires w in s + [x]
    ensures w in s ==> IndexOf(s + [x], w) == IndexOf(s, w)
    ensures w !in s ==> IndexOf(s + [x], w) == |s|
  {
    var k := IndexOf(s + [x], w);
    if w in s {
      var k' := IndexOf(s, w);
      assert (s + [x])[k'] == w;
    } else {
      assert (s + [x])[|s|] == w;
    }
  }

  /**
    Dedup keeps first-seen order: `u` comes before `v` in the deduplicated
    sequence exactly when the first occurrence of `u` in `s` comes before the
    first occurrence of `v`.
   */
  lemma {:induction false} DedupFirstSeenOrder<T>(s: seq<T>, u: T, v: T)
    requires u in s && v in s
    ensures IndexOf(Dedup(s), u) < IndexOf(Dedup(s), v) <==> IndexOf(s, u) < IndexOf(s, v)
  {
    var p, x := s[..|s| - 1], s[|s| - 1];
    assert s == p + [x];
    var dp := Dedup(p);
    if x in dp {
      assert Dedup(s) == dp;
      DedupFirstSeenOrder(p, u, v);
      IndexOfAppend(p, x, u);
      IndexOfAppend(p, x, v);
    } else {
      assert Dedup(s) == dp + [x];
      IndexOfAppend(p, x, u);
      IndexOfAppend(p, x, v);
      IndexOfAppend(dp, x, u);
      IndexOfAppend(dp, x, v);
      if u in p && v in p {
        DedupFirstSeenOrder(p, u, v);
      }
    }
  }

  /** The loop behind `[...new Set(xs)]`: insert each element once, in order. */
  method DistinctInOrder<T(==)>(xs: seq<T>) returns (out: seq<T>)
    ensures out == Dedup(xs)
    ensures NoDuplicates(out)
    ensures forall x :: x in out <==> x in xs
  {
    var seen: set<T> := {};
    out := [];
    for k := 0 to |xs|
      invariant out == Dedup(xs[..k])
      invariant forall x :: x in seen <==> x in out
    {
      assert xs[..k + 1][..k] == xs[..k];
      if xs[k] !in seen {
        seen := seen + {xs[k]};
        out := out + [xs[k]];
      }
    }
    assert xs[..|xs|] == xs;
  }
}
