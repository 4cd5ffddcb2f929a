/**
 * Order-preserving selection over sequences, the shape shared by
 * `Array.prototype.filter` and every verse filter of the core.
 */
module Seqs {
  import opened Wrappers

  /** `s.filter(p)`: the elements satisfying `p`, in their original order. */
  function Filter<T(==)>(s: seq<T>, p: T -> bool): (r: seq<T>)
    ensures |r| <= |s|
    ensures forall x :: x in r ==> x in s && p(x)
    ensures forall i :: 0 <= i < |s| && p(s[i]) ==> s[i] in r
  {
    if |s| == 0 then []
    else if p(s[0]) then [s[0]] + Filter(s[1..], p)
    else Filter(s[1..], p)
  }

  /** Strictly increasing positions, each inside `s`. */
  predicate IsIndexChain(idx: seq<nat>, n: nat) {
    && (forall k :: 0 <= k < |idx| ==> idx[k] < n)
    && (forall k, l :: 0 <= k < l < |idx| ==> idx[k] < idx[l])
  }

  /** The positions `from` and after whose element satisfies `p`, in increasing order. */
  function KeptFrom<T>(s: seq<T>, p: T -> bool, from: nat): (idx: seq<nat>)
    requires from <= |s|
    ensures forall k :: 0 <= k < |idx| ==> from <= idx[k]
    ensures IsIndexChain(idx, |s|)
    ensures forall i :: from <= i < |s| ==> (p(s[i]) <==> i in idx)
    decreases |s| - from
  {
    if from == |s| then []
    else if p(s[from]) then [from] + KeptFrom(s, p, from + 1)
    else KeptFrom(s, p, from + 1)
  }

  /** The positions of `s` whose element satisfies `p`, in increasing order. */
  function Kept<T>(s: seq<T>, p: T -> bool): (idx: seq<nat>)
    ensures IsIndexChain(idx, |s|)
    ensures forall i :: 0 <= i < |s| ==> (p(s[i]) <==> i in idx)
  {
    KeptFrom(s, p, 0)
  }

  /**
   * Filter keeps exactly the elements at the positions `Kept` lists, in that
   * order: the result is the subsequence of `s` made of its `p`-elements.
   */
  lemma FilterIsSubsequence<T>(s: seq<T>, p: T -> bool)
    ensures |Filter(s, p)| == |Kept(s, p)|
    ensures forall k :: 0 <= k < |Filter(s, p)| ==> Filter(s, p)[k] == s[Kept(s, p)[k]]
  {
    FilterFromIsSubsequence(s, p, 0);
    assert s[0..] == s;
  }

  lemma {:induction false} FilterFromIsSubsequence<T>(s: seq<T>, p: T -> bool, from: nat)
    requires from <= |s|
    ensures |Filter(s[from..], p)| == |KeptFrom(s, p, from)|
    ensures forall k :: 0 <= k < |Filter(s[from..], p)| ==>
      Filter(s[from..], p)[k] == s[KeptFrom(s, p, from)[k]]
    decreases |s| - from
  {
    if from < |s| {
      var t := s[from..];
      assert t[0] == s[from];
      assert t[1..] == s[from + 1..];
      FilterFromIsSubsequence(s, p, from + 1);
      var rest := Filter(s[from + 1..], p);
      var restIdx := KeptFrom(s, p, from + 1);
      if p(s[from]) {
        assert Filter(t, p) == [s[from]] + rest;
        assert KeptFrom(s, p, from) == [from] + restIdx;
      } else {
        assert Filter(t, p) == rest;
        assert KeptFrom(s, p, from) == restIdx;
      }
    }
  }

  /** A predicate that holds everywhere keeps the whole sequence. */
  lemma {:induction false} FilterAll<T>(s: seq<T>, p: T -> bool)
    requires forall i :: 0 <= i < |s| ==> p(s[i])
    ensures Filter(s, p) == s
  {
    if |s| > 0 {
      FilterAll(s[1..], p);
    }
  }

  /** A predicate that holds nowhere keeps nothing. */
  lemma {:induction false} FilterNone<T>(s: seq<T>, p: T -> bool)
    requires forall i :: 0 <= i < |s| ==> !p(s[i])
    ensures Filter(s, p) == []
  {
    if |s| > 0 {
      FilterNone(s[1..], p);
    }
  }

  /** Predicates that agree on `s` select the same elements. */
  lemma {:induction false} FilterCongruent<T>(s: seq<T>, p: T -> bool, q: T -> bool)
    requires forall i :: 0 <= i < |s| ==> p(s[i]) == q(s[i])
    ensures Filter(s, p) == Filter(s, q)
  {
    if |s| > 0 {
      FilterCongruent(s[1..], p, q);
    }
  }

  predicate NoDuplicates<T(==)>(s: seq<T>) {
    forall i, j :: 0 <= i < j < |s| ==> s[i] != s[j]
  }

  /** Appending an element not already present keeps a sequence duplicate-free. */
  lemma NoDuplicatesAppend<T>(s: seq<T>, x: T)
    requires NoDuplicates(s) && x !in s
    ensures NoDuplicates(s + [x])
  {
  }

  /** The least position in `[from, bound)` satisfying `p`, if any. */
  function FirstWhere(p: nat -> bool, from: nat, bound: nat): (r: Option<nat>)
    requires from <= bound
    ensures r.Some? ==> from <= r.value < bound && p(r.value)
    ensures r.Some? ==> forall j :: from <= j < r.value ==> !p(j)
    ensures r.None? ==> forall j :: from <= j < bound ==> !p(j)
    decreases bound - from
  {
    if from == bound then None
    else if p(from) then Some(from)
    else FirstWhere(p, from + 1, bound)
  }
}
