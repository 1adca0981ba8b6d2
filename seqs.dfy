/**
 * Order-preserving filtering, the shape of every splice loop in the library:
 * walking an array and cutting out the elements that fail a test.
 */
module Seqs {

  /** The elements of `s` that pass `keep`, in their original order. */
  function Filter<T>(s: seq<T>, keep: T -> bool): seq<T>
    decreases |s|
  {
    if s == [] then []
    else Filter(s[..|s| - 1], keep) + (if keep(s[|s| - 1]) then [s[|s| - 1]] else [])
  }

  /** `r` is `s` with some elements left out and the rest in their original order. */
  ghost predicate IsSubsequence<T>(r: seq<T>, s: seq<T>) {
    exists idx: seq<nat> ::
      && |idx| == |r|
      && (forall i, j :: 0 <= i < j < |idx| ==> idx[i] < idx[j])
      && (forall i :: 0 <= i < |idx| ==> idx[i] < |s| && s[idx[i]] == r[i])
  }

  /** An element is kept exactly when it is in `s` and passes the test. */
  lemma {:induction false} FilterMembers<T>(s: seq<T>, keep: T -> bool)
    ensures forall x :: x in Filter(s, keep) <==> x in s && keep(x)
    decreases |s|
  {
    if s != [] {
      FilterMembers(s[..|s| - 1], keep);
      assert s == s[..|s| - 1] + [s[|s| - 1]];
    }
  }

  /** The positions of `s` that the filter keeps, in increasing order. */
  ghost function KeptPositions<T>(s: seq<T>, keep: T -> bool): (idx: seq<nat>)
    decreases |s|
    ensures |idx| == |Filter(s, keep)|
    ensures forall i, j :: 0 <= i < j < |idx| ==> idx[i] < idx[j]
    ensures forall i :: 0 <= i < |idx| ==> idx[i] < |s| && s[idx[i]] == Filter(s, keep)[i]
  {
    if s == [] then []
    else
      var init := s[..|s| - 1];
      var before := KeptPositions(init, keep);
      assert forall i :: 0 <= i < |before| ==> s[before[i]] == init[before[i]];
      if keep(s[|s| - 1]) then before + [|s| - 1] else before
  }

  /** The filter is an order-preserving subsequence of its input. */
  /** Every sequence is a subsequence of itself. */
  lemma SubsequenceSelf<T>(s: seq<T>)
    ensures IsSubsequence(s, s)
  {
    var idx: seq<nat> := seq(|s|, i requires 0 <= i < |s| => i);
    assert forall i :: 0 <= i < |idx| ==> s[idx[i]] == s[i];
  }

  lemma FilterIsSubsequence<T>(s: seq<T>, keep: T -> bool)
    ensures IsSubsequence(Filter(s, keep), s)
  {
    var idx := KeptPositions(s, keep);
    assert |idx| == |Filter(s, keep)|;
  }

  /** The filter is never longer than its input. */
  lemma {:induction false} FilterLength<T>(s: seq<T>, keep: T -> bool)
    ensures |Filter(s, keep)| <= |s|
    decreases |s|
  {
    if s != [] {
      FilterLength(s[..|s| - 1], keep);
    }
  }

  /** Filtering by two tests that agree on `s` gives the same result. */
  lemma {:induction false} FilterSame<T>(s: seq<T>, f: T -> bool, g: T -> bool)
    requires forall x :: x in s ==> f(x) == g(x)
    ensures Filter(s, f) == Filter(s, g)
    decreases |s|
  {
    if s != [] {
      assert forall y :: y in s[..|s| - 1] ==> y in s;
      FilterSame(s[..|s| - 1], f, g);
      assert s[|s| - 1] in s;
    }
  }

  /** Filtering twice is filtering once by both tests. */
  lemma {:induction false} FilterFilter<T>(s: seq<T>, f: T -> bool, g: T -> bool, h: T -> bool)
    requires forall x :: x in s ==> h(x) == (f(x) && g(x))
    ensures Filter(Filter(s, f), g) == Filter(s, h)
    decreases |s|
  {
    if s != [] {
      var init := s[..|s| - 1];
      assert forall y :: y in init ==> y in s;
      FilterFilter(init, f, g, h);
      var x := s[|s| - 1];
      assert x in s;
      var fi := Filter(init, f);
      if f(x) {
        assert Filter(s, f) == fi + [x];
        assert (fi + [x])[..|fi + [x]| - 1] == fi;
        assert Filter(fi + [x], g) == Filter(fi, g) + (if g(x) then [x] else []);
      } else {
        assert Filter(s, f) == fi;
      }
    }
  }

  /** Filtering one more element at the end. */
  lemma FilterSnoc<T>(s: seq<T>, x: T, keep: T -> bool)
    ensures Filter(s + [x], keep) == Filter(s, keep) + (if keep(x) then [x] else [])
  {
    assert (s + [x])[..|s|] == s;
  }

  /** The parts, in order, concatenated. */
  function Flatten<T>(parts: seq<seq<T>>): seq<T>
    decreases |parts|
  {
    if parts == [] then [] else Flatten(parts[..|parts| - 1]) + parts[|parts| - 1]
  }

  /** An element of the concatenation is an element of one of the parts. */
  lemma {:induction false} FlattenMember<T>(parts: seq<seq<T>>, x: T)
    ensures x in Flatten(parts) <==> exists k :: 0 <= k < |parts| && x in parts[k]
    decreases |parts|
  {
    if parts != [] {
      var n := |parts| - 1;
      var init := parts[..n];
      FlattenMember(init, x);
      assert forall k :: 0 <= k < n ==> init[k] == parts[k];
    }
  }

  /** One more part at the end. */
  lemma FlattenSnoc<T>(parts: seq<seq<T>>, p: seq<T>)
    ensures Flatten(parts + [p]) == Flatten(parts) + p
  {
    assert (parts + [p])[..|parts|] == parts;
  }

  /** `f` applied to each element, in order. */
  function MapSeq<A, B>(s: seq<A>, f: A -> B): (r: seq<B>)
    ensures |r| == |s|
    ensures forall k :: 0 <= k < |s| ==> r[k] == f(s[k])
    decreases |s|
  {
    if s == [] then [] else MapSeq(s[..|s| - 1], f) + [f(s[|s| - 1])]
  }

  /** Mapping one more element at the end. */
  lemma MapSeqSnoc<A, B>(s: seq<A>, i: nat, f: A -> B)
    requires i < |s|
    ensures MapSeq(s[..i + 1], f) == MapSeq(s[..i], f) + [f(s[i])]
  {
    assert s[..i + 1][..i] == s[..i];
  }

  /** Filtering a two-element sequence. */
  lemma FilterPair<T>(a: T, b: T, keep: T -> bool)
    ensures Filter([a, b], keep) == (if keep(a) then [a] else []) + (if keep(b) then [b] else [])
  {
    assert [a, b][..1] == [a];
    assert [a][..0] == [];
    assert Filter([a], keep) == [] + (if keep(a) then [a] else []);
  }

  /** Mapping and concatenating over two elements. */
  lemma FlattenMapPair<A, B>(a: A, b: A, f: A -> seq<B>)
    ensures Flatten(MapSeq([a, b], f)) == f(a) + f(b)
  {
    var m := MapSeq([a, b], f);
    assert m == [f(a), f(b)];
    assert m[..1] == [f(a)];
    assert [f(a)][..0] == [];
    assert Flatten([f(a)]) == f(a);
  }
}
