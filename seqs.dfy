/** Minima and first-appearance deduplication over sequences. */
module Seqs {

  /** A prefix one longer is the prefix followed by the next element. */
  lemma TakeStep<T>(s: seq<T>, i: nat)
    requires i < |s|
    ensures s[..i + 1] == s[..i] + [s[i]]
  {
  }

  /** The smallest element of a non-empty `s`. */
  function Min(s: seq<nat>): nat
    requires s != []
  {
    if |s| == 1 then s[0]
    else
      var p := Min(s[..|s| - 1]);
      if s[|s| - 1] < p then s[|s| - 1] else p
  }

  /** `Min` is below every element and is one of them. */
  lemma {:induction false} MinSpec(s: seq<nat>)
    requires s != []
    ensures forall i :: 0 <= i < |s| ==> Min(s) <= s[i]
    ensures Min(s) in s
  {
    if |s| > 1 {
      var p := s[..|s| - 1];
      MinSpec(p);
      assert forall i :: 0 <= i < |p| ==> s[i] == p[i];
      assert Min(p) in s;
    }
  }

  predicate NoDuplicates<T(==)>(s: seq<T>)
  {
    forall i, j :: 0 <= i < j < |s| ==> s[i] != s[j]
  }

  /** The position of the first occurrence of `x` in `s`, or `|s|` when there is none. */
  function FirstIndex<T(==)>(s: seq<T>, x: T): (k: nat)
    ensures k <= |s|
    ensures k < |s| ==> s[k] == x
    ensures forall j :: 0 <= j < k ==> s[j] != x
  {
    if s == [] then 0
    else if s[0] == x then 0
    else 1 + FirstIndex(s[1..], x)
  }

  /** The first occurrence of `x` is the only position with `x` and no earlier `x`. */
  lemma FirstIndexUnique<T>(s: seq<T>, x: T, k: nat)
    requires k < |s| && s[k] == x
    requires forall j :: 0 <= j < k ==> s[j] != x
    ensures FirstIndex(s, x) == k
  {
  }

  /** The elements of `s` in order of first appearance, each once, as the keys of a
      Python dict filled by assigning to each element of `s` in turn. */
  function Distinct<T(==)>(s: seq<T>): seq<T>
  {
    if s == [] then []
    else
      var p := Distinct(s[..|s| - 1]);
      if s[|s| - 1] in p then p else p + [s[|s| - 1]]
  }

  /** `Distinct(s)` holds exactly the elements of `s`, each once. */
  lemma {:induction false} DistinctSpec<T(!new)>(s: seq<T>)
    ensures forall x :: x in Distinct(s) <==> x in s
    ensures NoDuplicates(Distinct(s))
  {
    if s != [] {
      var t := s[..|s| - 1];
      DistinctSpec(t);
      assert forall x :: x in t ==> x in s;
      assert forall x :: x in s ==> x in t || x == s[|s| - 1];
    }
  }

  /** `Distinct(s)` lists the elements of `s` in increasing order of their first occurrence. */
  lemma {:induction false} DistinctFirstAppearanceOrder<T(!new)>(s: seq<T>)
    ensures forall i, j :: 0 <= i < j < |Distinct(s)| ==>
      FirstIndex(s, Distinct(s)[i]) < FirstIndex(s, Distinct(s)[j])
  {
    if s != [] {
      var n := |s| - 1;
      var t := s[..n];
      var p := Distinct(t);
      DistinctFirstAppearanceOrder(t);
      DistinctSpec(t);
      forall x | x in t
        ensures FirstIndex(s, x) == FirstIndex(t, x) < n
      {
        FirstIndexUnique(s, x, FirstIndex(t, x));
      }
      if s[n] !in p {
        FirstIndexUnique(s, s[n], n);
      }
    }
  }
}
