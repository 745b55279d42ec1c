/**
 Sequence operations shared by the catalog and the notes store:
 `list.filter((x) => x.id !== id)` and the first-occurrence de-duplication
 of `Array.from(new Set(list))`.
 */
module Seqs {

  /** The elements of `s` whose id (as given by `idOf`) differs from `id`, in order. */
  function Without<T(!new)>(s: seq<T>, idOf: T -> string, id: string): (r: seq<T>)
    ensures |r| <= |s|
    ensures forall x :: x in r <==> x in s && idOf(x) != id
  {
    if s == [] then []
    else if idOf(s[0]) == id then Without(s[1..], idOf, id)
    else [s[0]] + Without(s[1..], idOf, id)
  }

  /** Filtering works piece by piece: the kept elements stay in their order. */
  lemma {:induction false} WithoutConcat<T(!new)>(a: seq<T>, b: seq<T>, idOf: T -> string, id: string)
    ensures Without(a + b, idOf, id) == Without(a, idOf, id) + Without(b, idOf, id)
    decreases |a|
  {
    if a == [] {
      assert a + b == b;
    } else {
      assert (a + b)[1..] == a[1..] + b;
      WithoutConcat(a[1..], b, idOf, id);
    }
  }

  /** When no element carries the id, nothing is removed. */
  lemma {:induction false} WithoutAbsent<T(!new)>(s: seq<T>, idOf: T -> string, id: string)
    requires forall i :: 0 <= i < |s| ==> idOf(s[i]) != id
    ensures Without(s, idOf, id) == s
    decreases |s|
  {
    if s != [] {
      WithoutAbsent(s[1..], idOf, id);
    }
  }

  /** Removing the same id a second time is a no-op. */
  lemma WithoutIdempotent<T(!new)>(s: seq<T>, idOf: T -> string, id: string)
    ensures Without(Without(s, idOf, id), idOf, id) == Without(s, idOf, id)
  {
    var r := Without(s, idOf, id);
    forall i | 0 <= i < |r| ensures idOf(r[i]) != id {
      assert r[i] in r;
    }
    WithoutAbsent(r, idOf, id);
  }

  predicate NoDuplicates<T(==)>(s: seq<T>)
  {
    forall i, j :: 0 <= i < j < |s| ==> s[i] != s[j]
  }

  /** The index of the first occurrence of `x` in `s`. */
  function FirstIndex<T(==)>(s: seq<T>, x: T): (i: nat)
    requires x in s
    ensures i < |s| && s[i] == x
    ensures forall j :: 0 <= j < i ==> s[j] != x
  {
    if s[0] == x then 0 else FirstIndex(s[1..], x) + 1
  }

  /** A value's first occurrence lies in any prefix that contains it. */
  lemma FirstIndexPrefix<T>(s: seq<T>, n: nat, x: T)
    requires n <= |s| && x in s[..n]
    ensures FirstIndex(s, x) == FirstIndex(s[..n], x)
  {
    var j := FirstIndex(s[..n], x);
    assert s[j] == x;
    assert forall k :: 0 <= k < j ==> s[k] == s[..n][k] && s[k] != x;
  }

  /** `Array.from(new Set(s))`: every value once, ordered by first occurrence. */
  function Dedupe<T(==,!new)>(s: seq<T>): (r: seq<T>)
    ensures NoDuplicates(r)
    ensures forall x :: x in r <==> x in s
    ensures forall i, j :: 0 <= i < j < |r| ==> FirstIndex(s, r[i]) < FirstIndex(s, r[j])
    ensures s != [] ==> r != [] && r[0] == s[0]
    decreases |s|
  {
    if s == [] then []
    else
      var p := s[..|s| - 1];
      var r := Dedupe(p);
      var x := s[|s| - 1];
      assert forall y :: y in s <==> y in p || y == x by {
        assert s == p + [x];
      }
      assert |s| > 1 ==> p[0] == s[0];
      assert forall i :: 0 <= i < |r| ==> r[i] in r;
      FirstIndexAllPrefix(s, r);
      if x in r then r
      else
        assert forall k :: 0 <= k < |p| ==> s[k] == p[k];
        assert FirstIndex(s, x) == |s| - 1;
        var r' := r + [x];
        assert forall i :: 0 <= i < |r| ==> r'[i] == r[i];
        r'
  }

  /** Values that all occur in `s` without its last element have the same
      first occurrence in `s`. */
  lemma FirstIndexAllPrefix<T>(s: seq<T>, r: seq<T>)
    requires s != []
    requires forall i :: 0 <= i < |r| ==> r[i] in s[..|s| - 1]
    ensures forall i :: 0 <= i < |r| ==> FirstIndex(s, r[i]) == FirstIndex(s[..|s| - 1], r[i])
  {
    forall i | 0 <= i < |r|
      ensures FirstIndex(s, r[i]) == FirstIndex(s[..|s| - 1], r[i])
    {
      FirstIndexPrefix(s, |s| - 1, r[i]);
    }
  }

  /** `new Set([a, b, c])` in insertion order. */
  lemma DedupeThree<T(!new)>(a: T, b: T, c: T)
    ensures Dedupe([a, b, c]) == [a] + (if b != a then [b] else []) + (if c != a && c != b then [c] else [])
  {
    var one := [a];
    var two := [a, b];
    assert two[..1] == one && one[..0] == [] && [a, b, c][..2] == two;
    assert Dedupe(one) == one;
  }
}
