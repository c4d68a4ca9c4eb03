/**
 * `arr.sort((a, b) => a - b)` on finite numbers. The built-in's algorithm is
 * not the analyser's; what matters is its result, the ascending permutation of
 * the input, which `SortedPermutationUnique` shows is unique. `SortAsc` is an
 * insertion sort that produces it.
 */
module Sorting {
  import opened Tally

  predicate Sorted(s: seq<real>)
  {
    forall i, j :: 0 <= i <= j < |s| ==> s[i] <= s[j]
  }

  /** Strictly ascending: sorted with no value twice. */
  predicate StrictlyAscending(s: seq<real>)
  {
    forall i, j :: 0 <= i < j < |s| ==> s[i] < s[j]
  }

  /** x put into the sorted sequence s at its place. */
  function Insert(x: real, s: seq<real>): (r: seq<real>)
    requires Sorted(s)
    ensures Sorted(r)
    ensures multiset(r) == multiset(s) + multiset{x}
    ensures |r| == |s| + 1
    ensures r[0] == if s == [] || x <= s[0] then x else s[0]
  {
    if s == [] || x <= s[0] then [x] + s
    else
      var rest := Insert(x, s[1..]);
      assert s == [s[0]] + s[1..];
      assert s[0] <= rest[0];
      [s[0]] + rest
  }

  /** The ascending permutation of s. */
  function SortAsc(s: seq<real>): (r: seq<real>)
    ensures Sorted(r)
    ensures multiset(r) == multiset(s)
    ensures |r| == |s|
  {
    if s == [] then []
    else
      assert s == [s[0]] + s[1..];
      Insert(s[0], SortAsc(s[1..]))
  }

  /** Sorting keeps exactly the values that were there. */
  lemma SortAscMembers(s: seq<real>)
    ensures forall x :: x in SortAsc(s) <==> x in s
  {
    forall x
      ensures x in SortAsc(s) <==> x in s
    {
      assert x in SortAsc(s) <==> x in multiset(SortAsc(s));
      assert x in s <==> x in multiset(s);
    }
  }

  /** The first element of a sorted sequence is its least. */
  lemma SortedHeadIsLeast(s: seq<real>, x: real)
    requires Sorted(s) && x in s
    ensures s[0] <= x
  {
    var k :| 0 <= k < |s| && s[k] == x;
  }

  /** A multiset has one ascending arrangement, so every correct sort agrees with `SortAsc`. */
  lemma {:induction false} SortedPermutationUnique(a: seq<real>, b: seq<real>)
    requires Sorted(a) && Sorted(b)
    requires multiset(a) == multiset(b)
    ensures a == b
  {
    assert |a| == |multiset(a)| == |multiset(b)| == |b|;
    if a != [] {
      assert a[0] == b[0] by {
        assert a[0] in multiset(b) && b[0] in multiset(a);
        SortedHeadIsLeast(b, a[0]);
        SortedHeadIsLeast(a, b[0]);
      }
      var a', b' := a[1..], b[1..];
      assert multiset(a') == multiset(b') by {
        assert a == [a[0]] + a';
        assert b == [b[0]] + b';
        assert multiset(a) == multiset{a[0]} + multiset(a');
        assert multiset(b) == multiset{b[0]} + multiset(b');
        assert multiset(a') == multiset(a) - multiset{a[0]};
        assert multiset(b') == multiset(b) - multiset{b[0]};
      }
      assert Sorted(a') && Sorted(b');
      SortedPermutationUnique(a', b');
      assert a == [a[0]] + a';
      assert b == [b[0]] + b';
    }
  }

  /** Sorting a sequence with no value twice gives a strictly ascending one. */
  lemma SortAscOfDistinct(s: seq<real>)
    requires Distinct(s)
    ensures StrictlyAscending(SortAsc(s))
  {
    var r := SortAsc(s);
    DistinctMultiset(s);
    DistinctMultiset(r);
    assert Distinct(r);
  }
}
