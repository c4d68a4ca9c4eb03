/**
 * Counting over sequences of keys: distinctness, occurrence counts, the keys
 * in order of first occurrence (the insertion order of a JavaScript `Map` or
 * object), and the fact that the counts of a covering set of keys add up to
 * the whole.
 */
module Tally {

  predicate Distinct<K(==)>(ks: seq<K>)
  {
    forall i, j :: 0 <= i < j < |ks| ==> ks[i] != ks[j]
  }

  /** The number of occurrences of k in xs. */
  function Occ<K(==)>(xs: seq<K>, k: K): (n: nat)
    ensures n <= |xs|
    ensures n > 0 <==> k in xs
  {
    if xs == [] then 0
    else
      assert xs == xs[..|xs| - 1] + [xs[|xs| - 1]];
      Occ(xs[..|xs| - 1], k) + (if xs[|xs| - 1] == k then 1 else 0)
  }

  /** The distinct elements of xs, each where it first occurs. */
  function FirstOccurrences<K(==)>(xs: seq<K>): (r: seq<K>)
    ensures Distinct(r)
    ensures forall i :: 0 <= i < |r| ==> r[i] in xs
    ensures forall i :: 0 <= i < |xs| ==> xs[i] in r
    ensures |r| <= |xs|
  {
    if xs == [] then []
    else
      var init, last := xs[..|xs| - 1], xs[|xs| - 1];
      assert xs == init + [last];
      var r := FirstOccurrences(init);
      if last in r then r else r + [last]
  }

  /** The first occurrences are exactly the elements. */
  lemma FirstOccurrencesMembers<K>(xs: seq<K>)
    ensures forall x :: x in FirstOccurrences(xs) <==> x in xs
  {
  }

  /** The number of elements of xs that satisfy f, as `xs.filter(f).length` counts them. */
  function CountWhere<T>(xs: seq<T>, f: T -> bool): (n: nat)
    ensures n <= |xs|
  {
    if xs == [] then 0 else CountWhere(xs[..|xs| - 1], f) + (if f(xs[|xs| - 1]) then 1 else 0)
  }

  /** Every element is counted exactly when every element satisfies f. */
  lemma {:induction false} CountWhereAll<T>(xs: seq<T>, f: T -> bool)
    ensures CountWhere(xs, f) == |xs| <==> forall i :: 0 <= i < |xs| ==> f(xs[i])
  {
    if xs != [] {
      var init := xs[..|xs| - 1];
      CountWhereAll(init, f);
      assert forall i :: 0 <= i < |init| ==> init[i] == xs[i];
    }
  }

  /** No element is counted exactly when no element satisfies f. */
  lemma {:induction false} CountWhereNone<T>(xs: seq<T>, f: T -> bool)
    ensures CountWhere(xs, f) == 0 <==> forall i :: 0 <= i < |xs| ==> !f(xs[i])
  {
    if xs != [] {
      var init := xs[..|xs| - 1];
      CountWhereNone(init, f);
      assert forall i :: 0 <= i < |init| ==> init[i] == xs[i];
    }
  }

  /** The occurrences in xs of each key of ks, added up. */
  function SumOcc<K(==)>(ks: seq<K>, xs: seq<K>): nat
  {
    if ks == [] then 0 else SumOcc(ks[..|ks| - 1], xs) + Occ(xs, ks[|ks| - 1])
  }

  /** Counting the keys of a distinct sequence that covers every element counts every element once. */
  lemma {:induction false} SumOccCovers<K>(ks: seq<K>, xs: seq<K>)
    requires Distinct(ks)
    requires forall x :: x in xs ==> x in ks
    ensures SumOcc(ks, xs) == |xs|
  {
    if xs != [] {
      var init, last := xs[..|xs| - 1], xs[|xs| - 1];
      assert xs == init + [last];
      SumOccCovers(ks, init);
      SumOccSnoc(ks, init, last);
      DistinctOccOnce(ks, last);
    } else {
      SumOccNone(ks);
    }
  }

  /** No element, no occurrence. */
  lemma {:induction false} SumOccNone<K>(ks: seq<K>)
    ensures SumOcc(ks, []) == 0
  {
    if ks != [] {
      SumOccNone(ks[..|ks| - 1]);
    }
  }

  /** One more element adds its own count among the keys. */
  lemma {:induction false} SumOccSnoc<K>(ks: seq<K>, xs: seq<K>, x: K)
    ensures SumOcc(ks, xs + [x]) == SumOcc(ks, xs) + Occ(ks, x)
  {
    assert (xs + [x])[..|xs|] == xs;
    if ks != [] {
      SumOccSnoc(ks[..|ks| - 1], xs, x);
    }
  }

  /** A key of a distinct sequence occurs in it exactly once. */
  lemma {:induction false} DistinctOccOnce<K>(ks: seq<K>, x: K)
    requires Distinct(ks)
    requires x in ks
    ensures Occ(ks, x) == 1
  {
    var init, last := ks[..|ks| - 1], ks[|ks| - 1];
    assert ks == init + [last];
    if last == x {
      assert x !in init;
    } else {
      DistinctOccOnce(init, x);
    }
  }

  /** A sequence is distinct exactly when its multiset holds every element at most once. */
  lemma {:induction false} DistinctMultiset<K>(ks: seq<K>)
    ensures Distinct(ks) <==> forall x :: multiset(ks)[x] <= 1
  {
    if ks != [] {
      var init, last := ks[..|ks| - 1], ks[|ks| - 1];
      assert ks == init + [last];
      DistinctMultiset(init);
      assert multiset(ks) == multiset(init) + multiset{last};
      if Distinct(ks) {
        assert Distinct(init);
        assert last !in init;
      } else {
        var i, j :| 0 <= i < j < |ks| && ks[i] == ks[j];
        if j < |ks| - 1 {
          assert !Distinct(init);
          var x :| multiset(init)[x] > 1;
          assert multiset(ks)[x] > 1;
        } else {
          assert ks[i] in init;
          assert multiset(ks)[last] >= 2;
        }
      }
    }
  }

  // ----- grouping key-value pairs, as `(groups[key] ||= []).push(value)` does -----

  /** The keys of the pairs, in order. */
  function KeysOf<K, V>(ps: seq<(K, V)>): (ks: seq<K>)
    ensures |ks| == |ps|
    ensures forall i :: 0 <= i < |ps| ==> ks[i] == ps[i].0
  {
    if ps == [] then [] else KeysOf(ps[..|ps| - 1]) + [ps[|ps| - 1].0]
  }

  /** The values paired with k, in order. */
  function ValuesAt<K(==), V>(ps: seq<(K, V)>, k: K): seq<V>
  {
    if ps == [] then []
    else ValuesAt(ps[..|ps| - 1], k) + (if ps[|ps| - 1].0 == k then [ps[|ps| - 1].1] else [])
  }

  /** The pairs folded into a map from each key to the list of its values, appending as they come. */
  function GroupBy<K(==), V>(ps: seq<(K, V)>): map<K, seq<V>>
  {
    if ps == [] then map[]
    else
      var g, p := GroupBy(ps[..|ps| - 1]), ps[|ps| - 1];
      g[p.0 := (if p.0 in g then g[p.0] else []) + [p.1]]
  }

  /**
   * One more pair: its value is appended to the group of its key, and the key
   * joins the insertion order when it is new.
   */
  lemma GroupStep<K, V>(ps: seq<(K, V)>, p: (K, V))
    ensures GroupBy(ps + [p]) == (var g := GroupBy(ps); g[p.0 := (if p.0 in g then g[p.0] else []) + [p.1]])
    ensures FirstOccurrences(KeysOf(ps + [p])) ==
      (var order := FirstOccurrences(KeysOf(ps)); if p.0 in GroupBy(ps) then order else order + [p.0])
  {
    var qs := ps + [p];
    assert qs[..|qs| - 1] == ps;
    var ks := KeysOf(qs);
    assert ks[..|ks| - 1] == KeysOf(ps);
    GroupByHoldsValues(ps);
    FirstOccurrencesMembers(KeysOf(ps));
  }

  /** Every group of a `GroupBy` is non-empty. */
  lemma GroupsNonEmpty<K, V>(ps: seq<(K, V)>)
    ensures forall k :: k in GroupBy(ps) ==> GroupBy(ps)[k] != []
  {
    GroupByHoldsValues(ps);
  }

  /** The lengths of the groups named by ks, added up. */
  function SumLengths<K(==), V>(ks: seq<K>, groups: map<K, seq<V>>): nat
  {
    if ks == [] then 0
    else SumLengths(ks[..|ks| - 1], groups) + (var k := ks[|ks| - 1]; if k in groups then |groups[k]| else 0)
  }

  /**
   * Every value lands in the group of its own key, in order: the groups are
   * exactly the keys that occur, each holding the values paired with it, as
   * many as the key occurs.
   */
  lemma {:induction false} GroupByHoldsValues<K, V>(ps: seq<(K, V)>)
    ensures forall k :: k in GroupBy(ps) <==> k in KeysOf(ps)
    ensures forall k :: k in GroupBy(ps) ==> GroupBy(ps)[k] == ValuesAt(ps, k)
    ensures forall k :: |ValuesAt(ps, k)| == Occ(KeysOf(ps), k)
  {
    if ps != [] {
      var init := ps[..|ps| - 1];
      GroupByHoldsValues(init);
      var ks := KeysOf(ps);
      assert ks[..|ks| - 1] == KeysOf(init);
      assert ks == KeysOf(init) + [ks[|ks| - 1]];
    }
  }

  /** Summing the lengths of groups over keys that all occur counts their occurrences. */
  lemma {:induction false} SumLengthsIsSumOcc<K, V>(ks: seq<K>, ps: seq<(K, V)>)
    requires forall k :: k in ks ==> k in KeysOf(ps)
    ensures SumLengths(ks, GroupBy(ps)) == SumOcc(ks, KeysOf(ps))
  {
    GroupByHoldsValues(ps);
    if ks != [] {
      SumLengthsIsSumOcc(ks[..|ks| - 1], ps);
    }
  }

  /** The groups, visited in order of first occurrence of their keys, hold every pair once. */
  lemma GroupSizesAddUp<K, V>(ps: seq<(K, V)>)
    ensures SumLengths(FirstOccurrences(KeysOf(ps)), GroupBy(ps)) == |ps|
  {
    var order := FirstOccurrences(KeysOf(ps));
    SumLengthsIsSumOcc(order, ps);
    SumOccCovers(order, KeysOf(ps));
  }
}
