/**
 Ordering the keys of a curve: the minimum of a finite set of integers and the
 set's elements in ascending order. The fan curve stores its control points in
 an unordered map and sorts a copy of the keys on every lookup that is not an
 exact hit; this module states what that sorted copy is, independently of any
 sorting algorithm.
 */
module SortedKeys {

  /** `s` is strictly increasing: no duplicates, ascending order. */
  predicate StrictlyIncreasing(s: seq<int>)
  {
    forall i, j :: 0 <= i < j < |s| ==> s[i] < s[j]
  }

  /** `m` is the least element of `s`. */
  predicate IsMin(s: set<int>, m: int)
  {
    m in s && forall y :: y in s ==> m <= y
  }

  /** `m` is the greatest element of `s`. */
  predicate IsMax(s: set<int>, m: int)
  {
    m in s && forall y :: y in s ==> y <= m
  }

  /** Every non-empty finite set of integers has a least element. */
  lemma {:induction false} MinExists(s: set<int>)
    requires s != {}
    ensures exists m :: IsMin(s, m)
    decreases |s|
  {
    if forall y :: y !in s {
      assert false;
    }
    var x :| x in s;
    var rest := s - {x};
    assert forall y :: y in s ==> y == x || y in rest;
    if rest == {} {
      assert IsMin(s, x);
    } else {
      MinExists(rest);
      var m :| IsMin(rest, m);
      if x <= m {
        assert IsMin(s, x);
      } else {
        assert IsMin(s, m);
      }
    }
  }

  /** The least element of a non-empty set. */
  ghost function Min(s: set<int>): (m: int)
    requires s != {}
    ensures IsMin(s, m)
  {
    MinExists(s);
    var m :| IsMin(s, m); m
  }

  /** The elements of `s` in ascending order: the minimum first, then the rest. */
  ghost function Ascending(s: set<int>): (ks: seq<int>)
    ensures |ks| == |s|
    decreases |s|
  {
    if s == {} then []
    else
      var m := Min(s);
      [m] + Ascending(s - {m})
  }

  /** The ascending order is strictly increasing and holds exactly the elements of `s`. */
  lemma {:induction false} AscendingSorted(s: set<int>)
    ensures StrictlyIncreasing(Ascending(s))
    ensures forall k :: k in Ascending(s) <==> k in s
    decreases |s|
  {
    if s != {} {
      var m := Min(s);
      var rest := s - {m};
      AscendingSorted(rest);
      var tail := Ascending(rest);
      assert Ascending(s) == [m] + tail;
      forall k | k in tail ensures m < k {
        assert k in rest;
      }
      var ks := [m] + tail;
      forall i, j | 0 <= i < j < |ks| ensures ks[i] < ks[j] {
        assert ks[j] == tail[j - 1] && tail[j - 1] in tail;
        if i > 0 {
          assert ks[i] == tail[i - 1];
        }
      }
    }
  }

  /** The first element of the ascending order is the minimum. */
  lemma AscendingFirstIsMin(s: set<int>, lo: int)
    requires IsMin(s, lo)
    ensures |Ascending(s)| > 0 && Ascending(s)[0] == lo
  {
    AscendingSorted(s);
    var ks := Ascending(s);
    assert lo in ks;
    assert ks[0] in s;
    assert forall i :: 0 <= i < |ks| ==> ks[0] <= ks[i];
  }

  /** The last element of the ascending order is the maximum. */
  lemma AscendingLastIsMax(s: set<int>, hi: int)
    requires IsMax(s, hi)
    ensures |Ascending(s)| > 0 && Ascending(s)[|Ascending(s)| - 1] == hi
  {
    AscendingSorted(s);
    var ks := Ascending(s);
    assert hi in ks;
    assert ks[|ks| - 1] in s;
    assert forall i :: 0 <= i < |ks| ==> ks[i] <= ks[|ks| - 1];
  }

  /** Every element of `s` lies between the first and the last element of its ascending order. */
  lemma AscendingContains(s: set<int>, a: int)
    requires a in s
    ensures |Ascending(s)| > 0
    ensures Ascending(s)[0] <= a <= Ascending(s)[|Ascending(s)| - 1]
  {
    AscendingSorted(s);
    var ks := Ascending(s);
    assert a in ks;
    var n :| 0 <= n < |ks| && ks[n] == a;
    assert n == 0 || ks[0] < ks[n];
    assert n == |ks| - 1 || ks[n] < ks[|ks| - 1];
  }

  /** The ascending order starts with the minimum, followed by the rest in order. */
  lemma AscendingStep(s: set<int>, k: int)
    requires IsMin(s, k)
    ensures Ascending(s) == [k] + Ascending(s - {k})
  {
    assert Min(s) == k;
  }

  /**
   Collects the keys of `m` and sorts them: repeatedly takes the least key not
   yet taken. The result is the key set in ascending order.
   */
  method CollectSorted(m: map<int, int>) returns (keys: seq<int>)
    ensures keys == Ascending(m.Keys)
  {
    keys := [];
    var rest := m.Keys;
    assert keys + Ascending(rest) == Ascending(m.Keys);
    while rest != {}
      invariant keys + Ascending(rest) == Ascending(m.Keys)
      decreases |rest|
    {
      MinExists(rest);
      var k :| IsMin(rest, k);
      AscendingStep(rest, k);
      assert (keys + [k]) + Ascending(rest - {k}) == keys + Ascending(rest);
      keys := keys + [k];
      rest := rest - {k};
    }
    assert Ascending(rest) == [];
    assert keys == keys + Ascending(rest);
  }
}
