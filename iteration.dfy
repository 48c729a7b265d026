/**
 * Iteration over a `HashSet<u64>`: the order is unspecified, so the model only
 * assumes that it visits every element of the set exactly once.
 */
module Iteration {

  function Elems(os: seq<nat>): (r: set<nat>)
    ensures forall o :: o in r <==> o in os
  {
    set o | o in os
  }

  predicate Distinct(os: seq<nat>) {
    forall i, j :: 0 <= i < j < |os| ==> os[i] != os[j]
  }

  /** `order` is one possible iteration order of the set `s`. */
  predicate Enumerates(order: seq<nat>, s: set<nat>) {
    Distinct(order) && Elems(order) == s
  }

  /** How many visited elements lie in `k`. */
  function CountIn(os: seq<nat>, k: set<nat>): nat {
    if |os| == 0 then 0
    else CountIn(os[..|os| - 1], k) + (if os[|os| - 1] in k then 1 else 0)
  }

  /** However a set is enumerated, the visits that hit `k` number exactly `|s * k|`. */
  lemma {:induction false} CountInEnumeration(os: seq<nat>, s: set<nat>, k: set<nat>)
    requires Enumerates(os, s)
    ensures CountIn(os, k) == |s * k|
    decreases |os|
  {
    if |os| > 0 {
      var init := os[..|os| - 1];
      var last := os[|os| - 1];
      assert Distinct(init) by {
        assert forall i :: 0 <= i < |init| ==> init[i] == os[i];
      }
      CountInEnumeration(init, Elems(init), k);
      assert last !in Elems(init) && s == Elems(init) + {last} by {
        assert os == init + [last];
      }
      AddCount(Elems(init), last, k);
    }
  }

  lemma AddCount(a: set<nat>, x: nat, k: set<nat>)
    requires x !in a
    ensures |(a + {x}) * k| == |a * k| + (if x in k then 1 else 0)
  {
    if x in k {
      assert (a + {x}) * k == a * k + {x};
    } else {
      assert (a + {x}) * k == a * k;
    }
  }

  /** A duplicate-free sequence has as many elements as its set. */
  lemma {:induction false} DistinctSize(os: seq<nat>)
    requires Distinct(os)
    ensures |Elems(os)| == |os|
    decreases |os|
  {
    if |os| > 0 {
      var init := os[..|os| - 1];
      assert os == init + [os[|os| - 1]];
      DistinctSize(init);
      assert os[|os| - 1] !in Elems(init);
      assert Elems(os) == Elems(init) + {os[|os| - 1]};
    }
  }

  /**
   * One step of visiting a set: moving an unvisited element `o` to the end of the
   * visited prefix keeps the prefix duplicate-free and the two parts a partition of `s`.
   */
  lemma VisitStep(order: seq<nat>, remaining: set<nat>, s: set<nat>, o: nat)
    requires Distinct(order) && Elems(order) !! remaining && Elems(order) + remaining == s
    requires o in remaining
    ensures Distinct(order + [o]) && Elems(order + [o]) !! remaining - {o}
    ensures Elems(order + [o]) + (remaining - {o}) == s
  {
    assert Elems(order + [o]) == Elems(order) + {o};
  }
}
