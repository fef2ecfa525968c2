/** Merging per-document n-gram sets into one topic signature. */
module Signatures {

  /** The union of all the sets of `sets`, folded from the left. */
  function UnionAll(sets: seq<set<string>>): set<string> {
    if sets == [] then {} else UnionAll(sets[..|sets| - 1]) + sets[|sets| - 1]
  }

  /** An n-gram is in the merge exactly when some input set holds it. */
  lemma {:induction false} UnionAllMembers(sets: seq<set<string>>, x: string)
    ensures x in UnionAll(sets) <==> exists s :: s in sets && x in s
  {
    if sets != [] {
      var init, last := sets[..|sets| - 1], sets[|sets| - 1];
      UnionAllMembers(init, x);
      assert sets == init + [last];
      assert forall s :: s in sets <==> s in init || s == last;
    }
  }

  /** The merge is the least upper bound of its inputs. */
  lemma {:induction false} UnionAllIsLeastUpperBound(sets: seq<set<string>>, bound: set<string>)
    ensures forall i :: 0 <= i < |sets| ==> sets[i] <= UnionAll(sets)
    ensures (forall i :: 0 <= i < |sets| ==> sets[i] <= bound) ==> UnionAll(sets) <= bound
  {
    forall x | x in UnionAll(sets) || exists i :: 0 <= i < |sets| && x in sets[i]
      ensures x in UnionAll(sets) <==> exists i :: 0 <= i < |sets| && x in sets[i]
    {
      UnionAllMembers(sets, x);
    }
  }

  /** Only which sets are merged matters, not their order or repetition. */
  lemma {:induction false} UnionAllOrderFree(a: seq<set<string>>, b: seq<set<string>>)
    requires forall s :: s in a <==> s in b
    ensures UnionAll(a) == UnionAll(b)
  {
    forall x ensures x in UnionAll(a) <==> x in UnionAll(b) {
      UnionAllMembers(a, x);
      UnionAllMembers(b, x);
    }
  }

  /** Feeding the same documents in another order gives the same signature. */
  lemma {:induction false} UnionAllPermutation(a: seq<set<string>>, b: seq<set<string>>)
    requires multiset(a) == multiset(b)
    ensures UnionAll(a) == UnionAll(b)
  {
    forall s ensures s in a <==> s in b {
      assert s in a <==> s in multiset(a);
      assert s in b <==> s in multiset(b);
    }
    UnionAllOrderFree(a, b);
  }

  /** `n_grams_merge`: start from the empty set and add each input set in turn. */
  method Merge(nGrams: seq<set<string>>) returns (bigNGram: set<string>)
    ensures bigNGram == UnionAll(nGrams)
  {
    bigNGram := {};
    for i := 0 to |nGrams|
      invariant bigNGram == UnionAll(nGrams[..i])
    {
      assert nGrams[..i + 1][..i] == nGrams[..i];
      bigNGram := bigNGram + nGrams[i];
    }
    assert nGrams[..|nGrams|] == nGrams;
  }
}
