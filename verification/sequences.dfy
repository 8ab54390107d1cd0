/** Positions in a sequence: the items at some positions, and the others in their old order. Taking distinct
    positions to the front and leaving the rest behind is a permutation, which is what reordering a bundle by
    one of its chains comes down to. */
module Sequences {

  predicate NoRepeats<T(==)>(s: seq<T>) {
    forall i, j :: 0 <= i < j < |s| ==> s[i] != s[j]
  }

  predicate InRange(idxs: seq<int>, n: nat) {
    forall k :: 0 <= k < |idxs| ==> 0 <= idxs[k] < n
  }

  /** The items at these positions. */
  function At<T>(certs: seq<T>, idxs: seq<int>): seq<T>
    requires InRange(idxs, |certs|)
  {
    seq(|idxs|, k requires 0 <= k < |idxs| => certs[idxs[k]])
  }

  function IdxSet(idxs: seq<int>): set<int> {
    set i | i in idxs
  }

  /** The first `n` items, without those at the used positions. */
  function Rest<T>(certs: seq<T>, used: set<int>, n: nat): seq<T>
    requires n <= |certs|
  {
    if n == 0 then []
    else if n - 1 in used then Rest(certs, used, n - 1)
    else Rest(certs, used, n - 1) + [certs[n - 1]]
  }

  lemma {:induction false} RestOfAll<T>(certs: seq<T>, n: nat)
    requires n <= |certs|
    ensures Rest(certs, {}, n) == certs[..n]
  {
    if n > 0 {
      RestOfAll(certs, n - 1);
      assert certs[..n] == certs[..n - 1] + [certs[n - 1]];
    }
  }

  /** `more` is `used` and one position besides. */
  predicate OneMore(used: set<int>, more: set<int>, i: int) {
    i !in used && more == used + {i}
  }

  lemma {:induction false} RestBeyond<T>(certs: seq<T>, used: set<int>, more: set<int>, i: int, n: nat)
    requires n <= |certs| && n <= i && OneMore(used, more, i)
    ensures Rest(certs, used, n) == Rest(certs, more, n)
  {
    if n > 0 {
      RestBeyond(certs, used, more, i, n - 1);
    }
  }

  /** With `more` positions used the rest of the first `n` items lacks exactly item `i`. */
  ghost predicate LacksOne<T>(certs: seq<T>, used: set<int>, more: set<int>, i: int, n: nat)
    requires n <= |certs| && 0 <= i < |certs|
  {
    multiset(Rest(certs, used, n)) == multiset(Rest(certs, more, n)) + multiset{certs[i]}
  }

  lemma RestAtLast<T>(certs: seq<T>, used: set<int>, more: set<int>, i: int)
    requires 0 <= i < |certs| && OneMore(used, more, i)
    ensures LacksOne(certs, used, more, i, i + 1)
  {
    RestBeyond(certs, used, more, i, i);
  }

  lemma RestPastLast<T>(certs: seq<T>, used: set<int>, more: set<int>, i: int, n: nat)
    requires n < |certs| && 0 <= i < n && OneMore(used, more, i) && LacksOne(certs, used, more, i, n)
    ensures LacksOne(certs, used, more, i, n + 1)
  {}

  /** Using one more position removes exactly its element from the rest. */
  lemma {:induction false} RestStep<T>(certs: seq<T>, used: set<int>, more: set<int>, i: int, n: nat)
    requires n <= |certs| && 0 <= i < n && OneMore(used, more, i)
    ensures LacksOne(certs, used, more, i, n)
  {
    RestAtLast(certs, used, more, i);
    for k := i + 1 to n
      invariant LacksOne(certs, used, more, i, k)
    {
      RestPastLast(certs, used, more, i, k);
    }
  }

  /** Distinct positions and the rest together are the whole list. */
  lemma {:induction false} FrontAndRest<T>(certs: seq<T>, idxs: seq<int>)
    requires InRange(idxs, |certs|) && NoRepeats(idxs)
    ensures multiset(At(certs, idxs)) + multiset(Rest(certs, IdxSet(idxs), |certs|)) == multiset(certs)
  {
    if idxs == [] {
      RestOfAll(certs, |certs|);
      assert certs[..|certs|] == certs;
      assert IdxSet(idxs) == {};
    } else {
      var n := |idxs| - 1;
      var front, last := idxs[..n], idxs[n];
      assert idxs == front + [last];
      FrontAndRest(certs, front);
      assert IdxSet(idxs) == IdxSet(front) + {last};
      RestStep(certs, IdxSet(front), IdxSet(idxs), last, |certs|);
      assert At(certs, idxs) == At(certs, front) + [certs[last]];
    }
  }

  lemma {:induction false} SubsetIsSmaller<T>(a: set<T>, b: set<T>)
    requires a <= b
    ensures |a| <= |b|
  {
    if a != {} {
      var x :| x in a;
      SubsetIsSmaller(a - {x}, b - {x});
    }
  }
}
