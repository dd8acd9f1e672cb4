/** Optional values, and sequences of distinct numbers used as queues. */
module Queues {

  datatype Option<T> = None | Some(value: T)

  ghost predicate Distinct(q: seq<nat>) {
    forall i, j :: 0 <= i < j < |q| ==> q[i] != q[j]
  }

  lemma DistinctCons(x: nat, r: seq<nat>)
    requires Distinct(r) && x !in r
    ensures Distinct([x] + r)
  {
  }

  /** The place of t in q, counted from the front. */
  function IndexOf(q: seq<nat>, t: nat): nat {
    if q == [] || q[0] == t then 0 else 1 + IndexOf(q[1..], t)
  }

  /** Joining at the back moves nobody. */
  lemma {:induction false} IndexAppend(q: seq<nat>, t: nat, x: nat)
    requires t in q
    ensures IndexOf(q + [x], t) == IndexOf(q, t)
  {
    assert (q + [x])[0] == q[0];
    if q[0] != t {
      assert (q + [x])[1..] == q[1..] + [x];
      IndexAppend(q[1..], t, x);
    }
  }
}
