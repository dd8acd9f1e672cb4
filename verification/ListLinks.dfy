/**
 Null-terminated runs, the prev-linked list of pending runs, and the circular list, over the
 next and prev fields of list nodes. An address is a natural number, 0 is the null pointer, and
 nodes[i] is the address of the i-th input element.
 */
module ListLinks {
  import opened Queues
  import opened SortSpec

  type Field = map<nat, nat>

  ghost predicate Addresses(nodes: seq<nat>) {
    (forall i :: 0 <= i < |nodes| ==> nodes[i] != 0) &&
    (forall i, j :: 0 <= i < j < |nodes| ==> nodes[i] != nodes[j])
  }

  ghost predicate Mapped(m: Field, nodes: seq<nat>) {
    forall i :: 0 <= i < |nodes| ==> nodes[i] in m
  }

  /** cmp on elements, seen on their positions. */
  ghost function ByPosition(cmp: (nat, nat) -> int, nodes: seq<nat>): Cmp {
    (i: nat, j: nat) => if i < |nodes| && j < |nodes| then cmp(nodes[i], nodes[j]) else 0
  }

  /** Following m from p visits the positions r and then arrives at q. */
  ghost predicate Chain(m: Field, nodes: seq<nat>, p: nat, r: seq<nat>, q: nat)
    decreases |r|
  {
    if r == [] then p == q
    else r[0] < |nodes| && p == nodes[r[0]] && p in m && Chain(m, nodes, m[p], r[1..], q)
  }

  /** A null-terminated list. */
  ghost predicate RunAt(m: Field, nodes: seq<nat>, p: nat, r: seq<nat>) {
    Chain(m, nodes, p, r, 0)
  }

  /** m has changed at most at the positions [lo, hi). */
  ghost predicate ChangedWithin(m: Field, m': Field, nodes: seq<nat>, lo: nat, hi: nat) {
    m.Keys == m'.Keys &&
    forall a :: a in m && m'[a] != m[a] ==> exists i :: lo <= i < hi && i < |nodes| && nodes[i] == a
  }

  lemma {:induction false} ChainWithin(m: Field, nodes: seq<nat>, p: nat, r: seq<nat>, q: nat)
    requires Chain(m, nodes, p, r, q)
    ensures Within(r, 0, |nodes|)
    decreases |r|
  {
    if r != [] {
      ChainWithin(m, nodes, m[p], r[1..], q);
      forall i | 0 <= i < |r|
        ensures r[i] < |nodes|
      {
        assert i > 0 ==> r[i] == r[1..][i - 1];
      }
    }
  }

  lemma {:induction false} ChainFrame(m: Field, m': Field, nodes: seq<nat>, p: nat, r: seq<nat>, q: nat)
    requires Chain(m, nodes, p, r, q) && Within(r, 0, |nodes|)
    requires forall i :: 0 <= i < |r| ==> nodes[r[i]] in m && nodes[r[i]] in m' && m'[nodes[r[i]]] == m[nodes[r[i]]]
    ensures Chain(m', nodes, p, r, q)
    decreases |r|
  {
    if r != [] {
      assert r[0] in r;
      forall i | 0 <= i < |r[1..]|
        ensures r[1..][i] < |nodes| && nodes[r[1..][i]] in m && nodes[r[1..][i]] in m' &&
          m'[nodes[r[1..][i]]] == m[nodes[r[1..][i]]]
      {
        assert r[1..][i] == r[i + 1];
      }
      ChainFrame(m, m', nodes, m[p], r[1..], q);
    }
  }

  /** Changes in [lo, hi) leave a chain through other positions alone. */
  lemma ChainElsewhere(m: Field, m': Field, nodes: seq<nat>, p: nat, r: seq<nat>, q: nat, lo: nat, hi: nat, l: nat,
                       h: nat)
    requires Addresses(nodes) && Mapped(m, nodes) && Chain(m, nodes, p, r, q) && ChangedWithin(m, m', nodes, lo, hi)
    requires Within(r, l, h) && (h <= lo || hi <= l)
    ensures Chain(m', nodes, p, r, q)
  {
    hide Chain;
    ChainWithin(m, nodes, p, r, q);
    ChainFrame(m, m', nodes, p, r, q);
  }

  lemma WriteKeeps(m: Field, nodes: seq<nat>, p: nat, r: seq<nat>, q: nat, x: nat, v: nat)
    requires Addresses(nodes) && Mapped(m, nodes) && Chain(m, nodes, p, r, q) && x < |nodes| && x !in r
    ensures Chain(m[nodes[x] := v], nodes, p, r, q)
  {
    hide Chain;
    ChainWithin(m, nodes, p, r, q);
    ChainFrame(m, m[nodes[x] := v], nodes, p, r, q);
  }

  lemma {:induction false} ChainSnoc(m: Field, nodes: seq<nat>, p: nat, r: seq<nat>, x: nat)
    requires x < |nodes| && nodes[x] in m && Chain(m, nodes, p, r, nodes[x])
    ensures Chain(m, nodes, p, r + [x], m[nodes[x]])
    decreases |r|
  {
    if r == [] {
      assert r + [x] == [x] && [x][1..] == [];
    } else {
      ChainSnoc(m, nodes, m[p], r[1..], x);
      assert (r + [x])[1..] == r[1..] + [x];
    }
  }

  lemma {:induction false} ChainJoin(m: Field, nodes: seq<nat>, p: nat, r: seq<nat>, q: nat, s: seq<nat>, z: nat)
    requires Chain(m, nodes, p, r, q) && Chain(m, nodes, q, s, z)
    ensures Chain(m, nodes, p, r + s, z)
    decreases |r|
  {
    if r == [] {
      assert r + s == s;
    } else {
      ChainJoin(m, nodes, m[p], r[1..], q, s, z);
      assert (r + s)[1..] == r[1..] + s;
    }
  }

  lemma ChainStep(m: Field, nodes: seq<nat>, p: nat, r: seq<nat>, q: nat)
    requires Chain(m, nodes, p, r, q) && r != []
    ensures r[0] < |nodes| && p == nodes[r[0]] && p in m && Chain(m, nodes, m[p], r[1..], q)
  {
  }

  /** A run is empty exactly when its pointer is null. */
  lemma NullIsEmpty(m: Field, nodes: seq<nat>, p: nat, r: seq<nat>)
    requires Addresses(nodes) && RunAt(m, nodes, p, r)
    ensures p == 0 <==> r == []
  {
  }

  // ---------------------------------------------------------------- a list under construction

  /** The nodes done are linked from head; the next field of the last, tail, is still to be written. */
  ghost predicate Built(m: Field, nodes: seq<nat>, head: nat, done: seq<nat>, tail: nat) {
    if done == [] then tail == 0
    else
      var n := |done| - 1;
      done[n] < |nodes| && tail == nodes[done[n]] && Chain(m, nodes, head, done[..n], tail)
  }

  /** Writing the tail's next field appends a node. */
  lemma BuiltAppend(m: Field, nodes: seq<nat>, head: nat, done: seq<nat>, tail: nat, x: nat)
    requires Addresses(nodes) && Mapped(m, nodes) && Built(m, nodes, head, done, tail) && done != [] && x < |nodes|
    requires Distinct(done)
    ensures Built(m[tail := nodes[x]], nodes, head, done + [x], nodes[x])
  {
    BuiltEnd(m, nodes, head, done, tail, nodes[x]);
    assert (done + [x])[..|done|] == done;
  }

  lemma BuiltFirst(m: Field, nodes: seq<nat>, x: nat)
    requires x < |nodes|
    ensures Built(m, nodes, nodes[x], [x], nodes[x])
  {
    assert [x][..0] == [];
  }

  lemma BuiltEnd(m: Field, nodes: seq<nat>, head: nat, done: seq<nat>, tail: nat, v: nat)
    requires Addresses(nodes) && Mapped(m, nodes) && Built(m, nodes, head, done, tail) && done != []
    requires Distinct(done)
    ensures Chain(m[tail := v], nodes, head, done, v)
  {
    hide Chain;
    var n, m' := |done| - 1, m[tail := v];
    WriteKeeps(m, nodes, head, done[..n], tail, done[n], v);
    ChainSnoc(m', nodes, head, done[..n], done[n]);
    assert done[..n] + [done[n]] == done;
  }

  // ---------------------------------------------------------------- the circular list

  /** Following m from from visits r; from is what its first node points back to. */
  ghost predicate BackChain(m: Field, nodes: seq<nat>, from: nat, r: seq<nat>, last: nat)
    decreases |r|
  {
    if r == [] then last == from
    else r[0] < |nodes| && nodes[r[0]] in m && m[nodes[r[0]]] == from && BackChain(m, nodes, nodes[r[0]], r[1..], last)
  }

  /** A doubly linked circular list from head through the positions r. */
  ghost predicate Circular(next: Field, prev: Field, nodes: seq<nat>, head: nat, r: seq<nat>) {
    head in next && head in prev && Chain(next, nodes, next[head], r, head) &&
    BackChain(prev, nodes, head, r, prev[head])
  }

  lemma {:induction false} BackChainSnoc(m: Field, nodes: seq<nat>, from: nat, r: seq<nat>, last: nat, x: nat)
    requires Addresses(nodes) && BackChain(m, nodes, from, r, last) && x < |nodes| && x !in r
    ensures BackChain(m[nodes[x] := last], nodes, from, r + [x], nodes[x])
    decreases |r|
  {
    if r == [] {
      assert r + [x] == [x] && [x][1..] == [];
    } else {
      assert r[0] in r && forall y :: y in r[1..] ==> y in r;
      BackChainSnoc(m, nodes, nodes[r[0]], r[1..], last, x);
      assert (r + [x])[1..] == r[1..] + [x];
    }
  }

  /** Writing a field outside the chain. */
  lemma {:induction false} BackChainKeeps(m: Field, nodes: seq<nat>, from: nat, r: seq<nat>, last: nat, a: nat, v: nat)
    requires BackChain(m, nodes, from, r, last) && (forall i :: 0 <= i < |nodes| ==> nodes[i] != a)
    ensures BackChain(m[a := v], nodes, from, r, last)
    decreases |r|
  {
    if r != [] {
      BackChainKeeps(m, nodes, nodes[r[0]], r[1..], last, a, v);
    }
  }

  // ---------------------------------------------------------------- the pending runs

  /** The first node of run i, null past the last run. */
  ghost function Head(nodes: seq<nat>, p: Runlist, i: nat): nat {
    if i < |p| && p[i] != [] && p[i][0] < |nodes| then nodes[p[i][0]] else 0
  }

  /** Run i of the pending list is in memory and leads on to run i + 1. */
  ghost predicate Listed(next: Field, prev: Field, nodes: seq<nat>, p: Runlist, i: nat)
    requires i < |p|
  {
    var h := Head(nodes, p, i);
    p[i] != [] && RunAt(next, nodes, h, p[i]) && h in prev && prev[h] == Head(nodes, p, i + 1)
  }

  ghost predicate PendAt(next: Field, prev: Field, nodes: seq<nat>, pending: nat, p: Runlist) {
    pending == Head(nodes, p, 0) && forall i :: 0 <= i < |p| ==> Listed(next, prev, nodes, p, i)
  }

  lemma {:induction false} TotalMonotone(p: Runlist, i: nat, j: nat)
    requires i <= j <= |p|
    ensures Total(p, i) <= Total(p, j)
    decreases j
  {
    if i < j {
      TotalMonotone(p, i, j - 1);
    }
  }

  /** Where run i lies. */
  lemma SegmentAt(cmp: Cmp, n: nat, p: Runlist, hi: nat, i: nat)
    requires Segments(cmp, n, p, hi) && i < |p|
    ensures Total(p, i) <= Total(p, i + 1) <= hi <= n
    ensures RunOf(cmp, n, p[i], hi - Total(p, i + 1), hi - Total(p, i))
  {
    hide RunOf;
    SegmentsDrop(cmp, n, p, hi, i);
    SegmentsDrop(cmp, n, p, hi, i + 1);
    SegmentsDrop(cmp, n, p, hi, 0);
    assert p[i..][0] == p[i] && p[0..] == p;
    SegmentTop(cmp, n, p, hi);
  }

  lemma SegmentTop(cmp: Cmp, n: nat, p: Runlist, hi: nat)
    requires Segments(cmp, n, p, hi) && |p| > 0
    ensures hi <= n
  {
  }

  /** A run apart from the positions [lo, hi): another run of the pending list. */
  ghost predicate Clear(nodes: seq<nat>, r: seq<nat>, lo: nat, hi: nat) {
    r != [] && Within(r, 0, |nodes|) && forall i :: 0 <= i < |r| ==> r[i] < lo || hi <= r[i]
  }

  /** What a merge of the neighbouring runs t and t + 1 leaves of run i. */
  lemma OtherRunClear(cmp: Cmp, n: nat, nodes: seq<nat>, p: Runlist, hi: nat, t: nat, i: nat)
    requires n == |nodes| && Segments(cmp, n, p, hi) && t + 1 < |p| && i < |p| && i != t && i != t + 1 && p[i] != []
    ensures Total(p, t) <= Total(p, t + 2) <= hi
    ensures Clear(nodes, p[i], hi - Total(p, t + 2), hi - Total(p, t))
  {
    hide Segments, Total;
    SegmentAt(cmp, n, p, hi, i);
    SegmentAt(cmp, n, p, hi, t);
    SegmentAt(cmp, n, p, hi, t + 1);
    if i < t {
      TotalMonotone(p, i + 1, t);
    } else {
      TotalMonotone(p, t + 2, i);
    }
  }

  lemma ClearKeeps(m: Field, m': Field, nodes: seq<nat>, h: nat, r: seq<nat>, lo: nat, hi: nat)
    requires Addresses(nodes) && Mapped(m, nodes) && RunAt(m, nodes, h, r) && ChangedWithin(m, m', nodes, lo, hi)
    requires Clear(nodes, r, lo, hi)
    ensures RunAt(m', nodes, h, r)
  {
    hide Chain;
    ChainFrame(m, m', nodes, h, r, 0);
  }

  /** Where a merge of runs t and t + 1 puts its result, as list_sort's prev and pending fields say it. */
  ghost predicate Installed(prev: Field, prev': Field, nodes: seq<nat>, pending: nat, pending': nat, p: Runlist, t: nat,
                            m: nat) {
    var after := prev[m := Head(nodes, p, t + 2)];
    if t == 0 then pending' == m && prev' == after
    else pending' == pending && prev' == after[Head(nodes, p, t - 1) := m]
  }

  /** The heads of different runs differ. */
  lemma HeadsDiffer(nodes: seq<nat>, r: seq<nat>, x: nat, lo: nat, hi: nat)
    requires Addresses(nodes) && Clear(nodes, r, lo, hi) && lo <= x < hi && x < |nodes|
    ensures nodes[r[0]] != nodes[x]
  {
  }

  lemma RunHeadsDiffer(cmp: Cmp, nodes: seq<nat>, p: Runlist, hi: nat, i: nat, j: nat)
    requires Addresses(nodes) && Segments(cmp, |nodes|, p, hi) && i < j < |p| && p[i] != [] && p[j] != []
    ensures Head(nodes, p, i) != 0 && Head(nodes, p, j) != 0 && Head(nodes, p, i) != Head(nodes, p, j)
  {
    hide Segments, Total;
    SegmentAt(cmp, |nodes|, p, hi, i);
    SegmentAt(cmp, |nodes|, p, hi, j);
    TotalMonotone(p, i + 1, j);
  }

  /** The prev field of a run that takes no part in the merge. */
  lemma OtherPrev(cmp: Cmp, prev: Field, prev': Field, nodes: seq<nat>, pending: nat, pending': nat, p: Runlist,
                  hi: nat, t: nat, i: nat, x: nat)
    requires Addresses(nodes) && Segments(cmp, |nodes|, p, hi) && t + 1 < |p| && i < |p| && i != t && i != t + 1
    requires forall k :: 0 <= k < |p| ==> p[k] != []
    requires x < |nodes| && Total(p, t + 2) <= hi && hi - Total(p, t + 2) <= x < hi - Total(p, t)
    requires Installed(prev, prev', nodes, pending, pending', p, t, nodes[x])
    requires Head(nodes, p, i) in prev
    ensures Head(nodes, p, i) in prev'
    ensures prev'[Head(nodes, p, i)] == if i + 1 == t then nodes[x] else prev[Head(nodes, p, i)]
  {
    hide Segments, Total;
    OtherRunClear(cmp, |nodes|, nodes, p, hi, t, i);
    HeadsDiffer(nodes, p[i], x, hi - Total(p, t + 2), hi - Total(p, t));
    if i + 1 < t {
      RunHeadsDiffer(cmp, nodes, p, hi, i, t - 1);
    } else if t > 0 && t <= i {
      RunHeadsDiffer(cmp, nodes, p, hi, t - 1, i);
    }
  }

  lemma PendingNonempty(next: Field, prev: Field, nodes: seq<nat>, pending: nat, p: Runlist)
    requires PendAt(next, prev, nodes, pending, p)
    ensures forall k :: 0 <= k < |p| ==> p[k] != []
  {
    forall k | 0 <= k < |p|
      ensures p[k] != []
    {
      assert Listed(next, prev, nodes, p, k);
    }
  }

  /** The pending list after a merge. */
  lemma PendMerged(cmp: Cmp, next: Field, next': Field, prev: Field, prev': Field, nodes: seq<nat>, pending: nat,
                   pending': nat, p: Runlist, hi: nat, t: nat, m: nat)
    requires Addresses(nodes) && Mapped(next, nodes) && Mapped(prev, nodes) && Segments(cmp, |nodes|, p, hi) &&
      t + 1 < |p|
    requires PendAt(next, prev, nodes, pending, p) && Total(p, t) <= Total(p, t + 2) <= hi
    requires ChangedWithin(next, next', nodes, hi - Total(p, t + 2), hi - Total(p, t))
    requires RunAt(next', nodes, m, Merge(cmp, p[t + 1], p[t])) &&
      Installed(prev, prev', nodes, pending, pending', p, t, m)
    ensures PendAt(next', prev', nodes, pending', MergeAt(cmp, p, t))
  {
    hide Segments, Total, Chain, ChangedWithin, Installed;
    var q := MergeAt(cmp, p, t);
    var lo, top := hi - Total(p, t + 2), hi - Total(p, t);
    PendingNonempty(next, prev, nodes, pending, p);
    MergedHead(cmp, next', nodes, p, hi, t, m);
    var x := q[t][0];
    forall i | 0 <= i < |q|
      ensures Listed(next', prev', nodes, q, i)
    {
      if i == t {
        InstalledAt(cmp, prev, prev', nodes, pending, pending', p, hi, t, x);
      } else {
        var k := if i < t then i else i + 1;
        assert Listed(next, prev, nodes, p, k);
        OtherRunClear(cmp, |nodes|, nodes, p, hi, t, k);
        ClearKeeps(next, next', nodes, Head(nodes, p, k), p[k], lo, top);
        OtherPrev(cmp, prev, prev', nodes, pending, pending', p, hi, t, k, x);
      }
    }
    InstalledFirst(prev, prev', nodes, pending, pending', p, t, m);
  }

  lemma InstalledFirst(prev: Field, prev': Field, nodes: seq<nat>, pending: nat, pending': nat, p: Runlist, t: nat,
                       m: nat)
    requires Installed(prev, prev', nodes, pending, pending', p, t, m)
    ensures pending' == if t == 0 then m else pending
  {
  }

  lemma InstalledAt(cmp: Cmp, prev: Field, prev': Field, nodes: seq<nat>, pending: nat, pending': nat, p: Runlist,
                    hi: nat, t: nat, x: nat)
    requires Addresses(nodes) && Segments(cmp, |nodes|, p, hi) && t + 1 < |p|
    requires forall k :: 0 <= k < |p| ==> p[k] != []
    requires x < |nodes| && Total(p, t + 2) <= hi && hi - Total(p, t + 2) <= x < hi - Total(p, t)
    requires Installed(prev, prev', nodes, pending, pending', p, t, nodes[x])
    ensures nodes[x] in prev' && prev'[nodes[x]] == Head(nodes, p, t + 2)
  {
    hide Segments, Total;
    if t > 0 {
      OtherRunClear(cmp, |nodes|, nodes, p, hi, t, t - 1);
      HeadsDiffer(nodes, p[t - 1], x, hi - Total(p, t + 2), hi - Total(p, t));
    }
  }

  lemma MergedHead(cmp: Cmp, next': Field, nodes: seq<nat>, p: Runlist, hi: nat, t: nat, m: nat)
    requires Segments(cmp, |nodes|, p, hi) && t + 1 < |p| && p[t] != []
    requires RunAt(next', nodes, m, Merge(cmp, p[t + 1], p[t]))
    ensures Total(p, t) <= Total(p, t + 2) <= hi
    ensures var r := MergeAt(cmp, p, t)[t];
      r != [] && r[0] < |nodes| && m == nodes[r[0]] && hi - Total(p, t + 2) <= r[0] < hi - Total(p, t)
  {
    hide Segments, Total, Merge;
    SegmentAt(cmp, |nodes|, p, hi, t);
    SegmentAt(cmp, |nodes|, p, hi, t + 1);
    MergeExactly(cmp, p[t + 1], p[t], hi - Total(p, t + 2), hi - Total(p, t + 1), hi - Total(p, t));
  }

  // ---------------------------------------------------------------- the input list

  function Range(lo: nat, hi: nat): seq<nat>
    requires lo <= hi
  {
    seq(hi - lo, i requires 0 <= i => lo + i)
  }

  lemma RangeExactly(lo: nat, hi: nat)
    requires lo <= hi
    ensures Exactly(Range(lo, hi), lo, hi)
  {
    forall x | lo <= x < hi
      ensures x in Range(lo, hi)
    {
      assert Range(lo, hi)[x - lo] == x;
    }
  }

  lemma RangeTail(lo: nat, hi: nat)
    requires lo < hi
    ensures Range(lo, hi)[0] == lo && Range(lo, hi)[1..] == Range(lo + 1, hi)
  {
  }

  lemma {:induction false} ChainLast(m: Field, nodes: seq<nat>, p: nat, r: seq<nat>, q: nat)
    requires Chain(m, nodes, p, r, q) && r != []
    ensures var n := |r| - 1;
      r[n] < |nodes| && nodes[r[n]] in m && m[nodes[r[n]]] == q && Chain(m, nodes, p, r[..n], nodes[r[n]])
    decreases |r|
  {
    var n := |r| - 1;
    if n == 0 {
      assert r[1..] == [];
    } else {
      ChainLast(m, nodes, m[p], r[1..], q);
      assert r[1..][n - 1] == r[n] && r[1..][..n - 1] == r[..n][1..];
    }
  }

  lemma {:induction false} BackChainLast(m: Field, nodes: seq<nat>, from: nat, r: seq<nat>, last: nat)
    requires BackChain(m, nodes, from, r, last) && r != []
    ensures r[|r| - 1] < |nodes| && last == nodes[r[|r| - 1]]
    decreases |r|
  {
    if |r| == 1 {
      assert r[1..] == [];
    } else {
      BackChainLast(m, nodes, nodes[r[0]], r[1..], last);
      assert r[1..][|r| - 2] == r[|r| - 1];
    }
  }

  /** Cutting the circle open after its last element. */
  lemma CutCircle(next: Field, prev: Field, nodes: seq<nat>, head: nat, r: seq<nat>)
    requires Addresses(nodes) && Mapped(next, nodes) && Circular(next, prev, nodes, head, r) && r != [] && Distinct(r)
    ensures prev[head] in nodes && prev[head] in next && RunAt(next[prev[head] := 0], nodes, next[head], r)
  {
    hide Chain, BackChain;
    var n := |r| - 1;
    BackChainLast(prev, nodes, head, r, prev[head]);
    ChainLast(next, nodes, next[head], r, head);
    WriteKeeps(next, nodes, next[head], r[..n], nodes[r[n]], r[n], 0);
    ChainSnoc(next[prev[head] := 0], nodes, next[head], r[..n], r[n]);
    assert r[..n] + [r[n]] == r;
  }

  /** Zero or one elements exactly when the head's two links agree. */
  lemma ShortList(next: Field, prev: Field, nodes: seq<nat>, head: nat)
    requires Addresses(nodes) && head !in nodes && Circular(next, prev, nodes, head, Range(0, |nodes|))
    ensures next[head] == prev[head] <==> |nodes| <= 1
  {
    hide BackChain;
    if |nodes| > 0 {
      BackChainLast(prev, nodes, head, Range(0, |nodes|), prev[head]);
    } else {
      BackChainEmpty(prev, nodes, head, prev[head]);
    }
  }

  lemma BackChainEmpty(m: Field, nodes: seq<nat>, from: nat, last: nat)
    requires BackChain(m, nodes, from, [], last)
    ensures last == from
  {
  }

  /** A new element in front of the pending runs. */
  lemma PendPush(cmp: Cmp, next: Field, prev: Field, nodes: seq<nat>, pending: nat, p: Runlist, k: nat)
    requires Addresses(nodes) && Mapped(next, nodes) && Mapped(prev, nodes) && k < |nodes| &&
      Segments(cmp, |nodes|, p, k)
    requires PendAt(next, prev, nodes, pending, p)
    ensures PendAt(next[nodes[k] := 0], prev[nodes[k] := pending], nodes, nodes[k], [[k]] + p)
  {
    hide Segments, Chain;
    var q := [[k]] + p;
    var next', prev' := next[nodes[k] := 0], prev[nodes[k] := pending];
    forall i | 0 <= i < |q|
      ensures Listed(next', prev', nodes, q, i)
    {
      if i == 0 {
        SingleRun(next', nodes, k);
      } else {
        assert Listed(next, prev, nodes, p, i - 1);
        SegmentAt(cmp, |nodes|, p, k, i - 1);
        WriteKeeps(next, nodes, Head(nodes, p, i - 1), p[i - 1], 0, k, 0);
        assert q[i] == p[i - 1];
      }
    }
  }

  lemma SingleRun(m: Field, nodes: seq<nat>, k: nat)
    requires k < |nodes| && nodes[k] in m && m[nodes[k]] == 0
    ensures RunAt(m, nodes, nodes[k], [k])
  {
    assert [k][1..] == [];
  }
}
