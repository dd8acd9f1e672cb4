/**
 so3/lib/list_sort.c on the next and prev fields of list nodes, against the sort on positions.
 */
module ListSort {
  import opened Queues
  import opened SortSpec
  import opened ListLinks

  type Comparator = (nat, nat) -> int

  type Calls = seq<(nat, nat)>

  /** Since then, every call has named two elements of the input, the earlier one first. */
  ghost predicate EarlierFirst(since: Calls, calls: Calls) {
    |since| <= |calls| && calls[..|since|] == since && forall k :: |since| <= k < |calls| ==> calls[k].0 < calls[k].1
  }

  lemma EarlierFirstTrans(a: Calls, b: Calls, c: Calls)
    requires EarlierFirst(a, b) && EarlierFirst(b, c)
    ensures EarlierFirst(a, c)
  {
    assert c[..|a|] == c[..|b|][..|a|];
    forall k | |a| <= k < |c|
      ensures c[k].0 < c[k].1
    {
      assert k < |b| ==> c[k] == c[..|b|][k];
    }
  }

  lemma EarlierFirstNone(a: Calls)
    ensures EarlierFirst(a, a)
  {
  }

  lemma EarlierFirstOne(a: Calls, b: Calls, i: nat, j: nat)
    requires EarlierFirst(a, b) && i < j
    ensures EarlierFirst(a, b + [(i, j)])
  {
    assert (b + [(i, j)])[..|a|] == b[..|a|];
  }

  // ---------------------------------------------------------------- elements compared with themselves

  /** The calls made while n nodes of the remainder y get their back links: every 256th node with itself. */
  function SelfCalls(y: seq<nat>, n: nat): Calls
    requires n <= |y|
  {
    if n == 0 then [] else SelfCalls(y, n - 1) + if n % 256 == 0 then [(y[n - 1], y[n - 1])] else []
  }

  /** One call for every full 256 nodes, on the last of them. */
  lemma {:induction false} SelfCallsAre(y: seq<nat>, n: nat)
    requires n <= |y|
    ensures |SelfCalls(y, n)| == n / 256
    ensures forall j :: 0 <= j < n / 256 ==>
      256 * j + 255 < n && SelfCalls(y, n)[j] == (y[256 * j + 255], y[256 * j + 255])
  {
    if n > 0 {
      SelfCallsAre(y, n - 1);
    }
  }

  /** What is left of one run when the other is used up. */
  function Remainder(c: Cmp, x: seq<nat>, y: seq<nat>): (r: seq<nat>)
    ensures |r| <= |x| + |y|
    decreases |x| + |y|
  {
    if x == [] then y
    else if y == [] then x
    else if c(x[0], y[0]) <= 0 then Remainder(c, x[1..], y)
    else Remainder(c, x, y[1..])
  }

  /** The remainder of the last merge of n elements. */
  function FinalRemainder(c: Cmp, n: nat): seq<nat> {
    var p := Pending(c, n);
    if |p| < 2 then [] else Remainder(c, p[|p| - 1], Finish(c, p, |p| - 1))
  }

  /** Calls with the earlier element first, and then exactly the self-calls for the remainder y. */
  ghost predicate ThenSelf(since: Calls, calls: Calls, y: seq<nat>) {
    var k := |calls| - |SelfCalls(y, |y|)|;
    0 <= k && EarlierFirst(since, calls[..k]) && calls[k..] == SelfCalls(y, |y|)
  }

  /** So all calls have the earlier element first exactly if the remainder has fewer than 256 elements. */
  lemma SelfCallsExact(since: Calls, calls: Calls, y: seq<nat>)
    requires ThenSelf(since, calls, y)
    ensures EarlierFirst(since, calls) <==> |y| < 256
  {
    SelfCallsAre(y, |y|);
    var k := |calls| - |SelfCalls(y, |y|)|;
    if |y| >= 256 {
      assert calls[k] == calls[k..][0];
    } else {
      assert calls[..k] == calls;
    }
  }

  /** A merge has moved at least one element before its remainder. */
  lemma {:induction false} RemainderShorter(c: Cmp, x: seq<nat>, y: seq<nat>)
    requires x != [] && y != []
    ensures |Remainder(c, x, y)| < |x| + |y|
    decreases |x| + |y|
  {
  }

  /** When cmp never asks for an exchange, the newer run remains as it is. */
  lemma {:induction false} NewerRemains(c: Cmp, x: seq<nat>, y: seq<nat>)
    requires forall i, j :: i in x && j in y ==> c(i, j) <= 0
    ensures y != [] ==> Remainder(c, x, y) == y
    decreases |x|
  {
    if x != [] && y != [] {
      NewerRemains(c, x[1..], y);
    }
  }

  lemma {:induction false} FinishLength(c: Cmp, p: Runlist, i: nat)
    requires 1 <= i <= |p|
    ensures |Finish(c, p, i)| == Total(p, i)
  {
    hide SortSpec.Merge;
    if i > 1 {
      FinishLength(c, p, i - 1);
      MergeElements(c, p[i - 1], Finish(c, p, i - 1));
    } else {
      TotalOne(p);
    }
  }

  lemma {:induction false} TotalIsSum(p: Runlist, s: seq<nat>, i: nat)
    requires HasSizes(p, s) && i <= |p|
    ensures Total(p, i) == Sum(s[..i])
  {
    if i > 0 {
      TotalIsSum(p, s, i - 1);
      assert s[..i][..i - 1] == s[..i - 1];
    }
  }

  /** The last merge is at worst two to one, so at least a third of the elements is newer than the oldest run. */
  lemma NewerThird(c: Cmp, n: nat)
    requires n >= 2
    ensures var p := Pending(c, n); |p| >= 2 && 3 * Total(p, |p| - 1) >= n
  {
    hide Sizes, Pending, Sum, Segments;
    var p, s := Pending(c, n), Sizes(n);
    var i := |p| - 1;
    PendingSizes(c, n);
    AtLeastTwoRuns(n);
    FinalMergesBalanced(n, i);
    TotalIsSum(p, s, i);
    PendingSegments(c, n, n);
    SegmentsAll(c, n, p, n);
    TotalLast(p);
  }

  lemma TotalLast(p: Runlist)
    requires |p| > 0
    ensures Total(p, |p|) == Total(p, |p| - 1) + |p[|p| - 1]|
  {
  }

  /** The failing case arises: an input of 768 or more elements that is already in order. */
  lemma SortedInputSelfCalls(c: Cmp, n: nat)
    requires n >= 768 && forall i: nat, j: nat :: i < j < n ==> c(i, j) <= 0
    ensures |FinalRemainder(c, n)| >= 256
  {
    hide Pending, Finish, Remainder, Segments;
    var p := Pending(c, n);
    var i := |p| - 1;
    NewerThird(c, n);
    FinishLength(c, p, i);
    LastMerge(c, n, p[i], Finish(c, p, i));
    NewerRemains(c, p[i], Finish(c, p, i));
  }

  /** The last merge takes the oldest elements of the input and the others. */
  lemma LastMerge(c: Cmp, n: nat, x: seq<nat>, y: seq<nat>)
    requires var p := Pending(c, n); |p| >= 2 && x == p[|p| - 1] && y == Finish(c, p, |p| - 1)
    ensures forall i, j :: i in x && j in y ==> i < j < n
  {
    hide Pending, Finish, Segments;
    var p := Pending(c, n);
    var i := |p| - 1;
    PendingSegments(c, n, n);
    FinishRun(c, n, p, n, i);
    SegmentAt(c, n, p, n, i);
  }

  /** And does not arise for up to 256 elements, whatever cmp answers. */
  lemma ShortInputNoSelfCalls(c: Cmp, n: nat)
    requires n <= 256
    ensures |FinalRemainder(c, n)| < 256
  {
    hide Pending, Finish, Segments;
    var p := Pending(c, n);
    if |p| >= 2 {
      var i := |p| - 1;
      PendingSegments(c, n, n);
      SegmentsAll(c, n, p, n);
      TotalLast(p);
      FinishLength(c, p, i);
      PendingSizes(c, n);
      RunsNotEmpty(c, n);
      TotalMonotone(p, 1, i);
      TotalOne(p);
      RemainderShorter(c, p[i], Finish(c, p, i));
    }
  }

  lemma RunsNotEmpty(c: Cmp, n: nat)
    ensures var p := Pending(c, n); forall i :: 0 <= i < |p| ==> p[i] != []
  {
    hide Pending, Sizes;
    PendingSizes(c, n);
    SizesPositive(n);
  }

  lemma SizesPositive(n: nat)
    ensures forall i :: 0 <= i < |Sizes(n)| ==> Sizes(n)[i] > 0
  {
    RunsAtLeast(n, 1, 1);
  }

  lemma SelfCallsStep(y: seq<nat>, n: nat, before: Calls)
    requires n < |y|
    ensures before + SelfCalls(y, n + 1) ==
      if (n + 1) % 256 == 0 then before + SelfCalls(y, n) + [(y[n], y[n])] else before + SelfCalls(y, n)
  {
    assert before + (SelfCalls(y, n) + [(y[n], y[n])]) == before + SelfCalls(y, n) + [(y[n], y[n])];
    assert SelfCalls(y, n) + [] == SelfCalls(y, n);
  }

  lemma SelfCallsNone(y: seq<nat>, before: Calls)
    ensures before + SelfCalls(y, 0) == before
  {
  }

  lemma ThenSelfIs(since: Calls, before: Calls, calls: Calls, y: seq<nat>)
    requires EarlierFirst(since, before) && calls == before + SelfCalls(y, |y|)
    ensures ThenSelf(since, calls, y)
  {
    assert calls[..|before|] == before && calls[|before|..] == SelfCalls(y, |y|);
  }

  lemma ThenSelfSince(since: Calls, before: Calls, calls: Calls, y: seq<nat>)
    requires EarlierFirst(since, before) && ThenSelf(before, calls, y)
    ensures ThenSelf(since, calls, y)
  {
    EarlierFirstTrans(since, before, calls[..|calls| - |SelfCalls(y, |y|)|]);
  }

  lemma RemainderStep(c: Cmp, x: seq<nat>, y: seq<nat>)
    requires x != [] && y != []
    ensures Remainder(c, x, y) == if c(x[0], y[0]) <= 0 then Remainder(c, x[1..], y) else Remainder(c, x, y[1..])
  {
  }

  lemma RemainderRest(c: Cmp, y: seq<nat>)
    ensures Remainder(c, [], y) == y && Remainder(c, y, []) == y
  {
  }

  /** Two null-terminated runs of neighbouring positions, ready to be merged. */
  ghost predicate Mergeable(next: Field, nodes: seq<nat>, a: nat, ra: seq<nat>, b: nat, rb: seq<nat>, lo: nat, mid: nat,
                            hi: nat) {
    Addresses(nodes) && Mapped(next, nodes) && hi <= |nodes| && ra != [] && rb != [] &&
    Exactly(ra, lo, mid) && Exactly(rb, mid, hi) && RunAt(next, nodes, a, ra) && RunAt(next, nodes, b, rb)
  }

  /** What is left of a merge: done has gone to the output, x and y remain at a and b. */
  ghost predicate Merging(next: Field, nodes: seq<nat>, c: Cmp, total: seq<nat>, done: seq<nat>, a: nat, x: seq<nat>,
                          b: nat, y: seq<nat>) {
    total == done + Merge(c, x, y) && RunAt(next, nodes, a, x) && RunAt(next, nodes, b, y)
  }

  /** What remains is not in the output yet. */
  lemma StillToCome(c: Cmp, total: seq<nat>, done: seq<nat>, x: seq<nat>, y: seq<nat>)
    requires Distinct(total) && total == done + Merge(c, x, y)
    ensures Distinct(done) && (forall k :: k in done ==> k !in x && k !in y)
  {
    var rest := Merge(c, x, y);
    MergeElements(c, x, y);
    assert total[..|done|] == done && total[|done|..] == rest;
    forall k | k in done
      ensures k !in x && k !in y
    {
      var i :| 0 <= i < |done| && done[i] == k;
      assert total[i] == k;
      assert forall j :: 0 <= j < |rest| ==> total[|done| + j] == rest[j];
      assert k !in rest;
    }
    forall i, j | 0 <= i < j < |done|
      ensures done[i] != done[j]
    {
      assert total[i] == done[i] && total[j] == done[j];
    }
  }

  /** Taking the head of the older run. */
  lemma TakeOlder(c: Cmp, done: seq<nat>, x: seq<nat>, y: seq<nat>)
    requires x != [] && y != [] && c(x[0], y[0]) <= 0
    ensures done + Merge(c, x, y) == (done + [x[0]]) + Merge(c, x[1..], y)
  {
  }

  /** Taking the head of the newer run. */
  lemma TakeNewer(c: Cmp, done: seq<nat>, x: seq<nat>, y: seq<nat>)
    requires x != [] && y != [] && c(x[0], y[0]) > 0
    ensures done + Merge(c, x, y) == (done + [y[0]]) + Merge(c, x, y[1..])
  {
  }

  lemma MergeRest(c: Cmp, r: seq<nat>)
    ensures Merge(c, [], r) == r && Merge(c, r, []) == r
  {
  }

  lemma ChangedTrans(m0: Field, m1: Field, nodes: seq<nat>, x: nat, v: nat, lo: nat, hi: nat)
    requires ChangedWithin(m0, m1, nodes, lo, hi) && lo <= x < hi && x < |nodes| && nodes[x] in m0
    ensures ChangedWithin(m0, m1[nodes[x] := v], nodes, lo, hi)
  {
  }

  lemma BuiltNone(m: Field, nodes: seq<nat>, head: nat)
    ensures Built(m, nodes, head, [], 0)
  {
  }

  lemma ChangedNone(m: Field, nodes: seq<nat>, lo: nat, hi: nat)
    ensures ChangedWithin(m, m, nodes, lo, hi)
  {
  }

  /** The map after the output of a node. */
  ghost function Linked(m: Field, done: seq<nat>, tail: nat, node: nat): Field {
    if done == [] then m else m[tail := node]
  }

  /** Output leaves a run alone that shares no node with it. */
  lemma OutputKeeps(m: Field, nodes: seq<nat>, head: nat, done: seq<nat>, tail: nat, node: nat, p: nat, r: seq<nat>)
    requires Addresses(nodes) && Mapped(m, nodes) && Built(m, nodes, head, done, tail) && RunAt(m, nodes, p, r)
    requires forall k :: k in done ==> k !in r
    ensures RunAt(Linked(m, done, tail, node), nodes, p, r)
  {
    hide Chain;
    if done != [] {
      assert done[|done| - 1] in done;
      WriteKeeps(m, nodes, p, r, 0, done[|done| - 1], node);
    }
  }

  lemma OutputWithin(m0: Field, m: Field, nodes: seq<nat>, head: nat, done: seq<nat>, tail: nat, node: nat, lo: nat,
                     hi: nat)
    requires Mapped(m0, nodes) && Built(m, nodes, head, done, tail) && ChangedWithin(m0, m, nodes, lo, hi) &&
      Within(done, lo, hi)
    ensures ChangedWithin(m0, Linked(m, done, tail, node), nodes, lo, hi)
  {
    hide Chain;
    if done != [] {
      ChangedTrans(m0, m, nodes, done[|done| - 1], node, lo, hi);
    }
  }

  lemma PrefixWithin(total: seq<nat>, done: seq<nat>, rest: seq<nat>, lo: nat, hi: nat)
    requires Within(total, lo, hi) && total == done + rest
    ensures Within(done, lo, hi) && Within(rest, lo, hi)
  {
    assert forall i :: 0 <= i < |done| ==> done[i] == total[i];
    assert forall i :: 0 <= i < |rest| ==> rest[i] == total[|done| + i];
  }

  /** The rest of the input closes the list. */
  lemma CloseList(m: Field, nodes: seq<nat>, head: nat, done: seq<nat>, tail: nat, p: nat, r: seq<nat>)
    requires Addresses(nodes) && Mapped(m, nodes) && Built(m, nodes, head, done, tail) && RunAt(m, nodes, p, r)
    requires done != [] && Distinct(done) && (forall k :: k in done ==> k !in r)
    ensures RunAt(m[tail := p], nodes, head, done + r)
  {
    hide Chain;
    assert done[|done| - 1] in done;
    WriteKeeps(m, nodes, p, r, 0, done[|done| - 1], p);
    BuiltEnd(m, nodes, head, done, tail, p);
    ChainJoin(m[tail := p], nodes, head, done, p, r, 0);
  }

  // ---------------------------------------------------------------- the final merge

  ghost predicate Anchored(nodes: seq<nat>, head: nat, next: Field, prev: Field) {
    Addresses(nodes) && Mapped(next, nodes) && Mapped(prev, nodes) && head != 0 && head !in nodes && head in next &&
    head in prev
  }

  /** Only the list's own nodes and its head have changed. */
  ghost predicate ChangedInList(m: Field, m': Field, nodes: seq<nat>, head: nat) {
    m.Keys == m'.Keys && forall k :: k in m && k != head && k !in nodes ==> m'[k] == m[k]
  }

  /** Both link directions are in place from head through done; tail's next field is still to be written. */
  ghost predicate BuiltBoth(next: Field, prev: Field, nodes: seq<nat>, head: nat, done: seq<nat>, tail: nat) {
    Anchored(nodes, head, next, prev) && BackChain(prev, nodes, head, done, tail) &&
    (if done == [] then tail == head else Built(next, nodes, next[head], done, tail))
  }

  lemma BuiltBothAppend(next: Field, prev: Field, nodes: seq<nat>, head: nat, done: seq<nat>, tail: nat, x: nat)
    requires BuiltBoth(next, prev, nodes, head, done, tail) && Distinct(done) && x < |nodes| && x !in done
    ensures BuiltBoth(next[tail := nodes[x]], prev[nodes[x] := tail], nodes, head, done + [x], nodes[x])
  {
    hide Chain;
    BackChainSnoc(prev, nodes, head, done, tail, x);
    if done == [] {
      BuiltFirst(next[tail := nodes[x]], nodes, x);
      assert done + [x] == [x];
    } else {
      BuiltAppend(next, nodes, next[head], done, tail, x);
    }
  }

  /** Linking the output leaves the runs still to be merged alone. */
  lemma BuiltBothKeeps(next: Field, prev: Field, nodes: seq<nat>, head: nat, done: seq<nat>, tail: nat, v: nat, p: nat,
                       r: seq<nat>)
    requires BuiltBoth(next, prev, nodes, head, done, tail) && RunAt(next, nodes, p, r) &&
      (forall k :: k in done ==> k !in r)
    ensures RunAt(next[tail := v], nodes, p, r)
  {
    hide Chain;
    if done == [] {
      ChainWithin(next, nodes, p, r, 0);
      ChainFrame(next, next[tail := v], nodes, p, r, 0);
    } else {
      assert done[|done| - 1] in done;
      WriteKeeps(next, nodes, p, r, 0, done[|done| - 1], v);
    }
  }

  lemma TailInList(next: Field, prev: Field, nodes: seq<nat>, head: nat, done: seq<nat>, tail: nat)
    requires BuiltBoth(next, prev, nodes, head, done, tail)
    ensures (tail == head || tail in nodes) && tail in next && head in prev && Mapped(prev, nodes)
    ensures done != [] ==> tail != head && Built(next, nodes, next[head], done, tail)
  {
  }

  /** Passing on to a node that already follows. */
  lemma BuiltBothFollow(next: Field, prev: Field, nodes: seq<nat>, head: nat, done: seq<nat>, tail: nat, x: nat)
    requires BuiltBoth(next, prev, nodes, head, done, tail) && done != [] && x < |nodes| && x !in done
    requires tail in next && next[tail] == nodes[x]
    ensures BuiltBoth(next, prev[nodes[x] := tail], nodes, head, done + [x], nodes[x])
  {
    hide Chain;
    var n := |done| - 1;
    BackChainSnoc(prev, nodes, head, done, tail, x);
    ChainSnoc(next, nodes, next[head], done[..n], done[n]);
    assert done[..n] + [done[n]] == done && (done + [x])[..|done|] == done;
  }

  lemma BuiltBothNone(next: Field, prev: Field, nodes: seq<nat>, head: nat)
    requires Anchored(nodes, head, next, prev)
    ensures BuiltBoth(next, prev, nodes, head, [], head)
  {
  }

  lemma ChangedInListRefl(m: Field, nodes: seq<nat>, head: nat)
    ensures ChangedInList(m, m, nodes, head)
  {
  }

  lemma ChangedInListTrans(m: Field, m': Field, m'': Field, nodes: seq<nat>, head: nat)
    requires ChangedInList(m, m', nodes, head) && ChangedInList(m', m'', nodes, head)
    ensures ChangedInList(m, m'', nodes, head)
  {
  }

  lemma SplitDistinct(done: seq<nat>, y: seq<nat>)
    requires Distinct(done + y)
    ensures Distinct(done) && (forall k :: k in done ==> k !in y) && (forall i :: 0 <= i < |y| ==> y[i] !in done)
  {
    var t := done + y;
    assert forall i :: 0 <= i < |done| ==> t[i] == done[i];
    assert forall i :: 0 <= i < |y| ==> t[|done| + i] == y[i];
  }

  lemma RelinkTail(next: Field, prev: Field, nodes: seq<nat>, head: nat, done: seq<nat>, tail: nat, v: nat)
    requires BuiltBoth(next, prev, nodes, head, done, tail) && done != [] && Distinct(done)
    ensures BuiltBoth(next[tail := v], prev, nodes, head, done, tail)
  {
    hide Chain;
    var n := |done| - 1;
    WriteKeeps(next, nodes, next[head], done[..n], tail, done[n], v);
  }

  lemma ChangedAt(m: Field, nodes: seq<nat>, head: nat, a: nat, v: nat)
    requires a in m && (a == head || a in nodes)
    ensures ChangedInList(m, m[a := v], nodes, head)
  {
  }

  lemma NullIsEmptyHere(next: Field, prev: Field, nodes: seq<nat>, head: nat, done: seq<nat>, tail: nat, p: nat,
                        r: seq<nat>)
    requires BuiltBoth(next, prev, nodes, head, done, tail) && RunAt(next, nodes, p, r)
    ensures p == 0 <==> r == []
  {
    NullIsEmpty(next, nodes, p, r);
  }

  /** The last two links close the circle. */
  lemma CloseCircle(next: Field, prev: Field, nodes: seq<nat>, head: nat, done: seq<nat>, tail: nat)
    requires BuiltBoth(next, prev, nodes, head, done, tail) && done != [] && Distinct(done)
    ensures Circular(next[tail := head], prev[head := tail], nodes, head, done)
  {
    hide Chain;
    BuiltEnd(next, nodes, next[head], done, tail, head);
    BackChainKeeps(prev, nodes, head, done, tail, head, tail);
  }

  // ---------------------------------------------------------------- the input loop

  /** The pointer leading to run k, and the run found there. */
  lemma HeadFollows(next: Field, prev: Field, nodes: seq<nat>, pending: nat, p: Runlist, k: nat)
    requires Addresses(nodes) && PendAt(next, prev, nodes, pending, p) && k < |p|
    ensures k == 0 ==> pending == Head(nodes, p, 0)
    ensures k > 0 ==> Head(nodes, p, k - 1) in prev && prev[Head(nodes, p, k - 1)] == Head(nodes, p, k)
    ensures Head(nodes, p, k) != 0 && Head(nodes, p, k) in nodes && p[k] != [] &&
      RunAt(next, nodes, Head(nodes, p, k), p[k])
    ensures Head(nodes, p, k) in prev && prev[Head(nodes, p, k)] == Head(nodes, p, k + 1)
  {
    assert Listed(next, prev, nodes, p, k);
    if k > 0 {
      assert Listed(next, prev, nodes, p, k - 1);
    }
  }

  lemma RunExactly(c: Cmp, n: nat, r: seq<nat>, lo: nat, hi: nat)
    requires RunOf(c, n, r, lo, hi)
    ensures hi <= n && Exactly(r, lo, hi)
  {
  }

  lemma ChangedMore(m: Field, m': Field, nodes: seq<nat>, lo: nat, hi: nat, l: nat, h: nat)
    requires ChangedWithin(m, m', nodes, lo, hi) && l <= lo && hi <= h
    ensures ChangedWithin(m, m', nodes, l, h)
  {
  }

  /** Between rounds: count elements are in the pending runs, the rest is the input list. */
  ghost predicate Sorting(next: Field, prev: Field, cmp: Comparator, nodes: seq<nat>, head: nat, list: nat,
                          pending: nat, count: nat) {
    Anchored(nodes, head, next, prev) && count <= |nodes| &&
    PendAt(next, prev, nodes, pending, Pending(ByPosition(cmp, nodes), count)) &&
    RunAt(next, nodes, list, Range(count, |nodes|))
  }

  lemma StillAnchored(nodes: seq<nat>, head: nat, next: Field, prev: Field, next': Field, prev': Field, lo: nat,
                      hi: nat)
    requires Anchored(nodes, head, next, prev) && ChangedWithin(next, next', nodes, lo, hi) && prev.Keys == prev'.Keys
    ensures Anchored(nodes, head, next', prev')
  {
  }

  lemma WithinList(m: Field, m': Field, nodes: seq<nat>, head: nat, lo: nat, hi: nat)
    requires ChangedWithin(m, m', nodes, lo, hi)
    ensures ChangedInList(m, m', nodes, head)
  {
  }

  // ---------------------------------------------------------------- the closing merges

  /** Run i and everything older. */
  ghost predicate Waiting(next: Field, prev: Field, nodes: seq<nat>, p: Runlist, i: nat) {
    forall k :: i <= k < |p| ==> Listed(next, prev, nodes, p, k)
  }

  lemma WaitingStep(next: Field, prev: Field, nodes: seq<nat>, p: Runlist, i: nat)
    requires Addresses(nodes) && Waiting(next, prev, nodes, p, i) && i < |p|
    ensures Head(nodes, p, i) in prev && prev[Head(nodes, p, i)] == Head(nodes, p, i + 1)
    ensures p[i] != [] && RunAt(next, nodes, Head(nodes, p, i), p[i])
    ensures Head(nodes, p, i + 1) == 0 <==> i + 1 == |p|
  {
    assert Listed(next, prev, nodes, p, i);
    if i + 1 < |p| {
      assert Listed(next, prev, nodes, p, i + 1);
    }
  }

  /** Merging the newer runs leaves the older ones alone. */
  lemma WaitingKept(c: Cmp, next: Field, next': Field, prev: Field, nodes: seq<nat>, p: Runlist, i: nat)
    requires Addresses(nodes) && Mapped(next, nodes) && i <= |p| && Segments(c, |nodes|, p, |nodes|)
    requires Total(p, i) <= |nodes| && ChangedWithin(next, next', nodes, |nodes| - Total(p, i), |nodes|)
    requires forall k :: i <= k < |p| ==> Listed(next, prev, nodes, p, k)
    ensures Waiting(next', prev, nodes, p, i)
  {
    hide Chain, Segments, Total, ChangedWithin;
    forall k | i <= k < |p|
      ensures Listed(next', prev, nodes, p, k)
    {
      SegmentAt(c, |nodes|, p, |nodes|, k);
      TotalMonotone(p, i, k);
      assert Listed(next, prev, nodes, p, k);
      ChainElsewhere(next, next', nodes, Head(nodes, p, k), p[k], 0, |nodes| - Total(p, i), |nodes|,
        |nodes| - Total(p, k + 1), |nodes| - Total(p, k));
    }
  }

  /** The newer runs so far and run i are neighbours. */
  lemma FinalMergeable(c: Cmp, next: Field, nodes: seq<nat>, p: Runlist, i: nat, list: nat)
    requires Segments(c, |nodes|, p, |nodes|) && 1 <= i < |p| && RunAt(next, nodes, list, Finish(c, p, i))
    requires |p[0]| > 0
    ensures Total(p, i) <= Total(p, i + 1) <= |nodes|
    ensures Exactly(p[i], |nodes| - Total(p, i + 1), |nodes| - Total(p, i))
    ensures Exactly(Finish(c, p, i), |nodes| - Total(p, i), |nodes|) && Finish(c, p, i) != []
  {
    hide Segments, Finish;
    SegmentAt(c, |nodes|, p, |nodes|, i);
    FinishRun(c, |nodes|, p, |nodes|, i);
    TotalMonotone(p, 1, i);
    TotalOne(p);
  }

  lemma TotalOne(p: Runlist)
    requires |p| > 0
    ensures Total(p, 1) == |p[0]|
  {
    assert Total(p, 0) == 0;
  }

  lemma SegmentsAll(c: Cmp, n: nat, p: Runlist, hi: nat)
    requires Segments(c, n, p, hi)
    ensures Total(p, |p|) == hi
  {
    SegmentsDrop(c, n, p, hi, |p|);
    assert p[|p|..] == [];
  }

  lemma ChangedThen(m: Field, m': Field, m'': Field, nodes: seq<nat>, lo: nat, hi: nat)
    requires ChangedWithin(m, m', nodes, lo, hi) && ChangedWithin(m', m'', nodes, lo, hi)
    ensures ChangedWithin(m, m'', nodes, lo, hi)
  {
    forall a | a in m && m''[a] != m[a]
      ensures exists i :: lo <= i < hi && i < |nodes| && nodes[i] == a
    {
      assert m'[a] != m[a] || m''[a] != m'[a];
    }
  }

  // ---------------------------------------------------------------- start and short lists

  lemma CircularHead(next: Field, prev: Field, nodes: seq<nat>, head: nat, r: seq<nat>)
    requires Circular(next, prev, nodes, head, r)
    ensures head in next && head in prev
  {
  }

  lemma StillAnchoredAt(nodes: seq<nat>, head: nat, next: Field, prev: Field, a: nat)
    requires Anchored(nodes, head, next, prev)
    ensures Anchored(nodes, head, next[a := 0], prev)
  {
  }

  lemma NothingPending(next: Field, prev: Field, cmp: Comparator, nodes: seq<nat>, head: nat, list: nat)
    requires Anchored(nodes, head, next, prev) && RunAt(next, nodes, list, Range(0, |nodes|))
    ensures Sorting(next, prev, cmp, nodes, head, list, 0, 0)
  {
  }

  /** A list of one element is in order as it stands. */
  lemma SortShort(c: Cmp, n: nat)
    requires n <= 1
    ensures Range(0, n) == if n == 0 then [] else Sort(c, n)
  {
    if n == 1 {
      PendingStep(c, 1);
      assert Pending(c, 0) == [];
      assert Pending(c, 1) == [[0]];
    }
  }

  class ListMemory {
    var next: Field
    var prev: Field
    ghost var calls: seq<(nat, nat)>

    /** A callback to the client. */
    method Compare(cmp: Comparator, a: nat, b: nat, ghost nodes: seq<nat>, ghost i: nat, ghost j: nat) returns (r: int)
      requires i < |nodes| && j < |nodes| && nodes[i] == a && nodes[j] == b
      modifies this`calls
      ensures calls == old(calls) + [(i, j)] && r == ByPosition(cmp, nodes)(i, j)
    {
      calls := calls + [(i, j)];
      r := cmp(a, b);
    }

    /** Appends node to the merged list; a null tail stands for the address of the local head. */
    method Output(head: nat, tail: nat, node: nat, ghost nodes: seq<nat>, ghost done: seq<nat>, ghost x: nat)
      returns (h: nat, t: nat)
      requires Addresses(nodes) && Mapped(next, nodes) && Built(next, nodes, head, done, tail) && Distinct(done)
      requires x < |nodes| && node == nodes[x]
      modifies this`next
      ensures t == node && Mapped(next, nodes) && Built(next, nodes, h, done + [x], t)
      ensures next == Linked(old(next), done, tail, node)
    {
      if tail == 0 {
        h := node;
        BuiltFirst(next, nodes, x);
        assert done + [x] == [x];
      } else {
        h := head;
        BuiltAppend(next, nodes, head, done, tail, x);
        next := next[tail := node];
      }
      t := node;
    }
 
    /** merge: the older run first on ties. */
    method Merge(cmp: Comparator, a0: nat, b0: nat, ghost nodes: seq<nat>, ghost ra: seq<nat>, ghost rb: seq<nat>,
                 ghost lo: nat, ghost mid: nat, ghost hi: nat)
      returns (head: nat)
      requires Mergeable(next, nodes, a0, ra, b0, rb, lo, mid, hi)
      modifies this`next, this`calls
      ensures Mapped(next, nodes) && ChangedWithin(old(next), next, nodes, lo, hi)
      ensures RunAt(next, nodes, head, SortSpec.Merge(ByPosition(cmp, nodes), ra, rb)) &&
        EarlierFirst(old(calls), calls)
    {
      hide SortSpec.Merge, Chain, Built, ByPosition, ChangedWithin, EarlierFirst;
      ghost var c := ByPosition(cmp, nodes);
      ghost var total := SortSpec.Merge(c, ra, rb);
      MergeExactly(c, ra, rb, lo, mid, hi);
      var a, b, tail := a0, b0, 0;
      head := 0;
      ghost var x, y, done := ra, rb, [];
      BuiltNone(next, nodes, head);
      ChangedNone(next, nodes, lo, hi);
      EarlierFirstNone(calls);
      assert done + total == total;
      while true
        invariant x != [] && y != [] && Within(x, lo, mid) && Within(y, mid, hi)
        invariant Mapped(next, nodes) && Merging(next, nodes, c, total, done, a, x, b, y) &&
          Built(next, nodes, head, done, tail)
        invariant ChangedWithin(old(next), next, nodes, lo, hi) && EarlierFirst(old(calls), calls)
        decreases |x| + |y|
      {
        StillToCome(c, total, done, x, y);
        PrefixWithin(total, done, SortSpec.Merge(c, x, y), lo, hi);
        ChainStep(next, nodes, a, x, 0);
        ChainStep(next, nodes, b, y, 0);
        EarlierFirstOne(old(calls), calls, x[0], y[0]);
        var r := Compare(cmp, a, b, nodes, x[0], y[0]);
        if r <= 0 {
          TakeOlder(c, done, x, y);
          OutputKeeps(next, nodes, head, done, tail, a, a, x);
          OutputKeeps(next, nodes, head, done, tail, a, b, y);
          OutputWithin(old(next), next, nodes, head, done, tail, a, lo, hi);
          head, tail := Output(head, tail, a, nodes, done, x[0]);
          ChainStep(next, nodes, a, x, 0);
          a := next[a];
          done, x := done + [x[0]], x[1..];
          NullIsEmpty(next, nodes, a, x);
          if a == 0 {
            StillToCome(c, total, done, x, y);
            PrefixWithin(total, done, SortSpec.Merge(c, x, y), lo, hi);
            MergeRest(c, y);
            CloseList(next, nodes, head, done, tail, b, y);
            OutputWithin(old(next), next, nodes, head, done, tail, b, lo, hi);
            next := next[tail := b];
            break;
          }
        } else {
          TakeNewer(c, done, x, y);
          OutputKeeps(next, nodes, head, done, tail, b, a, x);
          OutputKeeps(next, nodes, head, done, tail, b, b, y);
          OutputWithin(old(next), next, nodes, head, done, tail, b, lo, hi);
          head, tail := Output(head, tail, b, nodes, done, y[0]);
          ChainStep(next, nodes, b, y, 0);
          b := next[b];
          done, y := done + [y[0]], y[1..];
          NullIsEmpty(next, nodes, b, y);
          if b == 0 {
            StillToCome(c, total, done, x, y);
            PrefixWithin(total, done, SortSpec.Merge(c, x, y), lo, hi);
            MergeRest(c, x);
            CloseList(next, nodes, head, done, tail, a, x);
            OutputWithin(old(next), next, nodes, head, done, tail, a, lo, hi);
            next := next[tail := a];
            break;
          }
        }
      }
    }

    /** Appends node to the merged list with both links. */
    method OutputBoth(head: nat, tail: nat, node: nat, ghost nodes: seq<nat>, ghost done: seq<nat>, ghost x: nat)
      returns (t: nat)
      requires BuiltBoth(next, prev, nodes, head, done, tail) && Distinct(done) && x < |nodes| && x !in done &&
        node == nodes[x]
      modifies this`next, this`prev
      ensures t == node && BuiltBoth(next, prev, nodes, head, done + [x], t)
      ensures next == old(next)[tail := node] && ChangedInList(old(next), next, nodes, head)
      ensures ChangedInList(old(prev), prev, nodes, head)
    {
      hide BackChain, Chain, Built;
      TailInList(next, prev, nodes, head, done, tail);
      BuiltBothAppend(next, prev, nodes, head, done, tail, x);
      next := next[tail := node];
      prev := prev[node := tail];
      t := node;
    }

    /** merge_final's first loop: b takes whichever run is left. */
    method MergeBoth(cmp: Comparator, head: nat, a0: nat, b0: nat, ghost nodes: seq<nat>, ghost ra: seq<nat>,
                     ghost rb: seq<nat>, ghost mid: nat)
      returns (tail: nat, b: nat, ghost done: seq<nat>, ghost y: seq<nat>)
      requires Anchored(nodes, head, next, prev)
      requires Mergeable(next, nodes, a0, ra, b0, rb, 0, mid, |nodes|)
      modifies this`next, this`prev, this`calls
      ensures ChangedInList(old(next), next, nodes, head) && ChangedInList(old(prev), prev, nodes, head) &&
        EarlierFirst(old(calls), calls)
      ensures BuiltBoth(next, prev, nodes, head, done, tail) && done != [] && y != [] && RunAt(next, nodes, b, y)
      ensures SortSpec.Merge(ByPosition(cmp, nodes), ra, rb) == done + y
      ensures y == Remainder(ByPosition(cmp, nodes), ra, rb)
    {
      hide SortSpec.Merge, Chain, BackChain, BuiltBoth, ByPosition, ChangedInList, Addresses, EarlierFirst, Remainder;
      ghost var c := ByPosition(cmp, nodes);
      ghost var total := SortSpec.Merge(c, ra, rb);
      MergeExactly(c, ra, rb, 0, mid, |nodes|);
      var a := a0;
      b, tail := b0, head;
      ghost var x := ra;
      y, done := rb, [];
      BuiltBothNone(next, prev, nodes, head);
      EarlierFirstNone(calls);
      ChangedInListRefl(next, nodes, head);
      ChangedInListRefl(prev, nodes, head);
      assert done + total == total;
      while true
        invariant x != [] && y != [] && Within(x, 0, mid) && Within(y, mid, |nodes|)
        invariant Merging(next, nodes, c, total, done, a, x, b, y) && BuiltBoth(next, prev, nodes, head, done, tail)
        invariant ChangedInList(old(next), next, nodes, head) && ChangedInList(old(prev), prev, nodes, head) &&
          EarlierFirst(old(calls), calls)
        invariant Remainder(c, x, y) == Remainder(c, ra, rb)
        decreases |x| + |y|
      {
        StillToCome(c, total, done, x, y);
        ChainStep(next, nodes, a, x, 0);
        ChainStep(next, nodes, b, y, 0);
        EarlierFirstOne(old(calls), calls, x[0], y[0]);
        var r := Compare(cmp, a, b, nodes, x[0], y[0]);
        ghost var next0, prev0 := next, prev;
        if r <= 0 {
          TakeOlder(c, done, x, y);
          RemainderStep(c, x, y);
          BuiltBothKeeps(next, prev, nodes, head, done, tail, a, a, x);
          BuiltBothKeeps(next, prev, nodes, head, done, tail, a, b, y);
          tail := OutputBoth(head, tail, a, nodes, done, x[0]);
          ChainStep(next, nodes, a, x, 0);
          a := next[a];
          done, x := done + [x[0]], x[1..];
          NullIsEmpty(next, nodes, a, x);
          ChangedInListTrans(old(next), next0, next, nodes, head);
          ChangedInListTrans(old(prev), prev0, prev, nodes, head);
          if a == 0 {
            MergeRest(c, y);
            RemainderRest(c, y);
            break;
          }
        } else {
          TakeNewer(c, done, x, y);
          RemainderStep(c, x, y);
          BuiltBothKeeps(next, prev, nodes, head, done, tail, b, a, x);
          BuiltBothKeeps(next, prev, nodes, head, done, tail, b, b, y);
          tail := OutputBoth(head, tail, b, nodes, done, y[0]);
          ChainStep(next, nodes, b, y, 0);
          b := next[b];
          done, y := done + [y[0]], y[1..];
          NullIsEmpty(next, nodes, b, y);
          ChangedInListTrans(old(next), next0, next, nodes, head);
          ChangedInListTrans(old(prev), prev0, prev, nodes, head);
          if b == 0 {
            MergeRest(c, x);
            RemainderRest(c, x);
            b, y := a, x;
            break;
          }
        }
      }
    }

    /** The loop of merge_final over what is left of b: it sets the back links and calls cmp every 256 elements. */
    method LinkBack(cmp: Comparator, head: nat, tail0: nat, b0: nat, ghost nodes: seq<nat>,
                    ghost done0: seq<nat>, ghost y0: seq<nat>) returns (tail: nat)
      requires BuiltBoth(next, prev, nodes, head, done0, tail0) && done0 != [] && y0 != [] && RunAt(next, nodes, b0, y0)
      requires tail0 in next && next[tail0] == b0 && Distinct(done0 + y0)
      modifies this`prev, this`calls
      ensures ChangedInList(old(prev), prev, nodes, head)
      ensures calls == old(calls) + SelfCalls(y0, |y0|)
      ensures BuiltBoth(next, prev, nodes, head, done0 + y0, tail)
    {
      hide Chain, BackChain, BuiltBoth, ChangedInList, Built, Circular, SelfCalls;
      tail := tail0;
      var b, count := b0, 0;
      ghost var done, y := done0, y0;
      ghost var n: nat := 0;
      ghost var total := done0 + y0;
      ChangedInListRefl(prev, nodes, head);
      SelfCallsNone(y0, old(calls));
      while true
        invariant done != [] && y != [] && total == done + y && 0 <= count < 256
        invariant BuiltBoth(next, prev, nodes, head, done, tail) && RunAt(next, nodes, b, y)
        invariant tail in next && next[tail] == b && ChangedInList(old(prev), prev, nodes, head)
        invariant n + |y| == |y0| && y == y0[n..] && count == n % 256 && calls == old(calls) + SelfCalls(y0, n)
        decreases |y|
      {
        SplitDistinct(done, y);
        ChainStep(next, nodes, b, y, 0);
        count := (count + 1) % 256;
        SelfCallsStep(y0, n, old(calls));
        if count == 0 {
          var _ := Compare(cmp, b, b, nodes, y[0], y[0]);
        }
        n := n + 1;
        ghost var prev0 := prev;
        TailInList(next, prev, nodes, head, done, tail);
        BuiltBothFollow(next, prev, nodes, head, done, tail, y[0]);
        ChangedAt(prev, nodes, head, b, tail);
        prev := prev[b := tail];
        ChangedInListTrans(old(prev), prev0, prev, nodes, head);
        tail := b;
        b := next[b];
        assert done + y == (done + [y[0]]) + y[1..];
        done, y := done + [y[0]], y[1..];
        NullIsEmptyHere(next, prev, nodes, head, done, tail, b, y);
        if b == 0 {
          break;
        }
      }
      assert done == total;
    }

    /** The end of merge_final: the rest of b behind tail, and the circle closed. */
    method FinishLinks(cmp: Comparator, head: nat, tail0: nat, b0: nat, ghost nodes: seq<nat>,
                       ghost done0: seq<nat>, ghost y0: seq<nat>)
      requires BuiltBoth(next, prev, nodes, head, done0, tail0) && done0 != [] && y0 != [] && RunAt(next, nodes, b0, y0)
      requires Distinct(done0 + y0)
      modifies this`next, this`prev, this`calls
      ensures ChangedInList(old(next), next, nodes, head) && ChangedInList(old(prev), prev, nodes, head)
      ensures calls == old(calls) + SelfCalls(y0, |y0|)
      ensures Circular(next, prev, nodes, head, done0 + y0)
    {
      hide Chain, BackChain, BuiltBoth, ChangedInList, Built, Circular, SelfCalls;
      SplitDistinct(done0, y0);
      TailInList(next, prev, nodes, head, done0, tail0);
      BuiltBothKeeps(next, prev, nodes, head, done0, tail0, b0, b0, y0);
      RelinkTail(next, prev, nodes, head, done0, tail0, b0);
      ChangedAt(next, nodes, head, tail0, b0);
      next := next[tail0 := b0];
      var tail := LinkBack(cmp, head, tail0, b0, nodes, done0, y0);
      ghost var done := done0 + y0;
      CloseCircle(next, prev, nodes, head, done, tail);
      TailInList(next, prev, nodes, head, done, tail);
      ghost var next0, prev0 := next, prev;
      ChangedAt(next, nodes, head, tail, head);
      ChangedAt(prev, nodes, head, head, tail);
      next := next[tail := head];
      prev := prev[head := tail];
      ChangedInListTrans(old(next), next0, next, nodes, head);
      ChangedInListTrans(old(prev), prev0, prev, nodes, head);
    }

    /** merge_final. */
    method MergeFinal(cmp: Comparator, head: nat, a: nat, b: nat, ghost nodes: seq<nat>, ghost ra: seq<nat>,
                      ghost rb: seq<nat>, ghost mid: nat)
      requires Anchored(nodes, head, next, prev)
      requires Mergeable(next, nodes, a, ra, b, rb, 0, mid, |nodes|)
      modifies this`next, this`prev, this`calls
      ensures ChangedInList(old(next), next, nodes, head) && ChangedInList(old(prev), prev, nodes, head)
      ensures ThenSelf(old(calls), calls, Remainder(ByPosition(cmp, nodes), ra, rb))
      ensures Circular(next, prev, nodes, head, SortSpec.Merge(ByPosition(cmp, nodes), ra, rb))
    {
      hide SortSpec.Merge, Chain, BuiltBoth, ByPosition, ChangedInList, Circular, EarlierFirst, Remainder, SelfCalls,
           ThenSelf;
      MergeExactly(ByPosition(cmp, nodes), ra, rb, 0, mid, |nodes|);
      var tail, rest;
      ghost var done, y;
      tail, rest, done, y := MergeBoth(cmp, head, a, b, nodes, ra, rb, mid);
      ghost var next0, prev0, calls0 := next, prev, calls;
      FinishLinks(cmp, head, tail, rest, nodes, done, y);
      ChangedInListTrans(old(next), next0, next, nodes, head);
      ChangedInListTrans(old(prev), prev0, prev, nodes, head);
      ThenSelfIs(old(calls), calls0, calls, y);
    }

    /**
     Walks count's trailing one bits; tail is the node whose prev field leads to the runs to merge, null for
     pending itself.
     */
    method FindTail(pending: nat, count: nat, ghost nodes: seq<nat>, ghost p: Runlist) returns (tail: nat, bits: nat)
      requires Addresses(nodes) && PendAt(next, prev, nodes, pending, p) && HasSizes(p, Sizes(count))
      ensures bits == AboveOnes(count) && TrailingOnes(count) <= |p|
      ensures tail == if TrailingOnes(count) == 0 then 0 else Head(nodes, p, TrailingOnes(count) - 1)
      ensures tail == 0 <==> TrailingOnes(count) == 0
    {
      hide Runs, Chain;
      tail, bits := 0, count;
      ghost var k: nat := 0;
      OnesFit(count, 1);
      while bits % 2 == 1
        invariant TrailingOnes(count) == k + TrailingOnes(bits) && AboveOnes(count) == AboveOnes(bits)
        invariant tail == (if k == 0 then 0 else Head(nodes, p, k - 1)) && (tail == 0 <==> k == 0)
        decreases bits
      {
        HeadFollows(next, prev, nodes, pending, p, k);
        tail := if tail == 0 then pending else prev[tail];
        bits := bits / 2;
        k := k + 1;
      }
    }

    /** Merges the pending run tail leads to with the older one behind it, and installs the result in their place. */
    method MergeIndicated(cmp: Comparator, tail: nat, pending: nat, ghost nodes: seq<nat>, ghost p: Runlist,
                          ghost hi: nat, ghost t: nat)
      returns (pending': nat)
      requires Addresses(nodes) && Mapped(next, nodes) && Mapped(prev, nodes)
      requires PendAt(next, prev, nodes, pending, p) && t + 1 < |p| && Segments(ByPosition(cmp, nodes), |nodes|, p, hi)
      requires tail == (if t == 0 then 0 else Head(nodes, p, t - 1)) && (tail == 0 <==> t == 0)
      modifies this`next, this`prev, this`calls
      ensures EarlierFirst(old(calls), calls) && ChangedWithin(old(next), next, nodes, 0, hi) && hi <= |nodes|
      ensures prev.Keys == old(prev).Keys && (forall a :: a in prev && a !in nodes ==> prev[a] == old(prev)[a])
      ensures PendAt(next, prev, nodes, pending', MergeAt(ByPosition(cmp, nodes), p, t))
    {
      hide Chain, Segments, Total, SortSpec.Merge, MergeAt, ByPosition, RunOf, PendAt, Head;
      ghost var c := ByPosition(cmp, nodes);
      HeadFollows(next, prev, nodes, pending, p, t);
      HeadFollows(next, prev, nodes, pending, p, t + 1);
      PendingNonempty(next, prev, nodes, pending, p);
      SegmentAt(c, |nodes|, p, hi, t);
      SegmentAt(c, |nodes|, p, hi, t + 1);
      ghost var lo: nat, mid: nat, top: nat := hi - Total(p, t + 2), hi - Total(p, t + 1), hi - Total(p, t);
      var a := if tail == 0 then pending else prev[tail];
      var b := prev[a];
      assert Mergeable(next, nodes, b, p[t + 1], a, p[t], lo, mid, top) by {
        RunExactly(c, |nodes|, p[t + 1], lo, mid);
        RunExactly(c, |nodes|, p[t], mid, top);
      }
      var m := Merge(cmp, b, a, nodes, p[t + 1], p[t], lo, mid, top);
      ChangedMore(old(next), next, nodes, lo, top, 0, hi);
      ghost var prev0 := prev;
      MergedHead(c, next, nodes, p, hi, t, m);
      prev := prev[m := prev[b]];
      if tail == 0 {
        pending' := m;
      } else {
        pending' := pending;
        HeadFollows(old(next), prev0, nodes, pending, p, t - 1);
        prev := prev[tail := m];
      }
      PendMerged(c, old(next), next, prev0, prev, nodes, pending, pending', p, hi, t, m);
    }

    /** Moves the first input element to the pending list, as a run of one. */
    method MoveElement(head: nat, list: nat, pending: nat, ghost c: Cmp, ghost count: nat, ghost q: Runlist,
                       ghost nodes: seq<nat>)
      returns (list': nat, pending': nat)
      requires Anchored(nodes, head, next, prev) && count < |nodes| && Segments(c, |nodes|, q, count)
      requires PendAt(next, prev, nodes, pending, q) && RunAt(next, nodes, list, Range(count, |nodes|))
      modifies this`next, this`prev
      ensures Anchored(nodes, head, next, prev) && PendAt(next, prev, nodes, pending', [[count]] + q)
      ensures RunAt(next, nodes, list', Range(count + 1, |nodes|))
      ensures ChangedInList(old(next), next, nodes, head) && ChangedInList(old(prev), prev, nodes, head)
    {
      hide Chain, Segments, PendAt;
      RangeTail(count, |nodes|);
      ChainStep(next, nodes, list, Range(count, |nodes|), 0);
      PendPush(c, next, prev, nodes, pending, q, count);
      prev := prev[list := pending];
      pending' := list;
      list' := next[list];
      WriteKeeps(next, nodes, list', Range(count + 1, |nodes|), 0, count, 0);
      next := next[list := 0];
    }

    /** One round: the merge count's bits call for, then one element from the input to the pending runs. */
    method Round(cmp: Comparator, head: nat, list: nat, pending: nat, count: nat, ghost nodes: seq<nat>)
      returns (list': nat, pending': nat)
      requires Sorting(next, prev, cmp, nodes, head, list, pending, count) && count < |nodes|
      modifies this`next, this`prev, this`calls
      ensures Sorting(next, prev, cmp, nodes, head, list', pending', count + 1) && EarlierFirst(old(calls), calls)
      ensures ChangedInList(old(next), next, nodes, head) && ChangedInList(old(prev), prev, nodes, head)
    {
      hide Chain, Pending, Segments, MergeAt, ByPosition, PendAt, Head, Mapped, ChangedWithin, TrailingOnes, AboveOnes,
           HasSizes, EarlierFirst;
      ghost var c, n := ByPosition(cmp, nodes), |nodes|;
      ghost var p, t := Pending(c, count), TrailingOnes(count);
      PendingSegments(c, n, count);
      PendingSizes(c, count);
      PendingStep(c, count + 1);
      var tail, bits := FindTail(pending, count, nodes, p);
      pending' := pending;
      EarlierFirstNone(calls);
      ChangedNone(next, nodes, 0, count);
      if bits != 0 {
        EqualMerges(c, count);
        pending' := MergeIndicated(cmp, tail, pending, nodes, p, count, t);
        RangeExactly(count, n);
        ChainElsewhere(old(next), next, nodes, list, Range(count, n), 0, 0, count, count, n);
        SegmentsMerge(c, n, p, count, t);
      }
      ghost var q := MergePending(c, p, count);
      StillAnchored(nodes, head, old(next), old(prev), next, prev, 0, count);
      WithinList(old(next), next, nodes, head, 0, count);
      ghost var next1, prev1 := next, prev;
      list', pending' := MoveElement(head, list, pending', c, count, q, nodes);
      ChangedInListTrans(old(next), next1, next, nodes, head);
      ChangedInListTrans(old(prev), prev1, prev, nodes, head);
      assert [[count]] + q == Pending(c, count + 1);
    }

    /** Merges the pending runs from the newest to all but the oldest. */
    method MergePendingRuns(cmp: Comparator, pending0: nat, ghost nodes: seq<nat>, ghost p: Runlist)
      returns (pending: nat, list: nat)
      requires Addresses(nodes) && Mapped(next, nodes)
      requires |p| >= 2 && PendAt(next, prev, nodes, pending0, p) &&
        Segments(ByPosition(cmp, nodes), |nodes|, p, |nodes|)
      modifies this`next, this`calls
      ensures EarlierFirst(old(calls), calls) && Mapped(next, nodes) &&
        ChangedWithin(old(next), next, nodes, 0, |nodes|)
      ensures RunAt(next, nodes, pending, p[|p| - 1]) &&
        RunAt(next, nodes, list, Finish(ByPosition(cmp, nodes), p, |p| - 1))
    {
      hide Chain, Segments, Total, SortSpec.Merge, ByPosition, Head, Exactly, ChangedWithin, EarlierFirst;
      ghost var c, n := ByPosition(cmp, nodes), |nodes|;
      HeadFollows(next, prev, nodes, pending0, p, 0);
      HeadFollows(next, prev, nodes, pending0, p, 1);
      list := pending0;
      pending := prev[pending0];
      ghost var i: nat := 1;
      ChangedNone(next, nodes, 0, n);
      EarlierFirstNone(calls);
      while true
        invariant 1 <= i < |p| && pending == Head(nodes, p, i) && Mapped(next, nodes) && EarlierFirst(old(calls), calls)
        invariant RunAt(next, nodes, list, Finish(c, p, i)) && Waiting(next, prev, nodes, p, i)
        invariant ChangedWithin(old(next), next, nodes, 0, n)
        decreases |p| - i
      {
        WaitingStep(next, prev, nodes, p, i);
        var following := prev[pending];
        if following == 0 {
          break;
        }
        FinalMergeable(c, next, nodes, p, i, list);
        SegmentAt(c, n, p, n, i);
        ghost var lo: nat, mid: nat := n - Total(p, i + 1), n - Total(p, i);
        ghost var next0, calls0 := next, calls;
        list := Merge(cmp, pending, list, nodes, p[i], Finish(c, p, i), lo, mid, n);
        WaitingKept(c, next0, next, prev, nodes, p, i + 1);
        ChangedMore(next0, next, nodes, lo, n, 0, n);
        ChangedThen(old(next), next0, next, nodes, 0, n);
        EarlierFirstTrans(old(calls), calls0, calls);
        pending := following;
        i := i + 1;
      }
    }

    /** list_sort: the circular list comes out in the order of the specification, whatever cmp answers. */
    method Sort(cmp: Comparator, head: nat, ghost nodes: seq<nat>)
      requires Anchored(nodes, head, next, prev) && Circular(next, prev, nodes, head, Range(0, |nodes|))
      modifies this`next, this`prev, this`calls
      ensures Circular(next, prev, nodes, head,
                       if |nodes| == 0 then [] else SortSpec.Sort(ByPosition(cmp, nodes), |nodes|))
      ensures |nodes| > 0 ==>
        RunOf(ByPosition(cmp, nodes), |nodes|, SortSpec.Sort(ByPosition(cmp, nodes), |nodes|), 0, |nodes|)
      ensures ChangedInList(old(next), next, nodes, head) && ChangedInList(old(prev), prev, nodes, head)
      ensures if |nodes| < 2 then calls == old(calls)
        else ThenSelf(old(calls), calls, FinalRemainder(ByPosition(cmp, nodes), |nodes|))
    {
      hide Chain, BackChain, ByPosition, RunOf, ChangedInList, Circular, Pending, PendAt, Addresses, Mapped,
           SortSpec.Sort, EarlierFirst, ThenSelf, FinalRemainder;
      ghost var n := |nodes|;
      if n > 0 {
        SortCorrect(ByPosition(cmp, nodes), n);
      }
      CircularHead(next, prev, nodes, head, Range(0, n));
      ShortList(next, prev, nodes, head);
      ChangedInListRefl(next, nodes, head);
      ChangedInListRefl(prev, nodes, head);
      var list, pending, count := next[head], 0, 0;
      if list == prev[head] {
        SortShort(ByPosition(cmp, nodes), n);
        return;
      }
      RangeExactly(0, n);
      CutCircle(next, prev, nodes, head, Range(0, n));
      ChangedAt(next, nodes, head, prev[head], 0);
      StillAnchoredAt(nodes, head, next, prev, prev[head]);
      NothingPending(next[prev[head] := 0], prev, cmp, nodes, head, list);
      next := next[prev[head] := 0];
      EarlierFirstNone(calls);
      while true
        invariant count < n && Sorting(next, prev, cmp, nodes, head, list, pending, count) &&
          EarlierFirst(old(calls), calls)
        invariant ChangedInList(old(next), next, nodes, head) && ChangedInList(old(prev), prev, nodes, head)
        decreases n - count
      {
        ghost var next0, prev0, calls0 := next, prev, calls;
        list, pending := Round(cmp, head, list, pending, count, nodes);
        ChangedInListTrans(old(next), next0, next, nodes, head);
        ChangedInListTrans(old(prev), prev0, prev, nodes, head);
        EarlierFirstTrans(old(calls), calls0, calls);
        count := count + 1;
        NullIsEmpty(next, nodes, list, Range(count, n));
        if list == 0 {
          break;
        }
      }
      ghost var next0, prev0, calls0 := next, prev, calls;
      Conclude(cmp, head, pending, nodes);
      ThenSelfSince(old(calls), calls0, calls, FinalRemainder(ByPosition(cmp, nodes), n));
      ChangedInListTrans(old(next), next0, next, nodes, head);
      ChangedInListTrans(old(prev), prev0, prev, nodes, head);
    }

    /** End of input: merge all pending runs, the last time rebuilding the prev links. */
    method Conclude(cmp: Comparator, head: nat, pending0: nat, ghost nodes: seq<nat>)
      requires Sorting(next, prev, cmp, nodes, head, 0, pending0, |nodes|) && |nodes| >= 2
      modifies this`next, this`prev, this`calls
      ensures Circular(next, prev, nodes, head, SortSpec.Sort(ByPosition(cmp, nodes), |nodes|))
      ensures ThenSelf(old(calls), calls, FinalRemainder(ByPosition(cmp, nodes), |nodes|))
      ensures ChangedInList(old(next), next, nodes, head) && ChangedInList(old(prev), prev, nodes, head)
    {
      hide Chain, BackChain, ByPosition, Circular, Pending, PendAt, Segments, Total, SortSpec.Merge, Exactly,
           ChangedWithin, ChangedInList, Addresses, Mapped, EarlierFirst, ThenSelf, Remainder;
      ghost var c, n := ByPosition(cmp, nodes), |nodes|;
      ghost var p := Pending(c, n);
      PendingSegments(c, n, n);
      PendingSizes(c, n);
      AtLeastTwoRuns(n);
      PendingNonempty(next, prev, nodes, pending0, p);
      var pending, list := MergePendingRuns(cmp, pending0, nodes, p);
      StillAnchored(nodes, head, old(next), old(prev), next, prev, 0, n);
      WithinList(old(next), next, nodes, head, 0, n);
      ghost var i := |p| - 1;
      FinalMergeable(c, next, nodes, p, i, list);
      SegmentAt(c, n, p, n, i);
      SegmentsAll(c, n, p, n);
      ghost var next0, calls0 := next, calls;
      assert RunAt(next, nodes, pending, p[i]);
      MergeFinal(cmp, head, pending, list, nodes, p[i], Finish(c, p, i), n - Total(p, i));
      ThenSelfSince(old(calls), calls0, calls, FinalRemainder(c, n));
      ChangedInListTrans(old(next), next0, next, nodes, head);
    }
  }
}
