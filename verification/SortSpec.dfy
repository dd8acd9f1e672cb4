/**
 The bottom-up mergesort of so3/lib/list_sort.c on values: elements are named by their position
 in the input, runs are sequences of positions.
 */
module SortSpec {
  import opened Bits
  import opened Powers
  import opened Queues

  type Cmp = (nat, nat) -> int

  // ---------------------------------------------------------------- the order to sort by

  /** cmp is a total preorder on the first n input elements; positive means "sorts after". */
  ghost predicate TotalPreorder(cmp: Cmp, n: nat) {
    (forall i: nat, j: nat :: i < n && j < n ==> cmp(i, j) <= 0 || cmp(j, i) <= 0) &&
    (forall i: nat, j: nat, k: nat :: i < n && j < n && k < n && cmp(i, j) <= 0 && cmp(j, k) <= 0 ==> cmp(i, k) <= 0)
  }

  /**
   i must come before j: smaller, or not larger and earlier in the input. Only compares the earlier element
   with the later.
   */
  ghost predicate Before(cmp: Cmp, i: nat, j: nat) {
    if i < j then cmp(i, j) <= 0 else cmp(j, i) > 0
  }

  lemma BeforeTransitive(cmp: Cmp, n: nat, i: nat, j: nat, k: nat)
    requires TotalPreorder(cmp, n) && i < n && j < n && k < n && Before(cmp, i, j) && Before(cmp, j, k)
    ensures Before(cmp, i, k)
  {
    assert cmp(i, j) <= 0 && cmp(j, k) <= 0;
    assert cmp(i, k) <= 0;
    assert k <= i && cmp(k, i) <= 0 ==> cmp(k, j) <= 0 && cmp(j, i) <= 0;
  }

  /** In order, hence stable and without repetition. */
  ghost predicate Sorted(cmp: Cmp, r: seq<nat>) {
    forall i, j :: 0 <= i < j < |r| ==> Before(cmp, r[i], r[j])
  }

  // ---------------------------------------------------------------- merging

  function Merge(cmp: Cmp, a: seq<nat>, b: seq<nat>): seq<nat>
    decreases |a| + |b|
  {
    if a == [] then b
    else if b == [] then a
    else if cmp(a[0], b[0]) <= 0 then [a[0]] + Merge(cmp, a[1..], b)
    else [b[0]] + Merge(cmp, a, b[1..])
  }

  lemma {:induction false} MergeElements(cmp: Cmp, a: seq<nat>, b: seq<nat>)
    ensures |Merge(cmp, a, b)| == |a| + |b|
    ensures forall x :: x in Merge(cmp, a, b) <==> x in a || x in b
    decreases |a| + |b|
  {
    if a != [] && b != [] {
      if cmp(a[0], b[0]) <= 0 {
        MergeElements(cmp, a[1..], b);
        assert a == [a[0]] + a[1..];
      } else {
        MergeElements(cmp, a, b[1..]);
        assert b == [b[0]] + b[1..];
      }
    }
  }

  /** All positions of r lie in [lo, hi). */
  ghost predicate Within(r: seq<nat>, lo: nat, hi: nat) {
    forall i :: 0 <= i < |r| ==> lo <= r[i] < hi
  }

  /** x comes before everything in r. */
  ghost predicate Leads(cmp: Cmp, x: nat, r: seq<nat>) {
    forall i :: 0 <= i < |r| ==> Before(cmp, x, r[i])
  }

  lemma SortedCons(cmp: Cmp, x: nat, r: seq<nat>)
    requires Sorted(cmp, r) && Leads(cmp, x, r)
    ensures Sorted(cmp, [x] + r)
  {
  }

  lemma SortedTail(cmp: Cmp, r: seq<nat>)
    requires Sorted(cmp, r) && r != []
    ensures Sorted(cmp, r[1..]) && Leads(cmp, r[0], r[1..])
  {
  }

  lemma LeadsFurther(cmp: Cmp, n: nat, x: nat, y: nat, r: seq<nat>)
    requires TotalPreorder(cmp, n) && x < n && y < n && Within(r, 0, n)
    requires Before(cmp, x, y) && Leads(cmp, y, r)
    ensures Leads(cmp, x, r)
  {
    forall i | 0 <= i < |r|
      ensures Before(cmp, x, r[i])
    {
      BeforeTransitive(cmp, n, x, y, r[i]);
    }
  }

  /** What leads both runs leads their merge. */
  lemma LeadsMerge(cmp: Cmp, x: nat, a: seq<nat>, b: seq<nat>)
    requires Leads(cmp, x, a) && Leads(cmp, x, b)
    ensures Leads(cmp, x, Merge(cmp, a, b))
  {
    MergeElements(cmp, a, b);
    var r := Merge(cmp, a, b);
    forall i | 0 <= i < |r|
      ensures Before(cmp, x, r[i])
    {
      assert r[i] in r;
    }
  }

  /** Merging an older sorted run with a newer one gives a sorted run. */
  lemma {:induction false} MergeSorted(cmp: Cmp, n: nat, m: nat, a: seq<nat>, b: seq<nat>)
    requires TotalPreorder(cmp, n) && Sorted(cmp, a) && Sorted(cmp, b) && m <= n
    requires Within(a, 0, m) && Within(b, m, n)
    ensures Sorted(cmp, Merge(cmp, a, b))
    decreases |a| + |b|
  {
    hide TotalPreorder;
    if a != [] && b != [] {
      SortedTail(cmp, a);
      SortedTail(cmp, b);
      var x, y := a[0], b[0];
      if cmp(x, y) <= 0 {
        MergeSorted(cmp, n, m, a[1..], b);
        LeadsFurther(cmp, n, x, y, b[1..]);
        assert Leads(cmp, x, b);
        LeadsMerge(cmp, x, a[1..], b);
        SortedCons(cmp, x, Merge(cmp, a[1..], b));
      } else {
        MergeSorted(cmp, n, m, a, b[1..]);
        LeadsFurther(cmp, n, y, x, a[1..]);
        assert Leads(cmp, y, a);
        LeadsMerge(cmp, y, a, b[1..]);
        SortedCons(cmp, y, Merge(cmp, a, b[1..]));
      }
    }
  }

  // ---------------------------------------------------------------- run sizes and the bits of count

  function Repeat(w: nat, n: nat): (r: seq<nat>)
    ensures |r| == n && forall i :: 0 <= i < n ==> r[i] == w
  {
    seq(n, _ => w)
  }

  /**
   Sizes, smallest first, of the pending runs of size w and more: c is count without its lower bits,
   below the highest of those.  Each set bit, while higher bits are non-zero, is worth
   1 - (the bit itself) + (the bit below) runs: the six states of the source's comment.
   */
  function Runs(c: nat, below: nat, w: nat): seq<nat>
    requires below <= 1
  {
    if c == 0 then [] else Repeat(w, 1 - c % 2 + below) + Runs(c / 2, c % 2, 2 * w)
  }

  /** The pending runs after count elements. */
  function Sizes(count: nat): seq<nat> {
    Runs(count, 1, 1)
  }

  /** Number of trailing one bits, and what is left above them. */
  function TrailingOnes(c: nat): nat {
    if c % 2 == 1 then 1 + TrailingOnes(c / 2) else 0
  }

  function AboveOnes(c: nat): nat {
    if c % 2 == 1 then AboveOnes(c / 2) else c
  }

  /** The run list with its entries t and t+1 joined. */
  function JoinAt(s: seq<nat>, t: nat): seq<nat>
    requires t + 1 < |s|
  {
    s[..t] + [s[t] + s[t + 1]] + s[t + 2..]
  }

  lemma RunsOdd(j: nat, w: nat)
    ensures Runs(2 * j + 1, 1, w) == [w] + Runs(j, 1, 2 * w)
    ensures Runs(2 * j + 2, 0, w) == [w] + Runs(j + 1, 0, 2 * w)
  {
    assert (2 * j + 1) / 2 == j && (2 * j + 2) / 2 == j + 1;
    assert Repeat(w, 1) == [w];
  }

  /** A set bit below is worth one more run. */
  lemma RunsMore(c: nat, w: nat)
    requires c > 0
    ensures Runs(c, 1, w) == [w] + Runs(c, 0, w)
  {
    hide Runs;
    var n, rest := 1 - c % 2, Runs(c / 2, c % 2, 2 * w);
    RunsUnfold(c, 1, w, c / 2, c % 2);
    RunsUnfold(c, 0, w, c / 2, c % 2);
    assert Repeat(w, n + 1) == [w] + Repeat(w, n);
    assert [w] + Repeat(w, n) + rest == [w] + (Repeat(w, n) + rest);
  }

  lemma RunsEven(j: nat, w: nat)
    requires j > 0
    ensures Runs(2 * j, 1, w) == [w, w] + Runs(j, 0, 2 * w)
    ensures Runs(2 * j + 1, 0, w) == [2 * w] + Runs(j, 0, 2 * w)
  {
    hide Runs;
    RunsUnfold(2 * j, 1, w, j, 0);
    RunsUnfold(2 * j + 1, 0, w, j, 1);
    RunsMore(j, 2 * w);
    assert Repeat(w, 2) == [w, w];
    assert Repeat(w, 0) + Runs(j, 1, 2 * w) == Runs(j, 1, 2 * w);
  }

  lemma RunsUnfold(c: nat, below: nat, w: nat, half: nat, bit: nat)
    requires below <= 1 && c > 0 && c == 2 * half + bit && bit <= 1
    ensures Runs(c, below, w) == Repeat(w, 1 - bit + below) + Runs(half, bit, 2 * w)
  {
  }

  /** Counting m up by one joins the two runs selected by its trailing ones, if any bit is set above them. */
  ghost predicate Joins(m: nat, w: nat) {
    if AboveOnes(m) == 0 then Runs(m + 1, 0, w) == Runs(m, 1, w)
    else
      var s, t := Runs(m, 1, w), TrailingOnes(m);
      t + 1 < |s| && s[t] == s[t + 1] == Doubled(w, t) && Runs(m + 1, 0, w) == JoinAt(s, t)
  }

  /** w doubled t times. */
  function Doubled(w: nat, t: nat): nat
    decreases t
  {
    if t == 0 then w else Doubled(2 * w, t - 1)
  }

  lemma {:induction false} DoubledIsPow(w: nat, t: nat)
    ensures Doubled(w, t) == w * Pow(2, t)
    decreases t
  {
    if t > 0 {
      DoubledIsPow(2 * w, t - 1);
      MulAssoc(w, 2, Pow(2, t - 1));
    }
  }

  lemma JoinCons(w: nat, s: seq<nat>, t: nat)
    requires t + 1 < |s|
    ensures JoinAt([w] + s, t + 1) == [w] + JoinAt(s, t)
    ensures ([w] + s)[t + 1] == s[t] && ([w] + s)[t + 2] == s[t + 1]
  {
  }

  lemma OnesOdd(j: nat)
    ensures AboveOnes(2 * j + 1) == AboveOnes(j) && TrailingOnes(2 * j + 1) == TrailingOnes(j) + 1
  {
    assert (2 * j + 1) / 2 == j;
  }

  lemma OnesEven(j: nat)
    ensures AboveOnes(2 * j) == 2 * j && TrailingOnes(2 * j) == 0
  {
  }

  lemma JoinsOdd(j: nat, w: nat)
    requires Joins(j, 2 * w)
    ensures Joins(2 * j + 1, w)
  {
    hide Runs, AboveOnes, TrailingOnes, JoinAt;
    RunsOdd(j, w);
    OnesOdd(j);
    if AboveOnes(j) != 0 {
      JoinCons(w, Runs(j, 1, 2 * w), TrailingOnes(j));
    }
  }

  lemma JoinsEven(j: nat, w: nat)
    ensures Joins(2 * j, w)
  {
    hide Runs, AboveOnes, TrailingOnes;
    OnesEven(j);
    if j > 0 {
      RunsEven(j, w);
      JoinFirstTwo(w, Runs(j, 0, 2 * w));
    } else {
      RunsZero(w);
    }
  }

  lemma JoinFirstTwo(w: nat, s: seq<nat>)
    ensures JoinAt([w, w] + s, 0) == [2 * w] + s
  {
  }

  lemma {:induction false} IncrementRuns(m: nat, w: nat)
    ensures Joins(m, w)
    decreases m
  {
    hide Joins;
    if m % 2 == 1 {
      IncrementRuns(m / 2, 2 * w);
      JoinsOdd(m / 2, w);
    } else {
      JoinsEven(m / 2, w);
    }
  }

  lemma RunsZero(w: nat)
    ensures Runs(0, 1, w) == [] && Runs(1, 0, w) == []
  {
    assert Repeat(w, 0) == [];
  }

  /** One round of the input loop, on sizes: join two runs of 2^t if indicated, then a new run of one. */
  lemma SizesStep(count: nat)
    ensures AboveOnes(count) == 0 ==> Sizes(count + 1) == [1] + Sizes(count)
    ensures AboveOnes(count) != 0 ==>
      var t := TrailingOnes(count);
      t + 1 < |Sizes(count)| && Sizes(count)[t] == Sizes(count)[t + 1] == Pow(2, t) &&
      Sizes(count + 1) == [1] + JoinAt(Sizes(count), t)
  {
    hide Runs, Pow;
    IncrementRuns(count, 1);
    RunsMore(count + 1, 1);
    DoubledIsPow(1, TrailingOnes(count));
  }

  /** How many runs of the size of bit k are pending, from bit k, the bits above it and the bit below it. */
  function InState(high: nat, below: nat): nat
    requires below <= 1
  {
    if high == 0 then 0 else 1 - high % 2 + below
  }

  lemma {:induction false} RunsAtLeast(c: nat, below: nat, w: nat)
    requires below <= 1
    ensures forall i :: 0 <= i < |Runs(c, below, w)| ==> Runs(c, below, w)[i] >= w
    decreases c
  {
    if c > 0 {
      RunsAtLeast(c / 2, c % 2, 2 * w);
    }
  }

  lemma RepeatCount(w: nat, n: nat, x: nat)
    ensures multiset(Repeat(w, n))[x] == if x == w then n else 0
  {
    if n > 0 {
      RepeatCount(w, n - 1, x);
      assert Repeat(w, n) == Repeat(w, n - 1) + [w];
    } else {
      assert Repeat(w, 0) == [];
    }
  }

  lemma {:induction false} DoubledAtLeast(w: nat, k: nat)
    ensures Doubled(w, k) >= w
    decreases k
  {
    if k > 0 {
      DoubledAtLeast(2 * w, k - 1);
    }
  }

  lemma {:induction false} RunsOfSize(c: nat, below: nat, w: nat, k: nat)
    requires below <= 1 && w > 0
    ensures multiset(Runs(c, below, w))[Doubled(w, k)] ==
            InState(Shr(c, k), if k == 0 then below else Shr(c, k - 1) % 2)
    decreases k
  {
    hide Runs;
    if c == 0 {
      RunsNone(below, w);
      ShrZero(k);
    } else {
      var n, rest := 1 - c % 2 + below, Runs(c / 2, c % 2, 2 * w);
      RunsUnfold(c, below, w, c / 2, c % 2);
      RepeatCount(w, n, Doubled(w, k));
      if k == 0 {
        RunsAtLeast(c / 2, c % 2, 2 * w);
        assert w !in multiset(rest);
      } else {
        RunsOfSize(c / 2, c % 2, 2 * w, k - 1);
        DoubledAtLeast(2 * w, k - 1);
      }
    }
  }

  lemma {:induction false} ShrZero(k: nat)
    ensures Shr(0, k) == 0
  {
    if k > 0 {
      ShrZero(k - 1);
    }
  }

  /** The six states of the source's comment: the runs of size 2^k pending after count elements. */
  lemma SixStates(count: nat, k: nat)
    ensures multiset(Sizes(count))[Pow(2, k)] == InState(Shr(count, k), if k == 0 then 1 else Shr(count, k - 1) % 2)
  {
    hide Runs;
    RunsOfSize(count, 1, 1, k);
    DoubledIsPow(1, k);
  }

  function Sum(s: seq<nat>): nat {
    if |s| == 0 then 0 else Sum(s[..|s| - 1]) + s[|s| - 1]
  }

  lemma {:induction false} SumConcat(a: seq<nat>, b: seq<nat>)
    ensures Sum(a + b) == Sum(a) + Sum(b)
  {
    if |b| == 0 {
      assert a + b == a;
    } else {
      SumConcat(a, b[..|b| - 1]);
      assert (a + b)[..|a + b| - 1] == a + b[..|b| - 1];
    }
  }

  /** Elements pending below the runs of size w, as a multiple of w: the bounds of the source's six states. */
  ghost predicate Beneath(total: nat, below: nat, w: nat) {
    (total == 0 && below == 1 && w == 1) ||
    (below == 1 && w <= 2 * total && total < w) ||
    (below == 0 && w <= total && 2 * total < 3 * w)
  }

  /** acc elements against a run of size n. */
  ghost predicate Balanced(acc: nat, n: nat) {
    acc > 0 ==> n <= 2 * acc && acc <= 2 * n
  }

  lemma BeneathNext(c: nat, below: nat, w: nat, total: nat)
    requires below <= 1 && Beneath(total, below, w)
    ensures Beneath(total + Sum(Repeat(w, 1 - c % 2 + below)), c % 2, 2 * w)
    ensures forall i :: 0 <= i < 1 - c % 2 + below ==> Balanced(total + Sum(Repeat(w, i)), w)
  {
    RepeatSum(w);
  }

  lemma {:induction false} RunsBalanced(c: nat, below: nat, w: nat, total: nat, i: nat)
    requires below <= 1 && Beneath(total, below, w) && i < |Runs(c, below, w)|
    ensures Balanced(total + Sum(Runs(c, below, w)[..i]), Runs(c, below, w)[i])
    decreases c
  {
    hide Runs, Balanced, Beneath, Sum;
    var n, s := 1 - c % 2 + below, Runs(c, below, w);
    if c == 0 {
      RunsNone(below, w);
    } else {
      var rest := Runs(c / 2, c % 2, 2 * w);
      RunsUnfold(c, below, w, c / 2, c % 2);
      BeneathNext(c, below, w, total);
      if i < n {
        assert s[..i] == Repeat(w, i);
      } else {
        RunsBalanced(c / 2, c % 2, 2 * w, total + Sum(Repeat(w, n)), i - n);
        assert s[..i] == Repeat(w, n) + rest[..i - n];
        SumConcat(Repeat(w, n), rest[..i - n]);
      }
    }
  }

  lemma RunsNone(below: nat, w: nat)
    requires below <= 1
    ensures Runs(0, below, w) == []
  {
  }

  lemma RepeatSum(w: nat)
    ensures Sum(Repeat(w, 0)) == 0 && Sum(Repeat(w, 1)) == w && Sum(Repeat(w, 2)) == 2 * w
  {
    assert Repeat(w, 1)[..0] == [] && Repeat(w, 2)[..1] == Repeat(w, 1);
  }

  /** Every final merge is at worst two to one. */
  lemma FinalMergesBalanced(count: nat, i: nat)
    requires 1 <= i < |Sizes(count)|
    ensures var acc := Sum(Sizes(count)[..i]);
      Sizes(count)[i] <= 2 * acc && acc <= 2 * Sizes(count)[i]
  {
    RunsBalanced(count, 1, 1, 0, i);
    assert Sizes(count)[..i][..0] == [];
    SumFirst(Sizes(count)[..i]);
    FirstSize(count);
  }

  lemma {:induction false} SumFirst(s: seq<nat>)
    requires |s| > 0
    ensures Sum(s) >= s[0]
  {
    if |s| > 1 {
      SumFirst(s[..|s| - 1]);
    }
  }

  lemma FirstSize(count: nat)
    requires count > 0
    ensures |Sizes(count)| > 0 && Sizes(count)[0] == 1
  {
    assert Repeat(1, 1 - count % 2 + 1)[0] == 1;
  }

  // ---------------------------------------------------------------- the sort

  /** r lists the positions [lo, hi), each once. */
  ghost predicate Exactly(r: seq<nat>, lo: nat, hi: nat) {
    lo <= hi && |r| == hi - lo && Within(r, lo, hi) && Distinct(r) && (forall x :: lo <= x < hi ==> x in r)
  }

  /** r lists the positions [lo, hi) each once, whatever cmp answers, and in order if cmp is a total preorder. */
  ghost predicate RunOf(cmp: Cmp, n: nat, r: seq<nat>, lo: nat, hi: nat) {
    hi <= n && Exactly(r, lo, hi) && (TotalPreorder(cmp, n) ==> Sorted(cmp, r))
  }

  lemma {:induction false} MergeDistinct(cmp: Cmp, a: seq<nat>, b: seq<nat>)
    requires Distinct(a) && Distinct(b) && (forall x :: x in a ==> x !in b)
    ensures Distinct(Merge(cmp, a, b))
    decreases |a| + |b|
  {
    if a != [] && b != [] {
      if cmp(a[0], b[0]) <= 0 {
        MergeDistinct(cmp, a[1..], b);
        MergeElements(cmp, a[1..], b);
        DistinctCons(a[0], Merge(cmp, a[1..], b));
      } else {
        MergeDistinct(cmp, a, b[1..]);
        MergeElements(cmp, a, b[1..]);
        DistinctCons(b[0], Merge(cmp, a, b[1..]));
      }
    }
  }

  /** Merging neighbouring runs loses and repeats nothing. */
  lemma MergeExactly(cmp: Cmp, a: seq<nat>, b: seq<nat>, lo: nat, mid: nat, hi: nat)
    requires Exactly(a, lo, mid) && Exactly(b, mid, hi)
    ensures Exactly(Merge(cmp, a, b), lo, hi)
  {
    var r := Merge(cmp, a, b);
    MergeElements(cmp, a, b);
    MergeDistinct(cmp, a, b);
    forall i | 0 <= i < |r|
      ensures lo <= r[i] < hi
    {
      assert r[i] in r;
    }
  }

  lemma MergeRunOf(cmp: Cmp, n: nat, a: seq<nat>, b: seq<nat>, lo: nat, mid: nat, hi: nat)
    requires RunOf(cmp, n, a, lo, mid) && RunOf(cmp, n, b, mid, hi)
    ensures RunOf(cmp, n, Merge(cmp, a, b), lo, hi)
  {
    hide TotalPreorder, Sorted;
    MergeExactly(cmp, a, b, lo, mid, hi);
    if TotalPreorder(cmp, n) {
      MergeSorted(cmp, n, mid, a, b);
    }
  }

  type Runlist = seq<seq<nat>>

  /** Newest first, the runs cover [0, hi) segment by segment. */
  ghost predicate Segments(cmp: Cmp, n: nat, p: Runlist, hi: nat) {
    if |p| == 0 then hi == 0
    else |p[0]| <= hi && RunOf(cmp, n, p[0], hi - |p[0]|, hi) && Segments(cmp, n, p[1..], hi - |p[0]|)
  }

  /** The runs t and t+1 replaced by their merge, older first. */
  function MergeAt(cmp: Cmp, p: Runlist, t: nat): Runlist
    requires t + 1 < |p|
  {
    p[..t] + [Merge(cmp, p[t + 1], p[t])] + p[t + 2..]
  }

  lemma {:induction false} SegmentsMerge(cmp: Cmp, n: nat, p: Runlist, hi: nat, t: nat)
    requires hi <= n && Segments(cmp, n, p, hi) && t + 1 < |p|
    ensures Segments(cmp, n, MergeAt(cmp, p, t), hi)
    decreases t
  {
    hide RunOf, Merge;
    var q := MergeAt(cmp, p, t);
    if t == 0 {
      var h := hi - |p[0]|;
      assert p[1..][0] == p[1] && p[1..][1..] == p[2..];
      assert Segments(cmp, n, p[1..], h);
      MergeRunOf(cmp, n, p[1], p[0], h - |p[1]|, h, hi);
      MergeElements(cmp, p[1], p[0]);
      assert q[0] == Merge(cmp, p[1], p[0]) && q[1..] == p[2..];
    } else {
      SegmentsMerge(cmp, n, p[1..], hi - |p[0]|, t - 1);
      assert q[0] == p[0] && q[1..] == MergeAt(cmp, p[1..], t - 1);
    }
  }

  /** The merge a round of the input loop performs, driven by the bits of count alone. */
  function MergePending(cmp: Cmp, p: Runlist, count: nat): Runlist {
    if AboveOnes(count) != 0 && TrailingOnes(count) + 1 < |p| then MergeAt(cmp, p, TrailingOnes(count)) else p
  }

  /** The pending runs after n elements. */
  function Pending(cmp: Cmp, n: nat): Runlist {
    if n == 0 then [] else [[n - 1]] + MergePending(cmp, Pending(cmp, n - 1), n - 1)
  }

  lemma PendingStep(cmp: Cmp, n: nat)
    requires n > 0
    ensures var p := Pending(cmp, n);
      |p| > 0 && p[0] == [n - 1] && p[1..] == MergePending(cmp, Pending(cmp, n - 1), n - 1)
  {
  }

  lemma SegmentsCons(cmp: Cmp, n: nat, p: Runlist, k: nat)
    requires k < n && |p| > 0 && p[0] == [k] && Segments(cmp, n, p[1..], k)
    ensures Segments(cmp, n, p, k + 1)
  {
  }

  lemma {:induction false} PendingSegments(cmp: Cmp, n: nat, k: nat)
    requires k <= n
    ensures Segments(cmp, n, Pending(cmp, k), k)
  {
    hide TrailingOnes, AboveOnes, MergeAt;
    if k > 0 {
      hide Segments, Pending;
      var p := Pending(cmp, k - 1);
      PendingSegments(cmp, n, k - 1);
      if AboveOnes(k - 1) != 0 && TrailingOnes(k - 1) + 1 < |p| {
        SegmentsMerge(cmp, n, p, k - 1, TrailingOnes(k - 1));
      }
      PendingStep(cmp, k);
      SegmentsCons(cmp, n, Pending(cmp, k), k - 1);
    }
  }

  /** The lengths of the runs in p are s. */
  ghost predicate HasSizes(p: Runlist, s: seq<nat>) {
    |p| == |s| && forall i :: 0 <= i < |p| ==> |p[i]| == s[i]
  }

  lemma MergeAtSizes(cmp: Cmp, p: Runlist, s: seq<nat>, t: nat)
    requires HasSizes(p, s) && t + 1 < |p|
    ensures HasSizes(MergeAt(cmp, p, t), JoinAt(s, t))
  {
    MergeElements(cmp, p[t + 1], p[t]);
  }

  lemma SizesCons(p: Runlist, s: seq<nat>)
    requires |p| > 0 && |s| > 0 && HasSizes(p[1..], s[1..]) && |p[0]| == s[0]
    ensures HasSizes(p, s)
  {
    forall i | 0 <= i < |p|
      ensures |p[i]| == s[i]
    {
      assert i > 0 ==> p[i] == p[1..][i - 1] && s[i] == s[1..][i - 1];
    }
  }

  /** The run sizes are those the bits of count say. */
  lemma {:induction false} PendingSizes(cmp: Cmp, n: nat)
    ensures HasSizes(Pending(cmp, n), Sizes(n))
  {
    hide Sizes, AboveOnes, TrailingOnes, MergeAt, JoinAt;
    if n > 0 {
      hide Pending;
      var p, s := Pending(cmp, n - 1), Sizes(n - 1);
      PendingSizes(cmp, n - 1);
      SizesStep(n - 1);
      if AboveOnes(n - 1) != 0 {
        MergeAtSizes(cmp, p, s, TrailingOnes(n - 1));
      }
      PendingStep(cmp, n);
      SizesCons(Pending(cmp, n), Sizes(n));
    } else {
      SizesZero();
    }
  }

  /** Hence a merge the bits call for always finds two runs, of 2^t elements each. */
  lemma EqualMerges(cmp: Cmp, n: nat)
    requires AboveOnes(n) != 0
    ensures var p, t := Pending(cmp, n), TrailingOnes(n); t + 1 < |p| && |p[t]| == Pow(2, t) == |p[t + 1]|
  {
    hide Sizes, AboveOnes, TrailingOnes, Pending, JoinAt;
    PendingSizes(cmp, n);
    SizesStep(n);
  }

  lemma {:induction false} OnesFit(c: nat, w: nat)
    ensures TrailingOnes(c) <= |Runs(c, 1, w)|
    decreases c
  {
    if c % 2 == 1 {
      OnesFit(c / 2, 2 * w);
      RunsOdd(c / 2, w);
    }
  }

  lemma AtLeastTwoRuns(n: nat)
    requires n >= 2
    ensures |Sizes(n)| >= 2
  {
    if n % 2 == 1 {
      RunsOdd(n / 2, 1);
      RunsMore(n / 2, 2);
    } else {
      RunsEven(n / 2, 1);
    }
  }

  lemma SizesZero()
    ensures Sizes(0) == [] && AboveOnes(0) == 0
  {
  }

  /** The closing loop: the newest run merged with ever older ones, i runs in all. */
  function Finish(cmp: Cmp, p: Runlist, i: nat): seq<nat>
    requires 1 <= i <= |p|
  {
    if i == 1 then p[0] else Merge(cmp, p[i - 1], Finish(cmp, p, i - 1))
  }

  /** Elements in the first i runs. */
  function Total(p: Runlist, i: nat): nat
    requires i <= |p|
  {
    if i == 0 then 0 else Total(p, i - 1) + |p[i - 1]|
  }

  lemma {:induction false} SegmentsDrop(cmp: Cmp, n: nat, p: Runlist, hi: nat, i: nat)
    requires Segments(cmp, n, p, hi) && i <= |p|
    ensures Total(p, i) <= hi && Segments(cmp, n, p[i..], hi - Total(p, i))
  {
    if i > 0 {
      SegmentsDrop(cmp, n, p, hi, i - 1);
      assert p[i - 1..][1..] == p[i..] && p[i - 1..][0] == p[i - 1];
    } else {
      assert p[0..] == p;
    }
  }

  lemma {:induction false} FinishRun(cmp: Cmp, n: nat, p: Runlist, hi: nat, i: nat)
    requires hi <= n && Segments(cmp, n, p, hi) && 1 <= i <= |p|
    ensures Total(p, i) <= hi && RunOf(cmp, n, Finish(cmp, p, i), hi - Total(p, i), hi)
  {
    hide RunOf, Merge;
    SegmentsDrop(cmp, n, p, hi, i - 1);
    SegmentsDrop(cmp, n, p, hi, i);
    assert p[i - 1..][0] == p[i - 1];
    if i > 1 {
      FinishRun(cmp, n, p, hi, i - 1);
      MergeRunOf(cmp, n, p[i - 1], Finish(cmp, p, i - 1), hi - Total(p, i), hi - Total(p, i - 1), hi);
    }
  }

  /** The order list_sort leaves n >= 1 elements in. */
  function Sort(cmp: Cmp, n: nat): seq<nat>
    requires n > 0
  {
    Finish(cmp, Pending(cmp, n), |Pending(cmp, n)|)
  }

  /** Every element once, whatever cmp answers; sorted and stable if cmp is a total preorder. */
  lemma SortCorrect(cmp: Cmp, n: nat)
    requires n > 0
    ensures RunOf(cmp, n, Sort(cmp, n), 0, n)
  {
    hide RunOf, Finish;
    var p := Pending(cmp, n);
    PendingSegments(cmp, n, n);
    FinishRun(cmp, n, p, n, |p|);
    SegmentsDrop(cmp, n, p, n, |p|);
    assert p[|p|..] == [];
  }
}
