/** The heap region as a row of blocks, free and allocated, each a header and its payload (so3/mm/heap.c). */
module Tiling {
  import opened Bits
  import opened Powers
  import opened QuickIndex

  const CHUNK_SIG: nat := 0xbeef_dead

  /** A block from start on; an allocated block's header may have been moved up by padding bytes. */
  datatype Block = Block(start: int, size: nat, free: bool, padding: nat)

  function End(b: Block, hdr: nat): int {
    b.start + hdr + b.size
  }

  function HeaderOf(b: Block): int {
    b.start + b.padding
  }

  /** bs covers [lo, hi) without gap or overlap. */
  ghost predicate Tiles(bs: seq<Block>, lo: int, hi: int, hdr: nat) {
    |bs| > 0 && bs[0].start == lo && End(bs[|bs| - 1], hdr) == hi &&
    forall i :: 0 < i < |bs| ==> End(bs[i - 1], hdr) == bs[i].start
  }

  /** The header of b in memory says what b is. */
  ghost predicate BlockAt(mem: Memory, b: Block) {
    if b.free then b.padding == 0 && b.start in mem && mem[b.start].size == b.size
    else
      var h := HeaderOf(b);
      h in mem && mem[h].sig == CHUNK_SIG && mem[h].size == b.size && mem[h].padding == b.padding &&
      b.padding + mem[h].reqSize <= b.size
  }

  ghost predicate Described(mem: Memory, bs: seq<Block>) {
    forall i :: 0 <= i < |bs| ==> BlockAt(mem, bs[i])
  }

  ghost predicate FreeAt(bs: seq<Block>, a: int) {
    exists i :: 0 <= i < |bs| && bs[i].free && bs[i].start == a
  }

  /** The quick list holds exactly the free blocks. */
  ghost predicate Indexed(ix: Index, bs: seq<Block>) {
    forall a :: In(ix, a) <==> FreeAt(bs, a)
  }

  ghost predicate NoAdjacentFree(bs: seq<Block>) {
    forall i :: 0 < i < |bs| ==> !(bs[i - 1].free && bs[i].free)
  }

  /** Blocks in address order do not overlap. */
  lemma {:induction false} Ordered(bs: seq<Block>, lo: int, hi: int, hdr: nat, i: nat, j: nat)
    requires Tiles(bs, lo, hi, hdr) && i < j < |bs|
    ensures End(bs[i], hdr) <= bs[j].start
    decreases j
  {
    if i + 1 < j {
      Ordered(bs, lo, hi, hdr, i, j - 1);
    }
  }

  /** A stretch of blocks may be replaced by any blocks that cover the same stretch. */
  lemma Splice(bs: seq<Block>, lo: int, hi: int, hdr: nat, i: nat, j: nat, mid: seq<Block>)
    requires Tiles(bs, lo, hi, hdr) && i < j <= |bs| && Tiles(mid, bs[i].start, End(bs[j - 1], hdr), hdr)
    ensures Tiles(bs[..i] + mid + bs[j..], lo, hi, hdr)
  {
    var r := bs[..i] + mid + bs[j..];
    var m := |mid|;
    forall k | 0 < k < |r|
      ensures End(r[k - 1], hdr) == r[k].start
    {
      if k < i {
        assert r[k - 1] == bs[k - 1] && r[k] == bs[k];
      } else if k == i {
        assert r[k - 1] == bs[i - 1] && r[k] == mid[0];
      } else if k < i + m {
        assert r[k - 1] == mid[k - 1 - i] && r[k] == mid[k - i];
      } else if k == i + m {
        assert r[k - 1] == mid[m - 1] && r[k] == bs[j];
      } else {
        assert r[k - 1] == bs[k - 1 - i - m + j] && r[k] == bs[k - i - m + j];
      }
    }
  }

  /** Two blocks of a tiling that share an address are the same block. */
  lemma SameBlock(bs: seq<Block>, lo: int, hi: int, hdr: nat, i: nat, j: nat, a: int)
    requires Tiles(bs, lo, hi, hdr) && i < |bs| && j < |bs|
    requires bs[i].start <= a < End(bs[i], hdr) && bs[j].start <= a < End(bs[j], hdr)
    ensures i == j
  {
    if i < j {
      Ordered(bs, lo, hi, hdr, i, j);
    } else if j < i {
      Ordered(bs, lo, hi, hdr, j, i);
    }
  }

  /** Total bytes: headers and payloads add up to the region. */
  ghost function TotalBytes(bs: seq<Block>, hdr: nat): nat {
    if |bs| == 0 then 0 else TotalBytes(bs[..|bs| - 1], hdr) + hdr + bs[|bs| - 1].size
  }

  lemma {:induction false} Conservation(bs: seq<Block>, lo: int, hi: int, hdr: nat)
    requires Tiles(bs, lo, hi, hdr)
    ensures TotalBytes(bs, hdr) == hi - lo
  {
    var n := |bs| - 1;
    if n > 0 {
      Conservation(bs[..n], lo, End(bs[n - 1], hdr), hdr);
      assert End(bs[n - 1], hdr) == bs[n].start;
    } else {
      assert bs[..0] == [];
    }
  }

  /** With nothing allocated and no two free blocks side by side, one free block is all there is. */
  lemma AllFree(bs: seq<Block>, lo: int, hi: int, hdr: nat)
    requires Tiles(bs, lo, hi, hdr) && NoAdjacentFree(bs) && forall i :: 0 <= i < |bs| ==> bs[i].free
    ensures |bs| == 1 && bs[0].start == lo && bs[0].size == hi - lo - hdr
  {
    if |bs| > 1 {
      NotBothFree(bs, 1);
    }
  }

  lemma NotBothFree(bs: seq<Block>, k: nat)
    requires NoAdjacentFree(bs) && 0 < k < |bs|
    ensures !(bs[k - 1].free && bs[k].free)
  {
  }

  /** Different blocks occupy disjoint stretches, headers included. */
  lemma DisjointBlocks(bs: seq<Block>, lo: int, hi: int, hdr: nat, i: nat, j: nat)
    requires Tiles(bs, lo, hi, hdr) && i < |bs| && j < |bs| && i != j
    ensures End(bs[i], hdr) <= bs[j].start || End(bs[j], hdr) <= bs[i].start
  {
    if i < j {
      Ordered(bs, lo, hi, hdr, i, j);
    } else {
      Ordered(bs, lo, hi, hdr, j, i);
    }
  }

  lemma {:induction false} InsideRegion(bs: seq<Block>, lo: int, hi: int, hdr: nat, i: nat)
    requires Tiles(bs, lo, hi, hdr) && i < |bs|
    ensures lo <= bs[i].start && End(bs[i], hdr) <= hi
  {
    if i > 0 {
      Ordered(bs, lo, hi, hdr, 0, i);
    }
    if i < |bs| - 1 {
      Ordered(bs, lo, hi, hdr, i, |bs| - 1);
    }
  }

  /** Headers of different blocks are different. */
  lemma HeadersDiffer(mem: Memory, bs: seq<Block>, lo: int, hi: int, hdr: nat, i: nat, j: nat)
    requires Tiles(bs, lo, hi, hdr) && Described(mem, bs) && hdr > 0 && i < |bs| && j < |bs| && i != j
    ensures HeaderOf(bs[i]) != HeaderOf(bs[j])
    ensures bs[i].start <= HeaderOf(bs[i]) < End(bs[i], hdr)
  {
    assert BlockAt(mem, bs[i]) && BlockAt(mem, bs[j]);
    DisjointBlocks(bs, lo, hi, hdr, i, j);
  }

  /** Changing headers of free blocks without touching their size keeps every block described. */
  lemma FreeHeaderChange(mem: Memory, mem': Memory, bs: seq<Block>, lo: int, hi: int, hdr: nat, a: int)
    requires Tiles(bs, lo, hi, hdr) && Described(mem, bs) && hdr > 0 && FreeAt(bs, a) && a in mem
    requires mem'.Keys == mem.Keys && (forall x :: x in mem && x != a ==> mem'[x] == mem[x]) &&
      mem'[a].size == mem[a].size
    ensures Described(mem', bs)
  {
    var i :| 0 <= i < |bs| && bs[i].free && bs[i].start == a;
    forall k | 0 <= k < |bs|
      ensures BlockAt(mem', bs[k])
    {
      assert BlockAt(mem, bs[k]) && BlockAt(mem, bs[i]);
      if k != i {
        HeadersDiffer(mem, bs, lo, hi, hdr, i, k);
      }
    }
  }

  // ---------------------------------------------------------------- replacing blocks

  lemma FreeAtSplice(bs: seq<Block>, i: nat, j: nat, mid: seq<Block>, a: int)
    requires i <= j <= |bs|
    ensures FreeAt(bs[..i] + mid + bs[j..], a) <==> FreeAt(bs[..i], a) || FreeAt(mid, a) || FreeAt(bs[j..], a)
  {
    var r, m := bs[..i] + mid + bs[j..], |mid|;
    if FreeAt(r, a) {
      var k :| 0 <= k < |r| && r[k].free && r[k].start == a;
      if k < i {
        assert bs[..i][k].start == a && bs[..i][k].free;
      } else if k < i + m {
        assert mid[k - i].start == a && mid[k - i].free;
      } else {
        assert bs[j..][k - i - m].start == a && bs[j..][k - i - m].free;
      }
    }
    if FreeAt(bs[..i], a) {
      var k :| 0 <= k < i && bs[..i][k].free && bs[..i][k].start == a;
      assert r[k].free && r[k].start == a;
    }
    if FreeAt(mid, a) {
      var k :| 0 <= k < m && mid[k].free && mid[k].start == a;
      assert r[i + k].free && r[i + k].start == a;
    }
    if FreeAt(bs[j..], a) {
      var k :| 0 <= k < |bs| - j && bs[j..][k].free && bs[j..][k].start == a;
      assert r[i + m + k].free && r[i + m + k].start == a;
    }
  }

  lemma FreeBefore(bs: seq<Block>, lo: int, hi: int, hdr: nat, i: nat, a: int, k: nat)
    requires Tiles(bs, lo, hi, hdr) && hdr > 0 && i <= k < |bs| && FreeAt(bs[..i], a)
    ensures bs[k].start != a
  {
    var n :| 0 <= n < i && bs[..i][n].free && bs[..i][n].start == a;
    Ordered(bs, lo, hi, hdr, n, k);
  }

  lemma FreeAfter(bs: seq<Block>, lo: int, hi: int, hdr: nat, j: nat, a: int, k: nat)
    requires Tiles(bs, lo, hi, hdr) && hdr > 0 && k < j <= |bs| && FreeAt(bs[j..], a)
    ensures bs[k].start != a
  {
    var n :| 0 <= n < |bs| - j && bs[j..][n].free && bs[j..][n].start == a;
    Ordered(bs, lo, hi, hdr, k, j + n);
    assert bs[j + n] == bs[j..][n];
  }

  /** Free blocks outside [i, j) start elsewhere than those inside. */
  lemma FreeOutside(bs: seq<Block>, lo: int, hi: int, hdr: nat, i: nat, j: nat, a: int)
    requires Tiles(bs, lo, hi, hdr) && hdr > 0 && i < j <= |bs|
    ensures FreeAt(bs[..i], a) || FreeAt(bs[j..], a) <==> FreeAt(bs, a) && forall k :: i <= k < j ==> bs[k].start != a
  {
    FreeAtSplice(bs, i, j, bs[i..j], a);
    assert bs[..i] + bs[i..j] + bs[j..] == bs;
    forall k | i <= k < j && (FreeAt(bs[..i], a) || FreeAt(bs[j..], a))
      ensures bs[k].start != a
    {
      if FreeAt(bs[..i], a) {
        FreeBefore(bs, lo, hi, hdr, i, a, k);
      } else {
        FreeAfter(bs, lo, hi, hdr, j, a, k);
      }
    }
    if FreeAt(bs[i..j], a) {
      var n :| 0 <= n < j - i && bs[i..j][n].free && bs[i..j][n].start == a;
      assert bs[i + n].start == a;
    }
  }

  /** Blocks that keep their headers stay described. */
  lemma DescribedSplice(mem: Memory, mem': Memory, bs: seq<Block>, i: nat, j: nat, mid: seq<Block>)
    requires i <= j <= |bs| && Described(mem', mid) && Described(mem, bs)
    requires forall k :: 0 <= k < |bs| && !(i <= k < j) ==> BlockAt(mem', bs[k])
    ensures Described(mem', bs[..i] + mid + bs[j..])
  {
  }

  /** Adjacency after replacing [i, j) by mid: only the seams and mid itself matter. */
  lemma NoAdjacentSplice(bs: seq<Block>, i: nat, j: nat, mid: seq<Block>)
    requires i < j <= |bs| && |mid| > 0 && NoAdjacentFree(mid)
    requires forall k :: 0 < k < |bs| && !(i <= k <= j) ==> !(bs[k - 1].free && bs[k].free)
    requires i > 0 ==> !(bs[i - 1].free && mid[0].free)
    requires j < |bs| ==> !(mid[|mid| - 1].free && bs[j].free)
    ensures NoAdjacentFree(bs[..i] + mid + bs[j..])
  {
    var r, m := bs[..i] + mid + bs[j..], |mid|;
    forall k | 0 < k < |r|
      ensures !(r[k - 1].free && r[k].free)
    {
      if k < i {
        assert r[k - 1] == bs[k - 1] && r[k] == bs[k];
      } else if k == i {
        assert r[k - 1] == bs[i - 1] && r[k] == mid[0];
      } else if k < i + m {
        assert r[k - 1] == mid[k - 1 - i] && r[k] == mid[k - i];
      } else if k == i + m {
        assert r[k - 1] == mid[m - 1] && r[k] == bs[j];
      } else {
        assert r[k - 1] == bs[k - 1 - i - m + j] && r[k] == bs[k - i - m + j];
      }
    }
  }

  /** The allocated blocks. */
  ghost function Live(bs: seq<Block>): set<Block> {
    set i | 0 <= i < |bs| && !bs[i].free :: bs[i]
  }

  lemma LiveSplice(bs: seq<Block>, i: nat, j: nat, mid: seq<Block>)
    requires i <= j <= |bs|
    ensures Live(bs[..i] + mid + bs[j..]) == Live(bs[..i]) + Live(mid) + Live(bs[j..])
    ensures Live(bs) == Live(bs[..i]) + Live(bs[i..j]) + Live(bs[j..])
  {
    var r, m := bs[..i] + mid + bs[j..], |mid|;
    forall b | b in Live(bs[..i]) + Live(mid) + Live(bs[j..])
      ensures b in Live(r)
    {
      if b in Live(bs[..i]) {
        var k :| 0 <= k < i && bs[..i][k] == b;
        assert r[k] == b;
      } else if b in Live(mid) {
        var k :| 0 <= k < m && mid[k] == b;
        assert r[i + k] == b;
      } else {
        var k :| 0 <= k < |bs| - j && bs[j..][k] == b;
        assert r[i + m + k] == b;
      }
    }
    forall b | b in Live(bs)
      ensures b in Live(bs[..i]) + Live(bs[i..j]) + Live(bs[j..])
    {
      var k :| 0 <= k < |bs| && bs[k] == b && !bs[k].free;
      if k < i {
        assert bs[..i][k] == b;
      } else if k < j {
        assert bs[i..j][k - i] == b;
      } else {
        assert bs[j..][k - j] == b;
      }
    }
  }

  /** The memory outside block b is as before, links of free chunks aside. */
  ghost predicate OutsideKept(mem: Memory, mem': Memory, b: Block, hdr: nat) {
    forall x :: x in mem && !(b.start <= x < End(b, hdr)) ==> x in mem' && SameFields(mem[x], mem'[x])
  }

  /** Replacing block i alone: everything said about the other blocks still holds. */
  lemma ReplaceBlock(mem: Memory, mem': Memory, bs: seq<Block>, lo: int, hi: int, hdr: nat, i: nat, mid: seq<Block>)
    requires Tiles(bs, lo, hi, hdr) && Described(mem, bs) && hdr > 0 && i < |bs|
    requires Tiles(mid, bs[i].start, End(bs[i], hdr), hdr) && Described(mem', mid) && OutsideKept(mem, mem', bs[i], hdr)
    ensures Tiles(bs[..i] + mid + bs[i + 1..], lo, hi, hdr) && Described(mem', bs[..i] + mid + bs[i + 1..])
  {
    Splice(bs, lo, hi, hdr, i, i + 1, mid);
    forall k | 0 <= k < |bs| && k != i
      ensures BlockAt(mem', bs[k])
    {
      assert BlockAt(mem, bs[k]);
      HeadersDiffer(mem, bs, lo, hi, hdr, k, i);
      DisjointBlocks(bs, lo, hi, hdr, k, i);
      var h := HeaderOf(bs[k]);
      assert h in mem && !(bs[i].start <= h < End(bs[i], hdr)) && SameFields(mem[h], mem'[h]);
    }
    DescribedSplice(mem, mem', bs, i, i + 1, mid);
  }

  /** The quick list after replacing block i. */
  lemma ReplaceIndexed(ix: Index, ix': Index, bs: seq<Block>, lo: int, hi: int, hdr: nat, i: nat, mid: seq<Block>)
    requires Tiles(bs, lo, hi, hdr) && hdr > 0 && i < |bs| && Indexed(ix, bs)
    requires forall a :: In(ix', a) <==> (In(ix, a) && a != bs[i].start) || FreeAt(mid, a)
    ensures Indexed(ix', bs[..i] + mid + bs[i + 1..])
  {
    forall a
      ensures In(ix', a) <==> FreeAt(bs[..i] + mid + bs[i + 1..], a)
    {
      FreeAtSplice(bs, i, i + 1, mid, a);
      FreeOutside(bs, lo, hi, hdr, i, i + 1, a);
    }
  }

  /** Inside block i no free block starts except possibly i itself. */
  lemma NothingFreeInside(bs: seq<Block>, lo: int, hi: int, hdr: nat, i: nat)
    requires Tiles(bs, lo, hi, hdr) && hdr > 0 && i < |bs|
    ensures forall a :: FreeAt(bs, a) && bs[i].start <= a < End(bs[i], hdr) ==> a == bs[i].start
  {
    forall a | FreeAt(bs, a) && bs[i].start <= a < End(bs[i], hdr)
      ensures a == bs[i].start
    {
      var k :| 0 <= k < |bs| && bs[k].free && bs[k].start == a;
      SameBlock(bs, lo, hi, hdr, i, k, a);
    }
  }

  /** What an allocation turns a free block of the given size into. */
  function Carved(start: int, size: nat, hdr: nat, requested: nat, padding: nat): (mid: seq<Block>)
    requires padding + requested <= size
    ensures Tiles(mid, start, start + hdr + size, hdr) && NoAdjacentFree(mid)
    ensures |mid| > 0 && mid[0] == Block(start, mid[0].size, false, padding) && padding + requested <= mid[0].size
    ensures forall a :: FreeAt(mid, a) <==> |mid| == 2 && a == mid[1].start
  {
    if size > requested + padding + hdr then
      var mid := [Block(start, requested + padding, false, padding),
                  Block(start + hdr + requested + padding, size - requested - hdr - padding, true, 0)];
      assert mid[1].free;
      mid
    else [Block(start, size, false, padding)]
  }

  /** bs arises from bs0 by allocating requested bytes at addr from its free block i. */
  ghost predicate Allocates(bs0: seq<Block>, bs: seq<Block>, i: nat, addr: int, hdr: nat, requested: nat) {
    i < |bs0| && bs0[i].free &&
    var padding := addr - hdr - bs0[i].start;
    0 <= padding && padding + requested <= bs0[i].size &&
    bs == bs0[..i] + Carved(bs0[i].start, bs0[i].size, hdr, requested, padding) + bs0[i + 1..]
  }

  /** All free payload. */
  ghost function FreeBytes(bs: seq<Block>): nat {
    if |bs| == 0 then 0
    else FreeBytes(bs[..|bs| - 1]) + if bs[|bs| - 1].free then bs[|bs| - 1].size else 0
  }

  lemma {:induction false} FreeBytesConcat(a: seq<Block>, b: seq<Block>)
    ensures FreeBytes(a + b) == FreeBytes(a) + FreeBytes(b)
  {
    if b == [] {
      assert a + b == a;
    } else {
      var n := |b| - 1;
      FreeBytesConcat(a, b[..n]);
      assert (a + b)[..|a + b| - 1] == a + b[..n];
    }
  }

  /**
   Block i has become an allocated one for requested bytes behind padding. A chunk that holds more than a further
   header is cut right behind them, and the rest is free; any other is handed out whole.
   */
  ghost predicate Splits(bs0: seq<Block>, bs: seq<Block>, i: nat, padding: int, hdr: nat, requested: nat) {
    i < |bs0| && i < |bs| && bs[..i] == bs0[..i] &&
    bs[i].start == bs0[i].start && !bs[i].free && bs[i].padding == padding &&
    if bs0[i].size > padding + requested + hdr then
      |bs| == |bs0| + 1 && bs[i].size == padding + requested && bs[i + 2..] == bs0[i + 1..] &&
      bs[i + 1].free && bs[i + 1].start == End(bs[i], hdr) && End(bs[i + 1], hdr) == End(bs0[i], hdr) &&
      FreeBytes(bs) == FreeBytes(bs0) - (padding + requested + hdr)
    else
      |bs| == |bs0| && bs[i].size == bs0[i].size && bs[i + 1..] == bs0[i + 1..] &&
      FreeBytes(bs) == FreeBytes(bs0) - bs0[i].size
  }

  /** No allocation keeps more than a header's worth of bytes to itself. */
  lemma SplitWaste(bs0: seq<Block>, bs: seq<Block>, i: nat, padding: int, hdr: nat, requested: nat)
    requires Splits(bs0, bs, i, padding, hdr, requested)
    ensures bs[i].padding == padding && bs[i].size <= padding + requested + hdr
  {
  }

  lemma AllocatedSplits(bs0: seq<Block>, bs: seq<Block>, i: nat, addr: int, hdr: nat, requested: nat)
    requires Allocates(bs0, bs, i, addr, hdr, requested)
    ensures Splits(bs0, bs, i, addr - hdr - bs0[i].start, hdr, requested)
  {
    var mid := Carved(bs0[i].start, bs0[i].size, hdr, requested, addr - hdr - bs0[i].start);
    var front, back := bs0[..i], bs0[i + 1..];
    assert bs == front + mid + back && bs[..i] == front && bs[i] == mid[0] && bs[i + |mid|..] == back;
    assert bs0 == front + [bs0[i]] + back;
    FreeBytesConcat(front, mid);
    FreeBytesConcat(front + mid, back);
    FreeBytesConcat(front, [bs0[i]]);
    FreeBytesConcat(front + [bs0[i]], back);
    FreeBytesOne(bs0[i]);
    CarvedBytes(bs0[i].start, bs0[i].size, hdr, requested, addr - hdr - bs0[i].start);
    if |mid| == 2 {
      assert bs[i + 1] == mid[1];
    }
  }

  lemma CarvedLength(start: int, size: nat, hdr: nat, requested: nat, padding: nat)
    requires padding + requested <= size
    ensures 1 <= |Carved(start, size, hdr, requested, padding)| <= 2
  {
  }

  lemma FreeBytesOne(b: Block)
    ensures FreeBytes([b]) == if b.free then b.size else 0
  {
    assert [b][..0] == [];
  }

  lemma CarvedBytes(start: int, size: nat, hdr: nat, requested: nat, padding: nat)
    requires padding + requested <= size
    ensures FreeBytes(Carved(start, size, hdr, requested, padding)) ==
      if size > padding + requested + hdr then size - (padding + requested + hdr) else 0
  {
    hide FreeBytes;
    var mid := Carved(start, size, hdr, requested, padding);
    FreeBytesOne(mid[0]);
    if |mid| == 2 {
      assert mid == [mid[0]] + [mid[1]];
      FreeBytesConcat([mid[0]], [mid[1]]);
      FreeBytesOne(mid[1]);
    } else {
      assert mid == [mid[0]];
    }
  }

  /**
   The payload of an allocation lies inside its own new block, behind that block's header, and
   every other block, allocated or free, header included, lies wholly before or after it.
   */
  lemma AllocatedPayload(bs0: seq<Block>, bs: seq<Block>, lo: int, hi: int, hdr: nat, i: nat, addr: int, requested: nat)
    requires Tiles(bs, lo, hi, hdr) && Allocates(bs0, bs, i, addr, hdr, requested)
    ensures i < |bs| && !bs[i].free && HeaderOf(bs[i]) + hdr == addr && addr + requested <= End(bs[i], hdr)
    ensures lo <= bs[i].start && End(bs[i], hdr) <= hi
    ensures forall k :: 0 <= k < |bs| && k != i ==> End(bs[k], hdr) <= bs[i].start || End(bs[i], hdr) <= bs[k].start
    ensures Live(bs) == Live(bs0) + {bs[i]}
  {
    var mid := Carved(bs0[i].start, bs0[i].size, hdr, requested, addr - hdr - bs0[i].start);
    assert bs[i] == mid[0];
    InsideRegion(bs, lo, hi, hdr, i);
    forall k | 0 <= k < |bs| && k != i
      ensures End(bs[k], hdr) <= bs[i].start || End(bs[i], hdr) <= bs[k].start
    {
      DisjointBlocks(bs, lo, hi, hdr, k, i);
    }
    LiveSplice(bs0, i, i + 1, mid);
    assert Live(mid) == {mid[0]};
    assert Live(bs0[i..i + 1]) == {};
  }

  /** Block i, allocated before, is free now. */
  ghost function Freed(bs: seq<Block>, i: nat): seq<Block>
    requires i < |bs|
  {
    bs[..i] + [Block(bs[i].start, bs[i].size, true, 0)] + bs[i + 1..]
  }

  lemma AllocatedNotFree(bs: seq<Block>, lo: int, hi: int, hdr: nat, i: nat)
    requires Tiles(bs, lo, hi, hdr) && hdr > 0 && i < |bs| && !bs[i].free
    ensures forall a :: bs[i].start <= a < End(bs[i], hdr) ==> !FreeAt(bs, a)
  {
    forall a | bs[i].start <= a < End(bs[i], hdr) && FreeAt(bs, a)
      ensures false
    {
      var k :| 0 <= k < |bs| && bs[k].free && bs[k].start == a;
      SameBlock(bs, lo, hi, hdr, i, k, a);
    }
  }

  lemma FreedLive(bs: seq<Block>, lo: int, hi: int, hdr: nat, i: nat)
    requires Tiles(bs, lo, hi, hdr) && hdr > 0 && i < |bs| && !bs[i].free
    ensures Live(Freed(bs, i)) == Live(bs) - {bs[i]}
  {
    hide Live, Tiles;
    var mid := [Block(bs[i].start, bs[i].size, true, 0)];
    LiveSplice(bs, i, i + 1, mid);
    LiveOne(mid[0]);
    LiveOne(bs[i]);
    assert bs[i..i + 1] == [bs[i]];
    OnceBelow(bs, lo, hi, hdr, i);
    OnceAbove(bs, lo, hi, hdr, i);
  }

  lemma LiveOne(b: Block)
    ensures Live([b]) == if b.free then {} else {b}
  {
    assert [b][0] == b;
  }

  lemma OnceBelow(bs: seq<Block>, lo: int, hi: int, hdr: nat, i: nat)
    requires Tiles(bs, lo, hi, hdr) && hdr > 0 && i < |bs|
    ensures bs[i] !in Live(bs[..i])
  {
    hide Tiles;
    if bs[i] in Live(bs[..i]) {
      var k :| 0 <= k < i && bs[..i][k] == bs[i];
      Ordered(bs, lo, hi, hdr, k, i);
    }
  }

  lemma OnceAbove(bs: seq<Block>, lo: int, hi: int, hdr: nat, i: nat)
    requires Tiles(bs, lo, hi, hdr) && hdr > 0 && i < |bs|
    ensures bs[i] !in Live(bs[i + 1..])
  {
    hide Tiles;
    if bs[i] in Live(bs[i + 1..]) {
      var k :| 0 <= k < |bs| - i - 1 && bs[i + 1..][k] == bs[i];
      Ordered(bs, lo, hi, hdr, i, i + 1 + k);
    }
  }

  lemma FreedNoAdjacent(bs: seq<Block>, i: nat)
    requires NoAdjacentFree(bs) && i < |bs|
    ensures NoAdjacentBut(Freed(bs, i), i)
  {
    var r := Freed(bs, i);
    assert forall k :: 0 <= k < |bs| && k != i ==> r[k] == bs[k];
    forall k | 0 < k < |r| && k != i && k != i + 1
      ensures !(r[k - 1].free && r[k].free)
    {
      NotBothFree(bs, k);
    }
  }

  // ---------------------------------------------------------------- coalescing

  /** Free neighbours occur at most on either side of block i. */
  ghost predicate NoAdjacentBut(bs: seq<Block>, i: nat) {
    forall k :: 0 < k < |bs| && k != i && k != i + 1 ==> !(bs[k - 1].free && bs[k].free)
  }

  /** Blocks k and k+1 as one free block. */
  ghost function Joined(bs: seq<Block>, k: nat, hdr: nat): seq<Block>
    requires k + 1 < |bs|
  {
    bs[..k] + [Block(bs[k].start, bs[k].size + hdr + bs[k + 1].size, true, 0)] + bs[k + 2..]
  }

  /** A free block that touches block i is its neighbour. */
  lemma TouchingIsNeighbour(bs: seq<Block>, lo: int, hi: int, hdr: nat, i: nat, j: nat)
    requires Tiles(bs, lo, hi, hdr) && hdr > 0 && i < |bs| && j < |bs|
    ensures End(bs[i], hdr) == bs[j].start <==> j == i + 1
  {
    if End(bs[i], hdr) == bs[j].start {
      if j <= i {
        if j < i {
          Ordered(bs, lo, hi, hdr, j, i);
        }
      } else if j > i + 1 {
        Ordered(bs, lo, hi, hdr, i + 1, j);
      }
    }
  }

  lemma JoinedTiles(bs: seq<Block>, lo: int, hi: int, hdr: nat, k: nat)
    requires Tiles(bs, lo, hi, hdr) && k + 1 < |bs|
    ensures Tiles(Joined(bs, k, hdr), lo, hi, hdr)
  {
    var mid := [Block(bs[k].start, bs[k].size + hdr + bs[k + 1].size, true, 0)];
    assert End(bs[k], hdr) == bs[k + 1].start;
    Splice(bs, lo, hi, hdr, k, k + 2, mid);
  }

  /** Joining removes one place where free blocks may meet and creates none elsewhere. */
  lemma JoinedCovers(bs: seq<Block>, lo: int, hi: int, k: nat, hdr: nat)
    requires Tiles(bs, lo, hi, hdr) && k + 1 < |bs|
    ensures var r := Joined(bs, k, hdr);
      k < |r| && r[k].free && r[k].start == bs[k].start <= bs[k + 1].start &&
      End(r[k], hdr) == End(bs[k + 1], hdr) >= End(bs[k], hdr)
  {
    assert End(bs[k], hdr) == bs[k + 1].start;
  }

  lemma JoinedNoAdjacent(bs: seq<Block>, k: nat, i: nat, hdr: nat)
    requires k + 1 < |bs| && (i == k || i == k + 1) && NoAdjacentBut(bs, i)
    ensures NoAdjacentBut(Joined(bs, k, hdr), k)
  {
    var r := Joined(bs, k, hdr);
    forall n | 0 < n < |r| && n != k && n != k + 1
      ensures !(r[n - 1].free && r[n].free)
    {
      if n < k {
        assert r[n - 1] == bs[n - 1] && r[n] == bs[n];
      } else {
        assert r[n - 1] == bs[n] && r[n] == bs[n + 1];
      }
    }
  }

  lemma JoinedLive(bs: seq<Block>, k: nat, hdr: nat)
    requires k + 1 < |bs| && bs[k].free && bs[k + 1].free
    ensures Live(Joined(bs, k, hdr)) == Live(bs)
  {
    var mid := [Block(bs[k].start, bs[k].size + hdr + bs[k + 1].size, true, 0)];
    LiveSplice(bs, k, k + 2, mid);
    assert Live(mid) == {};
    assert Live(bs[k..k + 2]) == {};
  }

  /** The headers of all other blocks keep their data, the lower one tells the joint size. */
  lemma JoinedDescribed(mem: Memory, mem': Memory, bs: seq<Block>, lo: int, hi: int, hdr: nat, k: nat)
    requires Tiles(bs, lo, hi, hdr) && hdr > 0 && Described(mem, bs) && k + 1 < |bs| && bs[k].free && bs[k + 1].free
    requires mem'.Keys == mem.Keys && forall x :: x in mem && x != bs[k].start ==> SameFields(mem[x], mem'[x])
    requires bs[k].start in mem && mem'[bs[k].start].size == bs[k].size + hdr + bs[k + 1].size
    ensures Described(mem', Joined(bs, k, hdr))
  {
    var mid := [Block(bs[k].start, bs[k].size + hdr + bs[k + 1].size, true, 0)];
    forall n | 0 <= n < |bs| && !(k <= n < k + 2)
      ensures BlockAt(mem', bs[n])
    {
      assert BlockAt(mem, bs[n]) && BlockAt(mem, bs[k]);
      HeadersDiffer(mem, bs, lo, hi, hdr, n, k);
      var h := HeaderOf(bs[n]);
      assert h in mem && SameFields(mem[h], mem'[h]);
    }
    DescribedSplice(mem, mem', bs, k, k + 2, mid);
  }

  lemma JoinedIndexed(ix: Index, ix': Index, bs: seq<Block>, lo: int, hi: int, hdr: nat, k: nat)
    requires Tiles(bs, lo, hi, hdr) && hdr > 0 && Indexed(ix, bs) && k + 1 < |bs|
    requires forall a :: In(ix', a) <==> (In(ix, a) && a != bs[k].start && a != bs[k + 1].start) || a == bs[k].start
    ensures Indexed(ix', Joined(bs, k, hdr))
  {
    var mid := [Block(bs[k].start, bs[k].size + hdr + bs[k + 1].size, true, 0)];
    forall a
      ensures In(ix', a) <==> FreeAt(Joined(bs, k, hdr), a)
    {
      FreeAtSplice(bs, k, k + 2, mid, a);
      FreeOutside(bs, lo, hi, hdr, k, k + 2, a);
      assert mid[0].free;
      assert FreeAt(mid, a) <==> a == bs[k].start;
    }
  }

  // ---------------------------------------------------------------- alignment

  /** Rounding up to a multiple of the alignment. */
  function RoundUp(addr: nat, alignment: nat): (r: nat)
    requires alignment > 0
    ensures addr <= r < addr + alignment && r % alignment == 0
  {
    var q := (addr + alignment - 1) / alignment;
    RoundUpBounds(addr, alignment, q, (addr + alignment - 1) % alignment);
    q * alignment
  }

  lemma RoundUpBounds(addr: nat, alignment: nat, q: int, rem: nat)
    requires alignment > 0 && addr + alignment - 1 == q * alignment + rem && rem < alignment
    ensures addr <= q * alignment < addr + alignment && (q * alignment) % alignment == 0
  {
    DivisionUnique(q * alignment, alignment, q, 0);
  }

  ghost predicate PowerOfTwo(n: nat) {
    exists k: nat :: n == Pow(2, k)
  }

  /** For powers of two the mask -alignment, in words of any width that holds the address, rounds up. */
  lemma MaskRoundsUp(addr: nat, alignment: nat, width: nat)
    requires PowerOfTwo(alignment) && addr + alignment <= Pow(2, width)
    ensures 0 < alignment <= Pow(2, width)
    ensures BitAnd(addr + alignment - 1, Pow(2, width) - alignment) == RoundUp(addr, alignment)
  {
    hide BitAnd, Pow, Low, RoundUp;
    var k: nat :| alignment == Pow(2, k);
    PowPositive(2, k);
    ExponentBelow(k, width);
    AndNegative(addr + alignment - 1, width, k);
    LowIsRemainder(addr + alignment - 1, k);
    RoundUpRemainder(addr, alignment);
  }

  lemma LowIsRemainder(x: nat, k: nat)
    ensures Pow(2, k) > 0 && Low(x, k) == x % Pow(2, k)
  {
    hide Pow;
    PowPositive(2, k);
    ShiftsAndMasks(x, k);
  }

  lemma RoundUpRemainder(addr: nat, alignment: nat)
    requires alignment > 0
    ensures RoundUp(addr, alignment) == addr + alignment - 1 - (addr + alignment - 1) % alignment
  {
  }

  lemma ExponentBelow(k: nat, n: nat)
    requires Pow(2, k) <= Pow(2, n)
    ensures k <= n
  {
    if k > n {
      PowMonotone(2, n + 1, k);
      PowPositive(2, n);
    }
  }

  /** The chunk at a can hold requested bytes at an aligned address. */
  predicate Fits(a: nat, size: nat, hdr: nat, requested: nat, alignment: nat)
    requires alignment > 0
  {
    RoundUp(a + hdr, alignment) - (a + hdr) + requested <= size
  }
}
