/**
 When malloc (so3/mm/heap.c) refuses a request that some free chunk could serve: it looks at the last chunk of each
 size only, and the padding an alignment asks for differs between chunks of one size.
 */
module HeapRefusals {
  import opened Powers
  import opened QuickIndex
  import opened Tiling
  import opened KernelHeap
  import opened HeapRuns

  /** malloc answers NULL. */
  ghost predicate Refused(s: Snapshot, hdr: nat, requested: nat, alignment: nat)
    requires alignment > 0
  {
    forall d: nat :: !Serves(s, hdr, d, requested, alignment)
  }

  /** The free chunk at a could serve the request. */
  ghost predicate CouldServe(s: Snapshot, hdr: nat, a: int, requested: nat, alignment: nat)
    requires alignment > 0
  {
    In(s.index, a) && a in s.mem && a > 0 && Fits(a, s.mem[a].size, hdr, requested, alignment)
  }

  ghost predicate HasRoom(s: Snapshot, hdr: nat, requested: nat, alignment: nat)
    requires alignment > 0
  {
    exists a :: CouldServe(s, hdr, a, requested, alignment)
  }

  ghost predicate Chunk(s: Snapshot, a: int) {
    In(s.index, a) && a in s.mem && a > 0
  }

  /** The bytes the chunk at a offers at an aligned address. */
  ghost function Offer(s: Snapshot, hdr: nat, a: int, alignment: nat): int
    requires alignment > 0 && a in s.mem && a > 0
  {
    s.mem[a].size - (RoundUp(a + hdr, alignment) - (a + hdr))
  }

  ghost predicate IsTail(s: Snapshot, d: nat, a: int) {
    d < |s.index| && |s.index[d]| > 0 && a == s.index[d][|s.index[d]| - 1] && a in s.mem && a > 0
  }

  /** No chunk offers more than all last chunks do. */
  ghost predicate TailsBest(s: Snapshot, hdr: nat, alignment: nat)
    requires alignment > 0
  {
    forall a :: Chunk(s, a) && Offer(s, hdr, a, alignment) >= 0 ==> Matched(s, hdr, a, alignment)
  }

  ghost predicate Matched(s: Snapshot, hdr: nat, a: int, alignment: nat)
    requires alignment > 0 && Chunk(s, a)
  {
    exists d: nat, t: int :: IsTail(s, d, t) && Offer(s, hdr, t, alignment) >= Offer(s, hdr, a, alignment)
  }

  // ---------------------------------------------------------------- the exact condition

  /** What is refused has no last chunk to serve it, and the other way round. */
  lemma RefusedTails(s: Snapshot, hdr: nat, requested: nat, alignment: nat)
    requires alignment > 0
    ensures Refused(s, hdr, requested, alignment) <==>
      forall d: nat, t: int :: IsTail(s, d, t) ==> Offer(s, hdr, t, alignment) < requested
  {
    hide RoundUp;
    if Refused(s, hdr, requested, alignment) {
      forall d: nat, t: int | IsTail(s, d, t)
        ensures Offer(s, hdr, t, alignment) < requested
      {
        assert !Serves(s, hdr, d, requested, alignment);
      }
    } else {
      var d: nat :| Serves(s, hdr, d, requested, alignment);
      assert IsTail(s, d, s.index[d][|s.index[d]| - 1]);
    }
  }

  lemma TailIsChunk(s: Snapshot, d: nat, t: int)
    requires IsTail(s, d, t)
    ensures Chunk(s, t)
  {
  }

  /** Without room every request is refused. */
  lemma NoRoomRefused(s: Snapshot, hdr: nat, requested: nat, alignment: nat)
    requires alignment > 0 && !HasRoom(s, hdr, requested, alignment)
    ensures Refused(s, hdr, requested, alignment)
  {
    hide RoundUp;
    RefusedTails(s, hdr, requested, alignment);
    forall d: nat, t: int | IsTail(s, d, t)
      ensures Offer(s, hdr, t, alignment) < requested
    {
      TailIsChunk(s, d, t);
      assert !CouldServe(s, hdr, t, requested, alignment);
    }
  }

  /** Refused means no room, for every size, exactly if the last chunks are the best. */
  lemma RefusalExact(s: Snapshot, hdr: nat, alignment: nat)
    requires alignment > 0
    ensures (forall requested: nat :: Refused(s, hdr, requested, alignment) <==> !HasRoom(s, hdr, requested, alignment))
       <==> TailsBest(s, hdr, alignment)
  {
    hide RoundUp, Refused, HasRoom, Matched, Offer;
    if TailsBest(s, hdr, alignment) {
      forall requested: nat
        ensures Refused(s, hdr, requested, alignment) <==> !HasRoom(s, hdr, requested, alignment)
      {
        BestServes(s, hdr, requested, alignment);
      }
    } else {
      var a :| Chunk(s, a) && Offer(s, hdr, a, alignment) >= 0 && !Matched(s, hdr, a, alignment);
      UnmatchedRefused(s, hdr, a, alignment);
    }
  }

  lemma BestServes(s: Snapshot, hdr: nat, requested: nat, alignment: nat)
    requires alignment > 0 && TailsBest(s, hdr, alignment)
    ensures Refused(s, hdr, requested, alignment) <==> !HasRoom(s, hdr, requested, alignment)
  {
    hide RoundUp, Refused;
    RefusedTails(s, hdr, requested, alignment);
    if HasRoom(s, hdr, requested, alignment) {
      var a :| CouldServe(s, hdr, a, requested, alignment);
      assert Chunk(s, a) && Offer(s, hdr, a, alignment) >= requested;
      assert Matched(s, hdr, a, alignment);
    } else {
      NoRoomRefused(s, hdr, requested, alignment);
    }
  }

  lemma UnmatchedRefused(s: Snapshot, hdr: nat, a: int, alignment: nat)
    requires alignment > 0 && Chunk(s, a) && Offer(s, hdr, a, alignment) >= 0 && !Matched(s, hdr, a, alignment)
    ensures Refused(s, hdr, Offer(s, hdr, a, alignment), alignment)
    ensures HasRoom(s, hdr, Offer(s, hdr, a, alignment), alignment)
  {
    hide RoundUp, Refused;
    var requested := Offer(s, hdr, a, alignment);
    RefusedTails(s, hdr, requested, alignment);
    assert CouldServe(s, hdr, a, requested, alignment);
  }

  /** In any case a free chunk larger than the request by the alignment less one is enough. */
  lemma LargeEnough(s: Snapshot, base: int, heapSize: nat, hdr: nat, a: int, requested: nat, alignment: nat)
    requires Sound(s, base, heapSize, hdr) && alignment > 0 && Chunk(s, a)
    requires s.mem[a].size >= requested + alignment - 1
    ensures !Refused(s, hdr, requested, alignment)
  {
    hide Tiles, Described, NoAdjacentFree, Indexed, Chained, Distinct;
    var d :| 0 <= d < |s.index| && a in s.index[d];
    assert ClassLinked(s.mem, s.index[d]);
    var t := s.index[d][|s.index[d]| - 1];
    assert t in s.index[d];
    assert ClassSized(s.mem, s.index[d], SizeOf(s.mem, s.index[d]));
    assert Serves(s, hdr, d, requested, alignment);
  }

  // ---------------------------------------------------------------- what was given back can be had again

  lemma RoundUpLeast(x: nat, alignment: nat, y: nat)
    requires alignment > 0 && x <= y && y % alignment == 0
    ensures RoundUp(x, alignment) <= y
  {
    var r := RoundUp(x, alignment);
    if r > y {
      MultiplesApart(y, r, alignment);
    }
  }

  /** Two multiples of d are d apart or more. */
  lemma MultiplesApart(x: nat, y: nat, d: nat)
    requires d > 0 && x % d == 0 && y % d == 0 && x < y
    ensures x + d <= y
  {
    var p, q := x / d, y / d;
    assert x == d * p && y == d * q;
    if q <= p {
      MulMonotone(d, q, p);
    } else {
      MulMonotone(d, p + 1, q);
    }
  }

  /** The block that holds the bytes of a released grant serves the same request again. */
  lemma SameAgain(s: Snapshot, base: int, heapSize: nat, hdr: nat, b: Block, addr: int, g: Grant)
    requires Sound(s, base, heapSize, hdr) && NextInLine(s, hdr, b) && Backs(b, addr, g, hdr)
    ensures !Refused(s, hdr, g.size, g.alignment)
  {
    hide Tiles, NoAdjacentFree, Indexed, Chained, Distinct, Sized, RoundUp;
    var k :| 0 <= k < |s.blocks| && s.blocks[k].free && s.blocks[k].start <= b.start &&
      End(b, hdr) <= End(s.blocks[k], hdr) && Newest(s.index, s.blocks[k].start);
    var t := s.blocks[k].start;
    assert BlockAt(s.mem, s.blocks[k]);
    var d :| 0 <= d < |s.index| && LastOf(s.index[d], t);
    assert ClassLinked(s.mem, s.index[d]);
    assert t > 0;
    RoundUpLeast(t + hdr, g.alignment, addr);
    assert Serves(s, hdr, d, g.size, g.alignment);
  }

  /** In every run: what is released and asked for again right away, with the same size and alignment, is served. */
  lemma ReleasedIsServed(trace: seq<Snapshot>, ops: seq<Op>, results: seq<int>, base: int, heapSize: nat, hdr: nat,
                         i: nat, addr: int)
    requires Follows(trace, ops, results, base, heapSize, hdr) && i + 1 < |ops| && ops[i] == Release(addr)
    requires var grants := Outstanding(ops[..i], results[..i]);
      addr in grants && ops[i + 1] == Alloc(grants[addr].size, grants[addr].alignment)
    ensures results[i + 1] != NULL
  {
    hide Sound, AllocatesAs, Outstanding, NextInLine, Refused, Live, Backs;
    var grants := Outstanding(ops[..i], results[..i]);
    var g := grants[addr];
    assert FollowsAt(trace, ops, results, hdr, i) && FollowsAt(trace, ops, results, hdr, i + 1);
    assert ApartAt(trace, ops, results, hdr, i);
    var j :| 0 <= j < |trace[i].blocks| && !trace[i].blocks[j].free && Backs(trace[i].blocks[j], addr, g, hdr);
    var b :| b in Live(trace[i].blocks) && AddressOf(b, hdr) == addr && NextInLine(trace[i + 1], hdr, b);
    OneOwner(trace[i], base, heapSize, hdr, j, b, addr, g);
    SameAgain(trace[i + 1], base, heapSize, hdr, b, addr, g);
    GrantAlignment(b, addr, g, hdr);
    ServedMeans(trace[i + 1], trace[i + 2], hdr, g.size, g.alignment, results[i + 1]);
  }

  lemma OneOwner(s: Snapshot, base: int, heapSize: nat, hdr: nat, j: nat, b: Block, addr: int, g: Grant)
    requires Sound(s, base, heapSize, hdr) && j < |s.blocks| && Backs(s.blocks[j], addr, g, hdr)
    requires b in Live(s.blocks) && AddressOf(b, hdr) == addr
    ensures b == s.blocks[j]
  {
    hide Linked, Sized, Tiles, NoAdjacentFree, Indexed, Described, Live;
    LiveHeadersDiffer(s.mem, s.blocks, base, base + heapSize, hdr, j);
  }

  lemma GrantAlignment(b: Block, addr: int, g: Grant, hdr: nat)
    requires Backs(b, addr, g, hdr)
    ensures Alignment(g.alignment) == g.alignment
  {
  }

  lemma ServedMeans(s: Snapshot, s': Snapshot, hdr: nat, size: nat, alignment: nat, result: int)
    requires AllocatesAs(s, s', hdr, size, alignment, result) && Alignment(alignment) == alignment > 0
    requires !Refused(s, hdr, size, alignment)
    ensures result != NULL
  {
  }

  // ---------------------------------------------------------------- a run in which they differ

  /** An allocation when only one block is free. */
  lemma OnlyChoice(s: Snapshot, s': Snapshot, base: int, heapSize: nat, hdr: nat, k: nat, size: nat, alignment: nat,
                   result: int)
    requires Sound(s, base, heapSize, hdr) && k < |s.blocks| && s.blocks[k].start > 0
    requires forall j :: 0 <= j < |s.blocks| ==> (s.blocks[j].free <==> j == k)
    requires Alignment(alignment) > 0 && AllocatesAs(s, s', hdr, size, alignment, result)
    requires Fits(s.blocks[k].start, s.blocks[k].size, hdr, size, Alignment(alignment))
    ensures var b := s.blocks[k];
      result == RoundUp(b.start + hdr, Alignment(alignment)) && result - hdr - b.start + size <= b.size &&
      s'.blocks == s.blocks[..k] + Carved(b.start, b.size, hdr, size, result - hdr - b.start) + s.blocks[k + 1..]
  {
    hide Linked, Sized, Tiles, NoAdjacentFree, RoundUp, Carved, Indexed;
    var b := s.blocks[k];
    OneChunk(s, k);
    assert BlockAt(s.mem, b);
    assert Serves(s, hdr, 0, size, Alignment(alignment));
    var c: nat, i: nat :| Carves(s, s', hdr, size, Alignment(alignment), result, c, i);
  }

  lemma OneChunk(s: Snapshot, k: nat)
    requires Linked(s.mem, s.quickList, s.index) && Indexed(s.index, s.blocks) && k < |s.blocks|
    requires forall j :: 0 <= j < |s.blocks| ==> (s.blocks[j].free <==> j == k)
    ensures s.index == [[s.blocks[k].start]]
  {
    hide Linked, In;
    SingleChunk(s.mem, s.quickList, s.index, s.blocks[k].start);
  }

  /** A release when the live blocks are known. */
  lemma OnlyRelease(s: Snapshot, s': Snapshot, hdr: nat, addr: int, b: Block)
    requires Releases(s, s', hdr, addr) && forall x :: x in Live(s.blocks) && AddressOf(x, hdr) == addr ==> x == b
    ensures Live(s'.blocks) == Live(s.blocks) - {b} && NextInLine(s', hdr, b)
  {
    hide Live, NextInLine;
  }

  /** One allocated block inside the region, and nothing else: free blocks on both sides. */
  lemma AroundOne(bs: seq<Block>, lo: int, hi: int, hdr: nat, b: Block)
    requires Tiles(bs, lo, hi, hdr) && NoAdjacentFree(bs) && hdr > 0
    requires Live(bs) == {b} && lo < b.start && End(b, hdr) < hi
    ensures |bs| == 3 && bs[0].free && bs[1] == b && bs[2].free
  {
    assert b in Live(bs);
    var k :| 0 <= k < |bs| && !bs[k].free && bs[k] == b;
    assert |bs| > 1 ==> !(bs[1 - 1].free && bs[1].free);
    assert k + 2 < |bs| ==> !(bs[k + 2 - 1].free && bs[k + 2].free);
    forall j | 0 <= j < |bs| && j != k
      ensures bs[j].free
    {
      if !bs[j].free {
        assert bs[j] in Live(bs);
        DisjointBlocks(bs, lo, hi, hdr, j, k);
      }
    }
  }

  const FIRST := Block(4068, 64, false, 0)
  const SECOND := Block(4164, 57, false, 0)
  const THIRD := Block(4253, 64, false, 3)

  /** Three allocations that fill a region of 281 bytes, then the first and the last released. */
  const CALLS: seq<Op> := [Alloc(64, 0), Alloc(57, 0), Alloc(61, 0), Release(4100), Release(4288)]

  lemma FirstCall(s: Snapshot, s': Snapshot, result: int)
    requires Sound(s, 4068, 281, 32) && s.blocks == [Block(4068, 249, true, 0)]
    requires AllocatesAs(s, s', 32, 64, 0, result)
    ensures result == 4100 && s'.blocks == [FIRST, Block(4164, 153, true, 0)]
  {
    hide Sound, AllocatesAs;
    OnlyChoice(s, s', 4068, 281, 32, 0, 64, 0, result);
  }

  lemma SecondCall(s: Snapshot, s': Snapshot, result: int)
    requires Sound(s, 4068, 281, 32) && s.blocks == [FIRST, Block(4164, 153, true, 0)]
    requires AllocatesAs(s, s', 32, 57, 0, result)
    ensures result == 4196 && s'.blocks == [FIRST, SECOND, Block(4253, 64, true, 0)]
  {
    hide Sound, AllocatesAs;
    OnlyChoice(s, s', 4068, 281, 32, 1, 57, 0, result);
  }

  lemma ThirdCall(s: Snapshot, s': Snapshot, result: int)
    requires Sound(s, 4068, 281, 32) && s.blocks == [FIRST, SECOND, Block(4253, 64, true, 0)]
    requires AllocatesAs(s, s', 32, 61, 0, result)
    ensures result == 4288 && s'.blocks == [FIRST, SECOND, THIRD]
  {
    hide Sound, AllocatesAs;
    OnlyChoice(s, s', 4068, 281, 32, 2, 61, 0, result);
  }

  lemma AllLive(bs: seq<Block>)
    requires bs == [FIRST, SECOND, THIRD]
    ensures Live(bs) == {FIRST, SECOND, THIRD}
  {
    assert bs[0] == FIRST && bs[1] == SECOND && bs[2] == THIRD;
  }

  lemma GrantedThree(ops: seq<Op>, results: seq<int>)
    requires ops == CALLS && |results| == 5 && results[0] == 4100 && results[1] == 4196 && results[2] == 4288
    ensures 4100 in Outstanding(ops[..3], results[..3]) && 4288 in Outstanding(ops[..4], results[..4])
  {
    OutstandingMore(ops, results[..0], 0, 4100);
    OutstandingMore(ops, results[..1], 1, 4196);
    OutstandingMore(ops, results[..2], 2, 4288);
    OutstandingMore(ops, results[..3], 3, results[3]);
    assert results[..1] == results[..0] + [4100] && results[..2] == results[..1] + [4196];
    assert results[..3] == results[..2] + [4288] && results[..4] == results[..3] + [results[3]];
  }

  lemma TwoFree(s: Snapshot)
    requires Sound(s, 4068, 281, 32) && Live(s.blocks) == {SECOND}
    ensures s.blocks == [Block(4068, 64, true, 0), SECOND, Block(4253, 64, true, 0)]
  {
    hide Linked, Sized, Live, Indexed;
    AroundOne(s.blocks, 4068, 4349, 32, SECOND);
    assert BlockAt(s.mem, s.blocks[0]) && BlockAt(s.mem, s.blocks[2]);
    assert End(s.blocks[0], 32) == s.blocks[1].start && End(s.blocks[1], 32) == s.blocks[2].start;
  }

  /** Two chunks of one size are one class; either of them is the last. */
  lemma OneClass(s: Snapshot, a: int, b: int)
    requires Linked(s.mem, s.quickList, s.index) && Sized(s.mem, s.index) && a != b
    requires forall x :: In(s.index, x) <==> x == a || x == b
    requires a in s.mem && b in s.mem && s.mem[a].size == s.mem[b].size
    ensures |s.index| == 1 && forall d: nat, t: int :: IsTail(s, d, t) ==> d == 0 && (t == a || t == b)
  {
    hide Distinct, Chained;
    assert |s.index| > 1 ==> SizeOf(s.mem, s.index[0]) < SizeOf(s.mem, s.index[1]);
    assert In(s.index, a);
    forall d | 0 <= d < |s.index|
      ensures |s.index[d]| > 0 && SizeOf(s.mem, s.index[d]) == s.mem[a].size
    {
      assert ClassLinked(s.mem, s.index[d]) && s.index[d][0] in s.index[d];
      assert In(s.index, s.index[d][0]);
    }
    forall d: nat, t: int | IsTail(s, d, t)
      ensures t == a || t == b
    {
      assert t in s.index[d] && In(s.index, t);
    }
  }

  lemma Offers(s: Snapshot)
    requires 4068 in s.mem && s.mem[4068].size == 64 && 4253 in s.mem && s.mem[4253].size == 64
    ensures Offer(s, 32, 4068, 4) == 64 && Offer(s, 32, 4253, 4) == 61
  {
  }

  /** The chunk released last is looked at, and the other offers more. */
  lemma LastOffersLess(s: Snapshot)
    requires Sound(s, 4068, 281, 32) && s.blocks == [Block(4068, 64, true, 0), SECOND, Block(4253, 64, true, 0)]
    requires NextInLine(s, 32, THIRD)
    ensures Chunk(s, 4068) && Offer(s, 32, 4068, 4) == 64 && !Matched(s, 32, 4068, 4)
  {
    hide Linked, Sized, Tiles, Offer, In;
    assert BlockAt(s.mem, s.blocks[0]) && BlockAt(s.mem, s.blocks[2]);
    assert FreeAt(s.blocks, 4068) && FreeAt(s.blocks, 4253);
    OneClass(s, 4068, 4253);
    Offers(s);
    assert Newest(s.index, 4253);
    LastOfClass(s);
  }

  lemma LastOfClass(s: Snapshot)
    requires Linked(s.mem, s.quickList, s.index) && |s.index| == 1
    ensures |s.index[0]| > 0 && IsTail(s, 0, s.index[0][|s.index[0]| - 1])
  {
    assert ClassLinked(s.mem, s.index[0]);
  }

  lemma StepsOfCalls(trace: seq<Snapshot>, results: seq<int>)
    requires Follows(trace, CALLS, results, 4068, 281, 32)
    ensures AllocatesAs(trace[0], trace[1], 32, 64, 0, results[0])
    ensures AllocatesAs(trace[1], trace[2], 32, 57, 0, results[1])
    ensures AllocatesAs(trace[2], trace[3], 32, 61, 0, results[2])
    ensures results[0] == 4100 && results[1] == 4196 && results[2] == 4288 ==>
      Releases(trace[3], trace[4], 32, 4100) && Releases(trace[4], trace[5], 32, 4288)
  {
    hide Sound, AllocatesAs, Outstanding, Releases, GrantsApart;
    assert FollowsAt(trace, CALLS, results, 32, 0) && CALLS[0] == Alloc(64, 0);
    assert FollowsAt(trace, CALLS, results, 32, 1) && CALLS[1] == Alloc(57, 0);
    assert FollowsAt(trace, CALLS, results, 32, 2) && CALLS[2] == Alloc(61, 0);
    assert FollowsAt(trace, CALLS, results, 32, 3) && CALLS[3] == Release(4100);
    assert FollowsAt(trace, CALLS, results, 32, 4) && CALLS[4] == Release(4288);
    if results[0] == 4100 && results[1] == 4196 && results[2] == 4288 {
      GrantedThree(CALLS, results);
    }
  }

  /** Every run of these calls ends with a heap that refuses a request although a free chunk could serve it. */
  lemma RefusedWithRoom(trace: seq<Snapshot>, results: seq<int>)
    requires Follows(trace, CALLS, results, 4068, 281, 32)
    ensures Refused(trace[5], 32, 64, 4) && HasRoom(trace[5], 32, 64, 4)
  {
    hide Sound, AllocatesAs, Outstanding, Releases, Refused, HasRoom, Live, NextInLine, Offer, Chunk, Matched;
    StepsOfCalls(trace, results);
    FirstCall(trace[0], trace[1], results[0]);
    SecondCall(trace[1], trace[2], results[1]);
    ThirdCall(trace[2], trace[3], results[2]);
    AllLive(trace[3].blocks);
    OnlyRelease(trace[3], trace[4], 32, 4100, FIRST);
    OnlyRelease(trace[4], trace[5], 32, 4288, THIRD);
    TwoFree(trace[5]);
    LastOffersLess(trace[5]);
    UnmatchedRefused(trace[5], 32, 4068, 4);
  }
}
