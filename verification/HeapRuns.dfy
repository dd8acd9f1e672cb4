/** Whole runs of malloc, memalign and free on a freshly initialised heap (so3/mm/heap.c). */
module HeapRuns {
  import opened QuickIndex
  import opened Tiling
  import opened KernelHeap

  datatype Op = Alloc(size: nat, alignment: nat) | Release(addr: int)

  /** What the caller was promised at an address. */
  datatype Grant = Grant(size: nat, alignment: nat)

  /** The payload address of an allocated block. */
  function AddressOf(b: Block, hdr: nat): int {
    HeaderOf(b) + hdr
  }

  /** b can back the grant at addr, and is larger than it has to be by at most a header. */
  ghost predicate Backs(b: Block, addr: int, g: Grant, hdr: nat) {
    AddressOf(b, hdr) == addr && addr + g.size <= End(b, hdr) && g.alignment > 0 && addr % g.alignment == 0 &&
    b.size <= b.padding + g.size + hdr
  }

  /** Grants and allocated blocks correspond one to one; owner says how. */
  ghost predicate Backed(grants: map<int, Grant>, owner: map<int, Block>, live: set<Block>, hdr: nat) {
    owner.Keys == grants.Keys &&
    (forall a :: a in owner ==> owner[a] in live && Backs(owner[a], a, grants[a], hdr)) &&
    (forall b :: b in live ==> AddressOf(b, hdr) in owner && owner[AddressOf(b, hdr)] == b)
  }

  lemma MakeBacks(b: Block, addr: int, g: Grant, hdr: nat)
    requires HeaderOf(b) + hdr == addr && addr + g.size <= End(b, hdr) && g.alignment > 0 && addr % g.alignment == 0
    requires b.size <= b.padding + g.size + hdr
    ensures Backs(b, addr, g, hdr)
  {
  }

  lemma BacksHeader(b: Block, addr: int, g: Grant, hdr: nat)
    requires Backs(b, addr, g, hdr)
    ensures AddressOf(b, hdr) == addr
  {
  }

  lemma BackedAlloc(grants: map<int, Grant>, owner: map<int, Block>, live: set<Block>, hdr: nat, addr: int, g: Grant,
                    b: Block)
    requires Backed(grants, owner, live, hdr) && Backs(b, addr, g, hdr) && addr !in grants
    ensures Backed(grants[addr := g], owner[addr := b], live + {b}, hdr)
  {
    hide Backs;
    BacksHeader(b, addr, g, hdr);
  }

  lemma BackedFree(grants: map<int, Grant>, owner: map<int, Block>, live: set<Block>, hdr: nat, addr: int)
    requires Backed(grants, owner, live, hdr) && addr in grants
    ensures Backed(grants - {addr}, owner - {addr}, live - {owner[addr]}, hdr)
  {
    hide Backs;
    BacksHeader(owner[addr], addr, grants[addr], hdr);
    forall a | a in owner - {addr}
      ensures owner[a] != owner[addr]
    {
      BacksHeader(owner[a], a, grants[a], hdr);
    }
  }

  /** Among the blocks of a tiling, a live header belongs to one block only. */
  lemma LiveHeadersDiffer(mem: Memory, bs: seq<Block>, lo: int, hi: int, hdr: nat, i: nat)
    requires Tiles(bs, lo, hi, hdr) && Described(mem, bs) && hdr > 0 && i < |bs|
    ensures forall x :: x in Live(bs) && x != bs[i] ==> HeaderOf(x) != HeaderOf(bs[i])
  {
    forall x | x in Live(bs) && x != bs[i]
      ensures HeaderOf(x) != HeaderOf(bs[i])
    {
      var k :| 0 <= k < |bs| && bs[k] == x;
      HeadersDiffer(mem, bs, lo, hi, hdr, k, i);
    }
  }

  /** A quick list holding one chunk has one class of one chunk. */
  lemma SingleChunk(mem: Memory, ql: int, ix: Index, a: int)
    requires Linked(mem, ql, ix) && forall x :: In(ix, x) <==> x == a
    ensures ix == [[a]] && ql == a
  {
    assert In(ix, a);
    var c :| 0 <= c < |ix| && a in ix[c];
    SingleClass(mem, ix, c, a);
    if |ix| > 1 {
      var d := if c == 0 then 1 else 0;
      SingleClass(mem, ix, d, a);
      assert a in ix[d];
      OtherClass(ix, c, d);
    } else {
      assert ix == [ix[0]];
    }
  }

  lemma OnlyMember(ix: Index, d: nat, j: nat, a: int)
    requires d < |ix| && j < |ix[d]| && forall x :: In(ix, x) ==> x == a
    ensures ix[d][j] == a
  {
    assert ix[d][j] in ix[d] && In(ix, ix[d][j]);
  }

  lemma SingleClass(mem: Memory, ix: Index, d: nat, a: int)
    requires d < |ix| && ClassLinked(mem, ix[d]) && Distinct(ix) && forall x :: In(ix, x) ==> x == a
    ensures ix[d] == [a]
  {
    OnlyMember(ix, d, 0, a);
    if |ix[d]| > 1 {
      NoDupAt(ix[d], 0, 1);
      OnlyMember(ix, d, 1, a);
    }
  }

  lemma LiveMember(bs: seq<Block>, i: nat)
    requires i < |bs| && !bs[i].free
    ensures bs[i] in Live(bs)
  {
  }

  /** A grant's address leads to an intact allocated header. */
  lemma GrantIsLive(h: Heap, addr: int, grants: map<int, Grant>, owner: map<int, Block>)
    requires h.Valid() && Backed(grants, owner, Live(h.blocks), h.hdr) && addr in grants
    ensures h.LiveAt(addr) && addr - h.hdr in h.mem && h.mem[addr - h.hdr].sig == CHUNK_SIG && addr != NULL
  {
    hide Linked, Sized, Tiles, Backs;
    var b := owner[addr];
    BacksHeader(b, addr, grants[addr], h.hdr);
    var i :| 0 <= i < |h.blocks| && !h.blocks[i].free && h.blocks[i] == b;
    assert BlockAt(h.mem, h.blocks[i]);
    InsideRegion(h.blocks, h.base, h.base + h.heapSize, h.hdr, i);
  }

  /** The address of a new allocation is not one already granted. */
  lemma NewAddress(mem: Memory, bs0: seq<Block>, bs: seq<Block>, lo: int, hi: int, hdr: nat, i: nat, addr: int,
                   grants: map<int, Grant>, owner: map<int, Block>)
    requires Tiles(bs0, lo, hi, hdr) && Tiles(bs, lo, hi, hdr) && Described(mem, bs) && hdr > 0
    requires i < |bs0| && bs0[i].free && i < |bs| && bs[i].start == bs0[i].start && HeaderOf(bs[i]) + hdr == addr
    requires Backed(grants, owner, Live(bs0), hdr) && Live(bs) == Live(bs0) + {bs[i]}
    ensures addr !in grants
  {
    hide Backs;
    if addr in grants {
      var b := owner[addr];
      BacksHeader(b, addr, grants[addr], hdr);
      assert b in Live(bs);
      LiveHeadersDiffer(mem, bs, lo, hi, hdr, i);
      var k :| 0 <= k < |bs0| && bs0[k] == b && !bs0[k].free;
      SameBlock(bs0, lo, hi, hdr, i, k, b.start);
    }
  }

  lemma CarvedStart(bs0: seq<Block>, bs: seq<Block>, i: nat, addr: int, hdr: nat, requested: nat)
    requires Allocates(bs0, bs, i, addr, hdr, requested)
    ensures i < |bs0| && bs0[i].free && i < |bs| && bs[i].start == bs0[i].start
  {
  }

  // ---------------------------------------------------------------- what a step does

  /** The heap at one moment. */
  datatype Snapshot = Snapshot(mem: Memory, quickList: int, index: Index, blocks: seq<Block>)

  ghost function Now(h: Heap): Snapshot
    reads h
  {
    Snapshot(h.mem, h.quickList, h.index, h.blocks)
  }

  /** A valid heap over the region: what Heap.Valid says, of a snapshot. */
  ghost predicate Sound(s: Snapshot, base: int, heapSize: nat, hdr: nat) {
    base > 0 && hdr > 0 && Linked(s.mem, s.quickList, s.index) && Sized(s.mem, s.index) && Indexed(s.index, s.blocks) &&
    Tiles(s.blocks, base, base + heapSize, hdr) && Described(s.mem, s.blocks) && NoAdjacentFree(s.blocks)
  }

  /** The last chunk of class d can serve the request. */
  ghost predicate Serves(s: Snapshot, hdr: nat, d: nat, requested: nat, alignment: nat)
    requires alignment > 0
  {
    d < |s.index| && |s.index[d]| > 0 &&
    var t := s.index[d][|s.index[d]| - 1];
    t in s.mem && t > 0 && Fits(t, s.mem[t].size, hdr, requested, alignment)
  }

  /** Class c is the first that can serve the request, and the payload at addr is carved from its last chunk. */
  ghost predicate Carves(s: Snapshot, s': Snapshot, hdr: nat, requested: nat, alignment: nat, addr: int, c: nat, i: nat)
    requires alignment > 0
  {
    Serves(s, hdr, c, requested, alignment) && (forall d :: 0 <= d < c ==> !Serves(s, hdr, d, requested, alignment)) &&
    Allocates(s.blocks, s'.blocks, i, addr, hdr, requested) && s.blocks[i].start == s.index[c][|s.index[c]| - 1] &&
    addr % alignment == 0 && addr == RoundUp(s.blocks[i].start + hdr, alignment) &&
    Splits(s.blocks, s'.blocks, i, addr - hdr - s.blocks[i].start, hdr, requested) &&
    (|s'.blocks| > |s.blocks| ==> i + 1 < |s'.blocks| && Newest(s'.index, s'.blocks[i + 1].start))
  }

  /** An allocation is refused exactly if no class can serve it, and otherwise comes from the first that can. */
  ghost predicate AllocatesAs(s: Snapshot, s': Snapshot, hdr: nat, size: nat, alignment: nat, result: int) {
    (result == NULL <==> forall d :: !Serves(s, hdr, d, size, Alignment(alignment))) &&
    (result == NULL ==> s'.blocks == s.blocks && s'.index == s.index) &&
    (result != NULL ==> exists c: nat, i: nat :: Carves(s, s', hdr, size, Alignment(alignment), result, c, i))
  }

  /** A release takes away exactly the block behind the address; what it is now part of is next of its size. */
  ghost predicate Releases(s: Snapshot, s': Snapshot, hdr: nat, addr: int) {
    exists b :: b in Live(s.blocks) && AddressOf(b, hdr) == addr && Live(s'.blocks) == Live(s.blocks) - {b} &&
      NextInLine(s', hdr, b)
  }

  /** The bytes of b belong to a free block that malloc looks at first among those of its size. */
  ghost predicate NextInLine(s: Snapshot, hdr: nat, b: Block) {
    exists k :: 0 <= k < |s.blocks| && s.blocks[k].free && s.blocks[k].start <= b.start &&
      End(b, hdr) <= End(s.blocks[k], hdr) && Newest(s.index, s.blocks[k].start)
  }

  /** What op, answered by result, does to a heap that has handed out grants. */
  ghost predicate StepOf(s: Snapshot, grants: map<int, Grant>, op: Op, result: int, s': Snapshot, hdr: nat) {
    match op
    case Alloc(size, alignment) => AllocatesAs(s, s', hdr, size, alignment, result)
    case Release(addr) => result == NULL && if addr in grants then Releases(s, s', hdr, addr) else s' == s
  }

  /** The grants after op. */
  function Next(grants: map<int, Grant>, op: Op, result: int): map<int, Grant> {
    match op
    case Alloc(size, alignment) =>
      if result == NULL then grants else grants[result := Grant(size, Alignment(alignment))]
    case Release(addr) => grants - {addr}
  }

  /** An allocation of a run. */
  method AllocStep(h: Heap, size: nat, alignment: nat, grants: map<int, Grant>, ghost owner: map<int, Block>)
    returns (result: int, grants': map<int, Grant>, ghost owner': map<int, Block>)
    requires h.Valid() && Backed(grants, owner, Live(h.blocks), h.hdr) && (alignment == 0 || PowerOfTwo(alignment))
    modifies h
    ensures h.Valid() && Backed(grants', owner', Live(h.blocks), h.hdr)
    ensures StepOf(old(Now(h)), grants, Alloc(size, alignment), result, Now(h), h.hdr)
    ensures grants' == Next(grants, Alloc(size, alignment), result) && (result != NULL ==> result !in grants)
  {
    hide Linked, Sized, Tiles, Described, NoAdjacentFree, Live, Backs, Allocates, Backed, Fits, Splits;
    grants', owner' := grants, owner;
    ghost var bs, lo, hi := h.blocks, h.base, h.base + h.heapSize;
    ghost var s, al := Now(h), Alignment(alignment);
    assert forall d :: h.TailFits(d, size, al) <==> Serves(s, h.hdr, d, size, al);
    var addr, c, i := h.Malloc(size, alignment);
    result := addr;
    if addr != NULL {
      var g := Grant(size, Alignment(alignment));
      AllocatedPayload(bs, h.blocks, lo, hi, h.hdr, i, addr, size);
      CarvedStart(bs, h.blocks, i, addr, h.hdr, size);
      NewAddress(h.mem, bs, h.blocks, lo, hi, h.hdr, i, addr, grants, owner);
      SplitWaste(bs, h.blocks, i, addr - h.hdr - bs[i].start, h.hdr, size);
      MakeBacks(h.blocks[i], addr, g, h.hdr);
      BackedAlloc(grants, owner, Live(bs), h.hdr, addr, g, h.blocks[i]);
      grants', owner' := grants[addr := g], owner[addr := h.blocks[i]];
      assert Carves(s, Now(h), h.hdr, size, al, addr, c, i);
    }
  }

  /** A release of a run; an address that was never granted is left alone. */
  method ReleaseStep(h: Heap, addr: int, grants: map<int, Grant>, ghost owner: map<int, Block>)
    returns (grants': map<int, Grant>, ghost owner': map<int, Block>)
    requires h.Valid() && Backed(grants, owner, Live(h.blocks), h.hdr)
    modifies h
    ensures h.Valid() && Backed(grants', owner', Live(h.blocks), h.hdr) && grants' == grants - {addr}
    ensures StepOf(old(Now(h)), grants, Release(addr), NULL, Now(h), h.hdr)
  {
    hide Linked, Sized, Tiles, Described, NoAdjacentFree, Live, Backs;
    grants', owner' := grants - {addr}, owner - {addr};
    if addr in grants {
      GrantIsLive(h, addr, grants, owner);
      ghost var bs := h.blocks;
      BacksHeader(owner[addr], addr, grants[addr], h.hdr);
      var panicked, i, k := h.Free(addr, h.mem[addr - h.hdr]);
      LiveMember(bs, i);
      assert AddressOf(bs[i], h.hdr) == addr;
      assert NextInLine(Now(h), h.hdr, bs[i]);
      BackedFree(grants, owner, Live(bs), h.hdr, addr);
    } else {
      assert grants - {addr} == grants && owner - {addr} == owner;
    }
  }

  // ---------------------------------------------------------------- runs

  /** Two grants never share a byte, and each has its own header right before it. */
  ghost predicate GrantsDisjoint(grants: map<int, Grant>, hdr: nat) {
    forall a, b :: a in grants && b in grants && a != b ==>
      a + grants[a].size <= b - hdr || b + grants[b].size <= a - hdr
  }

  /** Every grant has its block, and every other block, free or not, lies apart from its header and its bytes. */
  ghost predicate GrantsApart(grants: map<int, Grant>, bs: seq<Block>, hdr: nat) {
    (forall a :: a in grants ==> exists j :: 0 <= j < |bs| && !bs[j].free && Backs(bs[j], a, grants[a], hdr)) &&
    (forall a, j :: a in grants && 0 <= j < |bs| ==> BlockApart(bs[j], a, grants[a], hdr))
  }

  ghost predicate BlockApart(b: Block, a: int, g: Grant, hdr: nat) {
    (!b.free && Backs(b, a, g, hdr)) || End(b, hdr) <= a - hdr || a + g.size <= b.start
  }

  lemma BackedApart(mem: Memory, bs: seq<Block>, lo: int, hi: int, hdr: nat, grants: map<int, Grant>,
                    owner: map<int, Block>)
    requires Tiles(bs, lo, hi, hdr) && Described(mem, bs) && Backed(grants, owner, Live(bs), hdr)
    ensures GrantsApart(grants, bs, hdr)
  {
    hide Tiles, Described, Backed, Backs;
    forall a | a in grants
      ensures exists j :: 0 <= j < |bs| && !bs[j].free && Backs(bs[j], a, grants[a], hdr)
    {
      var i := BlockOf(mem, bs, lo, hi, hdr, grants, owner, a);
    }
    forall a, j | a in grants && 0 <= j < |bs|
      ensures BlockApart(bs[j], a, grants[a], hdr)
    {
      var i := BlockOf(mem, bs, lo, hi, hdr, grants, owner, a);
      if i != j {
        DisjointBlocks(bs, lo, hi, hdr, i, j);
      }
    }
  }

  lemma BackedDisjoint(mem: Memory, bs: seq<Block>, lo: int, hi: int, hdr: nat, grants: map<int, Grant>,
                       owner: map<int, Block>)
    requires Tiles(bs, lo, hi, hdr) && Described(mem, bs) && Backed(grants, owner, Live(bs), hdr)
    ensures GrantsDisjoint(grants, hdr)
    ensures forall a :: a in grants ==>
      lo + hdr <= a && a + grants[a].size <= hi && grants[a].alignment > 0 && a % grants[a].alignment == 0
  {
    hide Tiles, Described, Backed, Backs;
    forall a | a in grants
      ensures lo + hdr <= a && a + grants[a].size <= hi && grants[a].alignment > 0 && a % grants[a].alignment == 0
    {
      var i := BlockOf(mem, bs, lo, hi, hdr, grants, owner, a);
      InsideRegion(bs, lo, hi, hdr, i);
    }
    forall a, b | a in grants && b in grants && a != b
      ensures a + grants[a].size <= b - hdr || b + grants[b].size <= a - hdr
    {
      var i := BlockOf(mem, bs, lo, hi, hdr, grants, owner, a);
      var j := BlockOf(mem, bs, lo, hi, hdr, grants, owner, b);
      DisjointBlocks(bs, lo, hi, hdr, i, j);
    }
  }

  lemma BlockOf(mem: Memory, bs: seq<Block>, lo: int, hi: int, hdr: nat, grants: map<int, Grant>,
                owner: map<int, Block>, a: int)
    returns (i: nat)
    requires Tiles(bs, lo, hi, hdr) && Described(mem, bs) && Backed(grants, owner, Live(bs), hdr) && a in grants
    ensures i < |bs| && HeaderOf(bs[i]) + hdr == a && bs[i].start <= a - hdr && a + grants[a].size <= End(bs[i], hdr)
    ensures !bs[i].free && Backs(bs[i], a, grants[a], hdr)
    ensures grants[a].alignment > 0 && a % grants[a].alignment == 0
  {
    var b := owner[a];
    i :| 0 <= i < |bs| && !bs[i].free && bs[i] == b;
  }

  lemma NoLive(bs: seq<Block>)
    requires Live(bs) == {}
    ensures forall i :: 0 <= i < |bs| ==> bs[i].free
  {
    hide Live;
    forall i | 0 <= i < |bs|
      ensures bs[i].free
    {
      if !bs[i].free {
        LiveMember(bs, i);
      }
    }
  }

  /** With every grant released, the quick list is a single chunk over the whole region again. */
  lemma AllReleased(h: Heap, grants: map<int, Grant>, owner: map<int, Block>)
    requires h.Valid() && Backed(grants, owner, Live(h.blocks), h.hdr) && grants == map[] && h.hdr <= h.heapSize
    ensures h.blocks == [Block(h.base, h.heapSize - h.hdr, true, 0)]
    ensures h.index == [[h.base]] && h.quickList == h.base && h.base in h.mem &&
      h.mem[h.base].size == h.heapSize - h.hdr
  {
    hide Linked, Sized, Tiles, NoAdjacentFree;
    NoLive(h.blocks);
    AllFree(h.blocks, h.base, h.base + h.heapSize, h.hdr);
    assert BlockAt(h.mem, h.blocks[0]);
    forall x
      ensures In(h.index, x) <==> x == h.base
    {
      assert FreeAt(h.blocks, x) <==> x == h.base;
    }
    SingleChunk(h.mem, h.quickList, h.index, h.base);
  }

  /** What has been handed out and not taken back, from the calls and their answers. */
  function Outstanding(ops: seq<Op>, results: seq<int>): map<int, Grant>
    requires |results| == |ops|
  {
    if ops == [] then map[]
    else
      var n := |ops| - 1;
      Next(Outstanding(ops[..n], results[..n]), ops[n], results[n])
  }

  lemma OutstandingMore(ops: seq<Op>, results: seq<int>, i: nat, result: int)
    requires i < |ops| && |results| == i
    ensures Outstanding(ops[..i + 1], results + [result]) == Next(Outstanding(ops[..i], results), ops[i], result)
  {
    assert ops[..i + 1][..i] == ops[..i] && (results + [result])[..i] == results;
  }

  /** trace holds the heap before each call and at the end; every call did what its operation promises. */
  ghost predicate Follows(trace: seq<Snapshot>, ops: seq<Op>, results: seq<int>, base: int, heapSize: nat, hdr: nat) {
    |results| == |ops| && |trace| == |ops| + 1 && 0 < hdr <= heapSize &&
    trace[0].blocks == [Block(base, heapSize - hdr, true, 0)] &&
    (forall i :: 0 <= i < |trace| ==> Sound(trace[i], base, heapSize, hdr) && ApartAt(trace, ops, results, hdr, i)) &&
    (forall i :: 0 <= i < |ops| ==> FollowsAt(trace, ops, results, hdr, i))
  }

  ghost predicate ApartAt(trace: seq<Snapshot>, ops: seq<Op>, results: seq<int>, hdr: nat, i: nat)
    requires |results| == |ops| && |trace| == |ops| + 1 && i <= |ops|
  {
    GrantsApart(Outstanding(ops[..i], results[..i]), trace[i].blocks, hdr)
  }

  ghost predicate FollowsAt(trace: seq<Snapshot>, ops: seq<Op>, results: seq<int>, hdr: nat, i: nat)
    requires |results| == |ops| && |trace| == |ops| + 1 && i < |ops|
  {
    StepOf(trace[i], Outstanding(ops[..i], results[..i]), ops[i], results[i], trace[i + 1], hdr)
  }

  lemma FollowsMore(trace: seq<Snapshot>, ops: seq<Op>, results: seq<int>, base: int, heapSize: nat, hdr: nat,
                    op: Op, result: int, s: Snapshot)
    requires Follows(trace, ops, results, base, heapSize, hdr) && Sound(s, base, heapSize, hdr)
    requires StepOf(trace[|ops|], Outstanding(ops, results), op, result, s, hdr)
    requires GrantsApart(Outstanding(ops + [op], results + [result]), s.blocks, hdr)
    ensures Follows(trace + [s], ops + [op], results + [result], base, heapSize, hdr)
  {
    hide Sound, StepOf, Outstanding, GrantsApart;
    var t, o, r := trace + [s], ops + [op], results + [result];
    forall i | 0 <= i < |t|
      ensures ApartAt(t, o, r, hdr, i)
    {
      if i <= |ops| {
        assert ApartAt(trace, ops, results, hdr, i);
        assert o[..i] == ops[..i] && r[..i] == results[..i];
      } else {
        assert o[..i] == o && r[..i] == r;
      }
    }
    forall i | 0 <= i < |o|
      ensures FollowsAt(t, o, r, hdr, i)
    {
      if i < |ops| {
        assert FollowsAt(trace, ops, results, hdr, i);
        assert o[..i] == ops[..i] && r[..i] == results[..i];
      } else {
        assert o[..i] == ops && r[..i] == results;
      }
    }
  }

  lemma NowSound(h: Heap)
    requires h.Valid()
    ensures Sound(Now(h), h.base, h.heapSize, h.hdr)
  {
  }

  /**
   Every run from heap_init: the answers follow the calls, the region stays tiled, grants stay apart, and
   releasing all of them restores the start.
   */
  method Run(base: int, heapSize: nat, hdr: nat, ops: seq<Op>)
    returns (h: Heap, results: seq<int>, grants: map<int, Grant>, ghost trace: seq<Snapshot>)
    requires base > 0 && 0 < hdr <= heapSize
    requires forall i :: 0 <= i < |ops| && ops[i].Alloc? ==> ops[i].alignment == 0 || PowerOfTwo(ops[i].alignment)
    ensures Follows(trace, ops, results, base, heapSize, hdr) && trace[|ops|] == Now(h)
    ensures grants == Outstanding(ops, results)
    ensures h.Valid() && h.base == base && h.heapSize == heapSize && h.hdr == hdr
    ensures TotalBytes(h.blocks, hdr) == heapSize
    ensures GrantsDisjoint(grants, hdr) && GrantsApart(grants, h.blocks, hdr)
    ensures forall a :: a in grants ==>
      base + hdr <= a && a + grants[a].size <= base + heapSize && grants[a].alignment > 0 &&
      a % grants[a].alignment == 0
    ensures grants == map[] ==> h.index == [[base]] && h.blocks == [Block(base, heapSize - hdr, true, 0)]
  {
    hide Linked, Sized, Tiles, Described, NoAdjacentFree, Backed, GrantsDisjoint, GrantsApart, Follows, StepOf,
         Outstanding, Sound, Next;
    h := new Heap(base, heapSize, hdr);
    grants, results := map[], [];
    ghost var owner := map[];
    EmptyBacked(h.blocks, hdr);
    trace := [Now(h)];
    NowSound(h);
    RunStarts(trace, ops, base, heapSize, hdr);
    for i := 0 to |ops|
      invariant fresh(h) && h.Valid() && h.base == base && h.heapSize == heapSize && h.hdr == hdr
      invariant Backed(grants, owner, Live(h.blocks), hdr)
      invariant |results| == i && |trace| == i + 1 && trace[i] == Now(h) &&
        Follows(trace, ops[..i], results, base, heapSize, hdr)
      invariant grants == Outstanding(ops[..i], results)
    {
      var result := NULL;
      ghost var g := grants;
      match ops[i] {
        case Alloc(size, alignment) => result, grants, owner := AllocStep(h, size, alignment, grants, owner);
        case Release(addr) => grants, owner := ReleaseStep(h, addr, grants, owner);
      }
      NextRelease(g, ops[i]);
      NowSound(h);
      OutstandingMore(ops, results, i, result);
      assert ops[..i] + [ops[i]] == ops[..i + 1];
      BackedApart(h.mem, h.blocks, base, base + heapSize, hdr, grants, owner);
      FollowsMore(trace, ops[..i], results, base, heapSize, hdr, ops[i], result, Now(h));
      results, trace := results + [result], trace + [Now(h)];
    }
    assert ops[..|ops|] == ops;
    Conservation(h.blocks, base, base + heapSize, hdr);
    BackedDisjoint(h.mem, h.blocks, base, base + heapSize, hdr, grants, owner);
    BackedApart(h.mem, h.blocks, base, base + heapSize, hdr, grants, owner);
    if grants == map[] {
      AllReleased(h, grants, owner);
    }
  }

  lemma RunStarts(trace: seq<Snapshot>, ops: seq<Op>, base: int, heapSize: nat, hdr: nat)
    requires |trace| == 1 && Sound(trace[0], base, heapSize, hdr) && 0 < hdr <= heapSize
    requires trace[0].blocks == [Block(base, heapSize - hdr, true, 0)]
    ensures Follows(trace, ops[..0], [], base, heapSize, hdr) && Outstanding(ops[..0], []) == map[]
  {
  }

  lemma NextRelease(grants: map<int, Grant>, op: Op)
    ensures op.Release? ==> Next(grants, op, NULL) == grants - {op.addr}
  {
  }

  lemma EmptyBacked(bs: seq<Block>, hdr: nat)
    requires |bs| == 1 && bs[0].free
    ensures Backed(map[], map[], Live(bs), hdr)
  {
  }
}
