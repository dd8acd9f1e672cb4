/** The kernel heap (so3/mm/heap.c): quick-fit allocation with splitting, alignment padding and coalescing. */
module KernelHeap {
  import opened QuickIndex
  import opened Tiling

  class Heap {
    const base: int
    const heapSize: nat
    const hdr: nat          // sizeof(mem_chunk_t)
    var quickList: int
    var mem: Memory
    ghost var index: Index  // what the quick list spells out
    ghost var blocks: seq<Block>  // what the region consists of

    /** The quick list is well linked and sorted, the blocks tile the region, and the two agree. */
    ghost predicate Consistent()
      reads this
    {
      base > 0 && hdr > 0 &&
      Linked(mem, quickList, index) && Sized(mem, index) && Indexed(index, blocks) &&
      Tiles(blocks, base, base + heapSize, hdr) && Described(mem, blocks)
    }

    /** What every operation keeps: consistent, and no two free blocks side by side. */
    ghost predicate Valid()
      reads this
    {
      Consistent() && NoAdjacentFree(blocks)
    }

    /** heap_init: one free chunk covers the region. */
    constructor (base: int, heapSize: nat, hdr: nat)
      requires base > 0 && 0 < hdr <= heapSize
      ensures this.base == base && this.heapSize == heapSize && this.hdr == hdr
      ensures Valid() && blocks == [Block(base, heapSize - hdr, true, 0)]
    {
      this.base, this.heapSize, this.hdr := base, heapSize, hdr;
      quickList := base;
      mem := map[base := Header(0, NULL, NULL, base, heapSize - hdr, 0, 0)];
      index := [[base]];
      blocks := [Block(base, heapSize - hdr, true, 0)];
      new;
      assert blocks[0].free && blocks[0].start == base;
      assert index[0][0] == base;
    }

    // -------------------------------------------------------------- the quick list

    /** Points every chunk of the class starting at head at that head. */
    method RetargetHeads(head: int, ghost k: Class, ghost mem0: Memory)
      requires ClassLinked(mem0, k) && NoDup(k) && |k| > 1 && head == k[1]
      requires mem.Keys == mem0.Keys && forall i :: 1 <= i < |k| ==> mem[k[i]].nextChunk == mem0[k[i]].nextChunk
      modifies this`mem
      ensures mem.Keys == old(mem).Keys
      ensures forall x :: x in mem && x !in k[1..] ==> mem[x] == old(mem[x])
      ensures forall i :: 1 <= i < |k| ==> mem[k[i]] == old(mem[k[i]]).(head := head)
    {
      ghost var before := mem;
      ghost var i := 1;
      var chunk := head;
      while chunk != NULL
        invariant 1 <= i <= |k| && chunk == At(k, i)
        invariant mem.Keys == before.Keys
        invariant forall x :: x in mem && x !in k[1..] ==> mem[x] == before[x]
        invariant forall n :: 1 <= n < |k| ==> mem[k[n]] == if n < i then before[k[n]].(head := head) else before[k[n]]
        decreases |k| - i
      {
        assert k[i] in k[1..];
        mem := mem[chunk := mem[chunk].(head := head)];
        chunk := mem[chunk].nextChunk;
        i := i + 1;
      }
    }

    /** The head whose next_list is chunk, found by walking the classes from the first. */
    method HeadBefore(chunk: int, ghost c: nat) returns (head: int)
      requires Linked(mem, quickList, index) && 0 < c < |index| && chunk == HeadOf(index, c)
      ensures head == HeadOf(index, c - 1) && head in mem
    {
      head := quickList;
      ghost var d := 0;
      while mem[head].nextList != chunk
        invariant 0 <= d < c && head == HeadOf(index, d) && head in mem
        decreases c - d
      {
        assert mem[HeadOf(index, d)].nextList == HeadOf(index, d + 1);
        d := d + 1;
        head := mem[head].nextList;
      }
      assert ClassLinked(mem, index[c]) && ClassLinked(mem, index[d]);
      if d + 1 != c {
        assert ClassLinked(mem, index[d + 1]);
        HeadsDiffer(mem, index, c, d + 1);
      }
    }

    /** Makes whatever leads to class c lead to target instead. */
    method LinkPast(chunk: int, target: int, ghost c: nat)
      requires Linked(mem, quickList, index) && c < |index| && chunk == HeadOf(index, c)
      modifies this`mem, this`quickList
      ensures Relinked(old(mem), mem, index, c, target)
      ensures forall x :: x in index[c] ==> x in mem && mem[x] == old(mem[x])
      ensures quickList == if c == 0 then target else old(quickList)
    {
      hide NoDup, Apart;
      assert ClassLinked(mem, index[c]);
      if chunk == quickList {
        FirstHead(mem, quickList, index, c);
        quickList := target;
      } else {
        var head := HeadBefore(chunk, c);
        assert ClassLinked(mem, index[c - 1]);
        HeadsDiffer(mem, index, c, c - 1);
        mem := mem[head := mem[head].(nextList := target)];
      }
    }

    /** Unlinks the only chunk of its class. */
    method RemoveOnlyChunk(chunk: int, ghost c: nat)
      requires Linked(mem, quickList, index) && c < |index| && chunk == HeadOf(index, c) && |index[c]| == 1
      modifies this`mem, this`quickList, this`index
      ensures Linked(mem, quickList, index) && index == Removed(old(index), c, 0)
      ensures SameData(old(mem), mem) && forall x :: x in mem && !In(old(index), x) ==> mem[x] == old(mem[x])
    {
      hide NoDup, Apart, ClassLinked;
      ghost var ix, mem0, ql := index, mem, quickList;
      assert mem[HeadOf(ix, c)].nextList == HeadOf(ix, c + 1);
      LinkPast(chunk, mem[chunk].nextList, c);
      ghost var mid := mem;
      mem := mem[chunk := Reset(mem[chunk])];
      RelinkedStays(mem0, mid, mem, ql, ix, c, HeadOf(ix, c + 1));
      RelinkedData(mem0, mem, ql, ix, c, HeadOf(ix, c + 1));
      index := Removed(ix, c, 0);
      RemoveOnly(mem0, ql, ix, c, mem, quickList);
    }

    /** Unlinks the head of a class that has more chunks. */
    method RemoveFirstChunk(chunk: int, ghost c: nat)
      requires Linked(mem, quickList, index) && c < |index| && chunk == HeadOf(index, c) && |index[c]| > 1
      modifies this`mem, this`quickList, this`index
      ensures Linked(mem, quickList, index) && index == Removed(old(index), c, 0)
      ensures SameData(old(mem), mem) && forall x :: x in mem && !In(old(index), x) ==> mem[x] == old(mem[x])
    {
      hide NoDup, Apart, ClassLinked, Chained, Distinct, Linked, Relinked, In, SameData;
      ghost var ix, mem0, ql, k := index, mem, quickList, index[c];
      HeadAndRest(mem, quickList, ix, c);
      var next := mem[chunk].nextChunk;
      LinkPast(chunk, next, c);
      ghost var mid := mem;
      RelinkedKeys(mem0, mid, ix, c, next);
      mem := mem[next := mem[next].(nextList := mem[chunk].nextList)];
      ghost var mem1 := mem;
      RetargetHeads(next, k, mem0);
      ghost var mem2 := mem;
      mem := mem[chunk := Reset(mem[chunk])];
      NewFirst(mem0, mid, mem1, mem2, mem, k);
      RelinkedStays(mem0, mid, mem, ql, ix, c, next);
      RelinkedData(mem0, mem, ql, ix, c, next);
      index := Removed(ix, c, 0);
      RemoveFirst(mem0, ql, ix, c, mem, quickList);
    }

    /** The chunk whose next_chunk is chunk, found by walking the class from its head. */
    method ChunkBefore(chunk: int, ghost c: nat, ghost j: nat) returns (p: int)
      requires Linked(mem, quickList, index) && c < |index| && 0 < j < |index[c]| && chunk == index[c][j] &&
        chunk in mem
      ensures p == index[c][j - 1] && p in mem
    {
      ghost var k := index[c];
      assert ClassLinked(mem, k) && NoDup(k);
      p := mem[chunk].head;
      ghost var i := 0;
      while mem[p].nextChunk != chunk
        invariant 0 <= i < j && p == k[i]
        decreases j - i
      {
        assert mem[k[i]].nextChunk == At(k, i + 1);
        p := mem[p].nextChunk;
        i := i + 1;
      }
      assert k[i + 1] == k[j];
    }

    /** Unlinks a chunk from inside its class. */
    method RemoveInnerChunk(chunk: int, ghost c: nat, ghost j: nat)
      requires Linked(mem, quickList, index) && c < |index| && 0 < j < |index[c]| && chunk == index[c][j] &&
        chunk in mem
      modifies this`mem, this`index
      ensures Linked(mem, quickList, index) && index == Removed(old(index), c, j)
      ensures SameData(old(mem), mem) && forall x :: x in mem && !In(old(index), x) ==> mem[x] == old(mem[x])
    {
      hide NoDup, Apart, ClassLinked, Chained;
      ghost var ix, mem0 := index, mem;
      var p := ChunkBefore(chunk, c, j);
      assert p in ix[c] && chunk in ix[c] && In(ix, p) && In(ix, chunk);
      assert p != chunk by { assert NoDup(ix[c]); NoDupAt(ix[c], j - 1, j); }
      mem := mem[p := mem[p].(nextChunk := mem[chunk].nextChunk)];
      mem := mem[chunk := Reset(mem[chunk])];
      index := Removed(ix, c, j);
      RemoveInner(mem0, quickList, ix, c, j, mem);
    }

    /** The first class whose chunks have at least the given size, and the head before it. */
    method FindClass(size: nat) returns (list: int, last: int, ghost d: nat)
      requires Linked(mem, quickList, index) && Sized(mem, index)
      ensures d <= |index| && list == HeadOf(index, d) && (d > 0 ==> last == HeadOf(index, d - 1))
      ensures forall e :: 0 <= e < d ==> SizeOf(mem, index[e]) < size
      ensures d < |index| ==> list in mem && list > 0 && mem[list].size == SizeOf(mem, index[d]) >= size
      ensures list == NULL <==> d == |index|
    {
      hide NoDup, Apart, ClassLinked, Chained, Distinct, ClassSized;
      list, last, d := quickList, NULL, 0;
      HeadFacts(mem, quickList, index, d);
      while list != NULL && mem[list].size < size
        invariant 0 <= d <= |index| && list == HeadOf(index, d) && (d > 0 ==> last == HeadOf(index, d - 1))
        invariant forall e :: 0 <= e < d ==> SizeOf(mem, index[e]) < size
        invariant d < |index| ==> list in mem && list > 0 && mem[list].nextList == HeadOf(index, d + 1)
        decreases |index| - d
      {
        last := list;
        list := mem[list].nextList;
        d := d + 1;
        HeadFacts(mem, quickList, index, d);
      }
    }

    /** The last chunk of the class that starts at head. */
    method TailOf(head: int, ghost d: nat) returns (t: int)
      requires Linked(mem, quickList, index) && d < |index| && head == HeadOf(index, d)
      ensures |index[d]| > 0 && t == index[d][|index[d]| - 1] && t in mem && t > 0 && mem[t].head == head
    {
      ghost var k := index[d];
      assert ClassLinked(mem, k);
      t := head;
      ghost var i := 0;
      while mem[t].nextChunk != NULL
        invariant 0 <= i < |k| && t == k[i]
        decreases |k| - i
      {
        assert mem[k[i]].nextChunk == At(k, i + 1);
        t := mem[t].nextChunk;
        i := i + 1;
      }
      assert mem[k[i]].nextChunk == At(k, i + 1);
    }

    /** Links chunk behind the last chunk of class d, which has its size. */
    method AppendToClass(chunk: int, list: int, ghost d: nat)
      requires Linked(mem, quickList, index) && d < |index| && list == HeadOf(index, d)
      requires chunk > 0 && chunk in mem && !In(index, chunk) && mem[chunk].nextChunk == NULL
      modifies this`mem, this`index
      ensures Linked(mem, quickList, index) && index == Appended(old(index), d, chunk)
      ensures SameData(old(mem), mem)
      ensures forall x :: x in mem && !In(old(index), x) && x != chunk ==> mem[x] == old(mem[x])
    {
      hide NoDup, Apart, ClassLinked, Chained, Distinct;
      ghost var ix, mem0 := index, mem;
      HeadFacts(mem, quickList, index, d);
      var tail := TailOf(list, d);
      assert tail in ix[d] && In(ix, tail);
      mem := mem[tail := mem[tail].(nextChunk := chunk)];
      mem := mem[chunk := mem[chunk].(head := list)];
      index := Appended(ix, d, chunk);
      AppendLinked(mem0, quickList, ix, d, chunk, mem);
    }

    /** Links chunk as a class of its own before class d. */
    method InsertAsClass(chunk: int, list: int, last: int, ghost d: nat)
      requires Linked(mem, quickList, index) && d <= |index| && list == HeadOf(index, d)
      requires d > 0 ==> last == HeadOf(index, d - 1)
      requires chunk > 0 && chunk in mem && !In(index, chunk) && mem[chunk].nextChunk == NULL &&
        mem[chunk].nextList == NULL
      modifies this`mem, this`index, this`quickList
      ensures Linked(mem, quickList, index) && index == Inserted(old(index), d, chunk)
      ensures SameData(old(mem), mem)
      ensures forall x :: x in mem && !In(old(index), x) && x != chunk ==> mem[x] == old(mem[x])
    {
      hide NoDup, Apart, ClassLinked, Chained, Distinct;
      ghost var ix, mem0, ql := index, mem, quickList;
      HeadFacts(mem, quickList, index, d);
      HeadFacts(mem, quickList, index, 0);
      if d > 0 {
        HeadFacts(mem, quickList, index, d - 1);
        assert ix[d - 1][0] in ix[d - 1] && In(ix, ix[d - 1][0]);
      }
      if list == quickList {
        if d != 0 {
          FirstHead(mem, quickList, index, d);
        }
        quickList := chunk;
      } else {
        var p := last;
        if list != NULL {
          p := HeadBefore(list, d);
        }
        mem := mem[p := mem[p].(nextList := chunk)];
      }
      mem := mem[chunk := mem[chunk].(nextList := list, head := chunk)];
      index := Inserted(ix, d, chunk);
      InsertLinked(mem0, ql, ix, d, chunk, mem, quickList);
    }

    /** Clears the links of a chunk that is not in the quick list. */
    method ResetChunk(chunk: int)
      requires Linked(mem, quickList, index) && Sized(mem, index) && chunk in mem && !In(index, chunk)
      modifies this`mem
      ensures Linked(mem, quickList, index) && Sized(mem, index) && mem == old(mem)[chunk := Reset(old(mem)[chunk])]
    {
      hide ClassLinked, Chained, Distinct, ClassSized, Sized;
      ghost var mem0 := mem;
      mem := mem[chunk := Reset(mem[chunk])];
      MembersInMemory(mem0, quickList, index);
      LinkedOutside(mem0, mem, quickList, index);
      SizedFrame(mem0, mem, index);
    }

    /** Puts a chunk into the quick list where its size belongs. */
    method AppendChunk(chunk: int)
      requires Linked(mem, quickList, index) && Sized(mem, index)
      requires chunk > 0 && chunk in mem && !In(index, chunk)
      modifies this`mem, this`index, this`quickList
      ensures Linked(mem, quickList, index) && Sized(mem, index)
      ensures forall x :: In(index, x) <==> In(old(index), x) || x == chunk
      ensures Newest(index, chunk)
      ensures SameData(old(mem), mem)
      ensures forall x :: x in mem && !In(old(index), x) && x != chunk ==> mem[x] == old(mem[x])
    {
      hide NoDup, Apart, ClassLinked, Chained, ClassSized, Newest;
      ghost var ix := index;
      ResetChunk(chunk);
      ghost var mem1 := mem;
      var list, last, d := FindClass(mem[chunk].size);
      if list != NULL && mem[list].size == mem[chunk].size {
        AppendedDistinct(ix, d, chunk);
        AppendedNewest(ix, d, chunk);
        AppendedSized(mem1, ix, d, chunk);
        AppendToClass(chunk, list, d);
      } else {
        LargerFrom(mem1, ix, d, mem[chunk].size);
        InsertedDistinct(ix, d, chunk);
        InsertedNewest(ix, d, chunk);
        InsertedSized(mem1, ix, d, chunk);
        InsertAsClass(chunk, list, last, d);
      }
      SizedData(mem1, mem, index);
      SameDataTrans(old(mem), mem1, mem);
    }

    /** Takes a chunk out of the quick list; sizes are neither read nor changed. */
    method RemoveChunk(chunk: int) returns (ghost c: nat, ghost j: nat)
      requires Linked(mem, quickList, index) && In(index, chunk)
      modifies this`mem, this`quickList, this`index
      ensures Linked(mem, quickList, index)
      ensures c < |old(index)| && j < |old(index)[c]| && old(index)[c][j] == chunk && index == Removed(old(index), c, j)
      ensures SameData(old(mem), mem) && forall x :: x in mem && !In(old(index), x) ==> mem[x] == old(mem[x])
    {
      hide NoDup, Apart;
      c :| 0 <= c < |index| && chunk in index[c];
      j :| 0 <= j < |index[c]| && index[c][j] == chunk;
      assert ClassLinked(mem, index[c]);
      ClassStart(mem, index, c, j);
      if mem[chunk].head == chunk {
        if mem[chunk].nextChunk == NULL {
          RemoveOnlyChunk(chunk, c);
        } else {
          RemoveFirstChunk(chunk, c);
        }
      } else {
        RemoveInnerChunk(chunk, c, j);
      }
    }

    // -------------------------------------------------------------- malloc and memalign

    /** Records the requested size in a chunk that is still free. */
    method SetReqSize(a: int, requested: nat)
      requires Consistent() && In(index, a) && a in mem
      modifies this`mem
      ensures Consistent() && mem == old(mem)[a := old(mem)[a].(reqSize := requested)]
    {
      hide Linked, Sized, Tiles, Described;
      ghost var mem0 := mem;
      mem := mem[a := mem[a].(reqSize := requested)];
      LinkedByLinks(mem0, mem, quickList, index);
      MembersInMemory(mem0, quickList, index);
      SizedFrame(mem0, mem, index);
      FreeHeaderChange(mem0, mem, blocks, base, base + heapSize, hdr, a);
    }

    /** The last chunk of class d can serve the request. */
    ghost predicate TailFits(d: nat, requested: nat, alignment: nat)
      requires alignment > 0
      reads this
    {
      d < |index| && |index[d]| > 0 &&
      var t := index[d][|index[d]| - 1];
      t in mem && t > 0 && Fits(t, mem[t].size, hdr, requested, alignment)
    }

    /** One class of the search: whether its last chunk fits, and the class after it. */
    method TryClass(head: int, requested: nat, alignment: nat, ghost c: nat) returns (t: int, ok: bool, next: int)
      requires Consistent() && alignment > 0 && c < |index| && head == HeadOf(index, c)
      modifies this`mem
      ensures Consistent() && OnlyReqSize(old(mem), mem, index) && next == HeadOf(index, c + 1)
      ensures forall d :: TailFits(d, requested, alignment) == old(TailFits(d, requested, alignment))
      ensures ok <==> TailFits(c, requested, alignment)
      ensures ok ==> t == index[c][|index[c]| - 1] && mem[t].reqSize == requested
    {
      hide Sized, Tiles, Described, ClassLinked, Chained, Distinct, RoundUp;
      HeadFacts(mem, quickList, index, c);
      t, ok, next := NULL, false, mem[head].nextList;
      if mem[head].size < requested {
        SmallClass(mem, index, c, hdr, requested, alignment);
      } else {
        t := TailOf(head, c);
        assert t in index[c] && In(index, t);
        SetReqSize(t, requested);
        HeadFacts(mem, quickList, index, c);
        var addr: nat := t + hdr;
        if RoundUp(addr, alignment) - addr + requested > mem[t].size {
          next := mem[mem[t].head].nextList;
        } else {
          ok := true;
        }
      }
    }

    /** The last chunk of the first class whose last chunk fits request and padding; NULL if there is none. */
    method FindVictim(requested: nat, alignment: nat) returns (victim: int, ghost c: nat)
      requires Consistent() && alignment > 0
      modifies this`mem
      ensures Consistent() && OnlyReqSize(old(mem), mem, index)
      ensures forall d :: TailFits(d, requested, alignment) == old(TailFits(d, requested, alignment))
      ensures forall d :: 0 <= d < c ==> !TailFits(d, requested, alignment)
      ensures victim == NULL ==> c == |index|
      ensures victim != NULL ==>
        c < |index| && TailFits(c, requested, alignment) && victim == index[c][|index[c]| - 1] &&
        mem[victim].reqSize == requested
    {
      hide Sized, Tiles, Described, ClassLinked, Chained, Distinct, Fits;
      victim, c := quickList, 0;
      HeadFacts(mem, quickList, index, 0);
      while victim != NULL
        invariant Consistent() && OnlyReqSize(old(mem), mem, index)
        invariant c <= |index| && victim == HeadOf(index, c) && (victim == NULL <==> c == |index|)
        invariant forall d :: TailFits(d, requested, alignment) == old(TailFits(d, requested, alignment))
        invariant forall d :: 0 <= d < c ==> !TailFits(d, requested, alignment)
        decreases |index| - c
      {
        var t, ok, next := TryClass(victim, requested, alignment, c);
        if ok {
          return t, c;
        }
        victim, c := next, c + 1;
        HeadFacts(mem, quickList, index, c);
      }
    }

    /** Takes the victim out of the quick list and marks it allocated. */
    method TakeVictim(victim: int, padding: nat)
      requires Linked(mem, quickList, index) && Sized(mem, index) && In(index, victim) && victim in mem
      modifies this`mem, this`quickList, this`index
      ensures Linked(mem, quickList, index) && Sized(mem, index) && mem.Keys == old(mem).Keys
      ensures forall x :: In(index, x) <==> In(old(index), x) && x != victim
      ensures forall x :: x in mem && x != victim ==> SameFields(old(mem)[x], mem[x])
      ensures forall x :: x in mem && !In(old(index), x) ==> mem[x] == old(mem)[x]
      ensures mem[victim].sig == CHUNK_SIG && mem[victim].padding == padding
      ensures mem[victim].size == old(mem)[victim].size && mem[victim].reqSize == old(mem)[victim].reqSize
    {
      hide Sized, ClassLinked, Chained;
      ghost var mem0, ix := mem, index;
      mem := mem[victim := mem[victim].(padding := padding)];
      ghost var mem1 := mem;
      LinkedByLinks(mem0, mem, quickList, index);
      MembersInMemory(mem0, quickList, index);
      SizedFrame(mem0, mem, index);
      var c, j := RemoveChunk(victim);
      RemovedMembers(ix, c, j);
      RemovedSized(mem1, ix, c, j);
      SizedData(mem1, mem, index);
      ghost var mem2 := mem;
      MembersInMemory(mem2, quickList, index);
      mem := mem[victim := mem[victim].(sig := CHUNK_SIG)];
      LinkedOutside(mem2, mem, quickList, index);
      SizedFrame(mem2, mem, index);
    }

    /**
     Makes the rest of an allocated chunk, beyond keep bytes, a free chunk at r; what the rest's header held
     before is g.
     */
    method SplitOff(victim: int, keep: nat, r: int, g: Header)
      requires Linked(mem, quickList, index) && Sized(mem, index) && victim in mem && mem[victim].size > keep + hdr
      requires r > 0 && r != victim && !In(index, victim) && !In(index, r)
      modifies this`mem, this`quickList, this`index
      ensures Linked(mem, quickList, index) && Sized(mem, index) && mem.Keys == old(mem).Keys + {r}
      ensures Newest(index, r) && forall x :: In(index, x) <==> In(old(index), x) || x == r
      ensures forall x :: x in old(mem) && x != victim && x != r ==> SameFields(old(mem)[x], mem[x])
      ensures forall x :: x in old(mem) && x != victim && x != r && !In(old(index), x) ==> mem[x] == old(mem)[x]
      ensures mem[victim] == old(mem)[victim].(size := keep)
      ensures mem[r].size == old(mem)[victim].size - keep - hdr && mem[r].padding == 0
    {
      hide Sized, ClassLinked, Chained;
      ghost var mem0 := mem;
      MembersInMemory(mem0, quickList, index);
      mem := mem[r := g.(size := mem[victim].size - keep - hdr, padding := 0)];
      mem := mem[victim := mem[victim].(size := keep)];
      LinkedOutside(mem0, mem, quickList, index);
      SizedFrame(mem0, mem, index);
      AppendChunk(r);
    }

    /** Moves an allocated header up by padding bytes, right before the aligned payload. */
    method MoveHeader(from: int, to: int)
      requires Linked(mem, quickList, index) && Sized(mem, index) && from in mem
      requires !In(index, from) && !In(index, to)
      modifies this`mem
      ensures Linked(mem, quickList, index) && Sized(mem, index)
      ensures mem == (old(mem) - {from})[to := old(mem)[from]]
    {
      hide Sized, ClassLinked, Chained, Distinct;
      ghost var mem0 := mem;
      MembersInMemory(mem0, quickList, index);
      var h := mem[from];
      mem := (mem - {from})[to := h];
      LinkedOutside(mem0, mem, quickList, index);
      SizedFrame(mem0, mem, index);
    }

    /** Cuts the rest off a victim that is large enough; otherwise leaves it whole. */
    method SplitIfLarge(victim: int, requested: nat, padding: nat, ghost b: Block)
      requires Linked(mem, quickList, index) && Sized(mem, index) && hdr > 0
      requires !In(index, victim) && victim in mem && victim > 0
      requires padding + requested <= mem[victim].size && b == Block(victim, mem[victim].size, true, 0)
      requires forall a :: In(index, a) ==> !(b.start <= a < End(b, hdr))
      modifies this`mem, this`quickList, this`index
      ensures Linked(mem, quickList, index) && Sized(mem, index) && victim in mem
      ensures var mid := Carved(victim, b.size, hdr, requested, padding);
              mem[victim] == old(mem)[victim].(size := mid[0].size) &&
              (|mid| == 2 ==> BlockAt(mem, mid[1]) && Newest(index, mid[1].start)) &&
              forall a :: In(index, a) <==> In(old(index), a) || FreeAt(mid, a)
      ensures OutsideKept(old(mem), mem, b, hdr)
      ensures forall x :: x in old(mem) && !In(old(index), x) && !(b.start <= x < End(b, hdr)) ==>
        x in mem && mem[x] == old(mem)[x]
    {
      hide Linked, Sized, Tiles, In, FreeAt;
      if mem[victim].size > requested + padding + hdr {
        var g: Header := *;
        SplitOff(victim, requested + padding, victim + hdr + requested + padding, g);
      }
    }

    /** Header work of an allocation: unlink, split, move; only memory of the victim's block and links change. */
    method CarveMemory(victim: int, requested: nat, padding: nat, ghost b: Block)
      requires Linked(mem, quickList, index) && Sized(mem, index) && hdr > 0
      requires In(index, victim) && victim in mem && victim > 0 && mem[victim].reqSize == requested
      requires padding + requested <= mem[victim].size && b == Block(victim, mem[victim].size, true, 0)
      requires forall a :: In(index, a) && b.start <= a < End(b, hdr) ==> a == victim
      modifies this`mem, this`quickList, this`index
      ensures Linked(mem, quickList, index) && Sized(mem, index) && OutsideKept(old(mem), mem, b, hdr)
      ensures Described(mem, Carved(victim, b.size, hdr, requested, padding))
      ensures var mid := Carved(victim, b.size, hdr, requested, padding); |mid| == 2 ==> Newest(index, mid[1].start)
      ensures forall a :: In(index, a) <==>
        (In(old(index), a) && a != victim) || FreeAt(Carved(victim, b.size, hdr, requested, padding), a)
      ensures forall x :: x in old(mem) && !In(old(index), x) && !(b.start <= x < End(b, hdr)) ==>
        x in mem && mem[x] == old(mem)[x]
    {
      hide Linked, Sized, Tiles, In, FreeAt;
      TakeVictim(victim, padding);
      SplitIfLarge(victim, requested, padding, b);
      ghost var mid := Carved(victim, b.size, hdr, requested, padding);
      if padding != 0 {
        MoveHeader(victim, victim + padding);
      }
      assert BlockAt(mem, mid[0]);
    }

    /** The victim's block becomes an allocated block and, if enough is left, a free one. */
    method Carve(victim: int, requested: nat, padding: nat, ghost i: nat)
      requires Valid() && i < |blocks| && blocks[i].free && blocks[i].start == victim
      requires victim > 0 && victim in mem && mem[victim].reqSize == requested &&
        padding + requested <= mem[victim].size
      modifies this`mem, this`quickList, this`index, this`blocks
      ensures Valid()
      ensures blocks == old(blocks)[..i] + Carved(victim, old(blocks)[i].size, hdr, requested, padding) +
                        old(blocks)[i + 1..]
      ensures |blocks| > |old(blocks)| ==> Newest(index, blocks[i + 1].start)
      ensures forall x :: x in old(mem) && !In(old(index), x) && !(victim <= x < End(old(blocks)[i], hdr)) ==>
        x in mem && mem[x] == old(mem)[x]
    {
      hide Linked, Sized, Tiles, Described, Carved, Newest;
      ghost var bs, ix, mem0, b, hi := blocks, index, mem, blocks[i], base + heapSize;
      DescribedAt(mem, bs, i);
      NothingFreeInside(bs, base, hi, hdr, i);
      assert FreeAt(bs, victim);
      CarveMemory(victim, requested, padding, b);
      ghost var mid := Carved(victim, b.size, hdr, requested, padding);
      ReplaceBlock(mem0, mem, bs, base, hi, hdr, i, mid);
      ReplaceIndexed(ix, index, bs, base, hi, hdr, i, mid);
      CarvedNoAdjacent(bs, i, mid);
      CarvedLength(victim, b.size, hdr, requested, padding);
      blocks := bs[..i] + mid + bs[i + 1..];
      assert |mid| == 2 ==> blocks[i + 1] == mid[1];
    }

    /** The quick list's last chunk of class c. */
    ghost function Tail(c: nat): int
      requires c < |index| && |index[c]| > 0
      reads this
    {
      index[c][|index[c]| - 1]
    }

    /** requested bytes at an aligned address, from the first class whose last chunk can give them; NULL if none can. */
    method Malloc(requested: nat, alignment: nat) returns (addr: int, ghost c: nat, ghost i: nat)
      requires Valid() && (alignment == 0 || PowerOfTwo(alignment))
      modifies this`mem, this`quickList, this`index, this`blocks
      ensures Valid()
      ensures addr == NULL ==> blocks == old(blocks) && index == old(index)
      ensures addr == NULL <==> forall d :: !old(TailFits(d, requested, Alignment(alignment)))
      ensures addr != NULL ==> old(TailFits(c, requested, Alignment(alignment)))
      ensures forall d :: 0 <= d < c ==> !old(TailFits(d, requested, Alignment(alignment)))
      ensures addr != NULL ==>
        addr % Alignment(alignment) == 0 && Allocates(old(blocks), blocks, i, addr, hdr, requested)
      ensures addr != NULL ==> c < |old(index)| && |old(index)[c]| > 0 && old(blocks)[i].start == old(Tail(c)) > 0
      ensures addr != NULL ==> addr == RoundUp(old(Tail(c)) + hdr, Alignment(alignment))
      ensures addr != NULL ==> Splits(old(blocks), blocks, i, addr - hdr - old(blocks)[i].start, hdr, requested)
      ensures addr != NULL && |blocks| > |old(blocks)| ==> i + 1 < |blocks| && Newest(index, blocks[i + 1].start)
      ensures addr != NULL ==>
        forall x :: x in old(mem) && !In(old(index), x) && !(old(blocks)[i].start <= x < End(old(blocks)[i], hdr)) ==>
          x in mem && mem[x] == old(mem)[x]
    {
      hide Linked, Sized, Tiles, Described, Carved, NoAdjacentFree, RoundUp, Splits, Newest;
      var align := Alignment(alignment);
      var victim;
      victim, c := FindVictim(requested, align);
      i := 0;
      if victim == NULL {
        return NULL, c, i;
      }
      assert victim in index[c] && In(index, victim);
      assert FreeAt(blocks, victim);
      i :| 0 <= i < |blocks| && blocks[i].free && blocks[i].start == victim;
      DescribedAt(mem, blocks, i);
      var start: nat := victim + hdr;
      addr := RoundUp(start, align);
      ghost var bs := blocks;
      Carve(victim, requested, addr - start, i);
      AllocatedSplits(bs, blocks, i, addr, hdr, requested);
    }

    // -------------------------------------------------------------- free

    /** a and b lie side by side. */
    predicate Adjacent(a: int, b: int)
      requires a in mem && b in mem
      reads this
    {
      a + mem[a].size + hdr == b || b + mem[b].size + hdr == a
    }

    /** Some chunk of class c next to a, or NULL. */
    method FindInClass(a: int, head: int, ghost c: nat) returns (tmp: int)
      requires Linked(mem, quickList, index) && a in mem && c < |index| && head == HeadOf(index, c)
      ensures tmp == NULL ==> forall x :: x in index[c] && x in mem ==> !Adjacent(a, x)
      ensures tmp != NULL ==> In(index, tmp) && tmp in mem && Adjacent(a, tmp)
    {
      hide Chained, Distinct;
      ghost var k := index[c];
      assert ClassLinked(mem, k);
      tmp := head;
      ghost var j := 0;
      while tmp != NULL
        invariant j <= |k| && tmp == At(k, j) && (tmp == NULL <==> j == |k|)
        invariant forall n :: 0 <= n < j ==> !Adjacent(a, k[n])
        decreases |k| - j
      {
        assert k[j] in k;
        if Adjacent(a, tmp) {
          return;
        }
        tmp, j := mem[tmp].nextChunk, j + 1;
      }
    }

    /** Some chunk of the quick list next to a, or NULL. */
    method FindAdjacent(a: int) returns (tmp: int)
      requires Linked(mem, quickList, index) && a in mem
      ensures tmp == NULL ==> forall x :: In(index, x) && x in mem ==> !Adjacent(a, x)
      ensures tmp != NULL ==> In(index, tmp) && tmp in mem && Adjacent(a, tmp)
    {
      hide ClassLinked, Chained, Distinct;
      var list := quickList;
      ghost var c := 0;
      HeadFacts(mem, quickList, index, c);
      while list != NULL
        invariant c <= |index| && list == HeadOf(index, c) && (list == NULL <==> c == |index|)
        invariant forall d, x :: 0 <= d < c && x in index[d] && x in mem ==> !Adjacent(a, x)
        decreases |index| - c
      {
        HeadFacts(mem, quickList, index, c);
        tmp := FindInClass(a, list, c);
        if tmp != NULL {
          return;
        }
        list, c := mem[list].nextList, c + 1;
        HeadFacts(mem, quickList, index, c);
      }
      tmp := NULL;
    }

    /** Two neighbouring free chunks become one: the lower takes the joint size, both are unlinked, one is put back. */
    method MergePair(chunk: int, tmp: int, ghost k: nat) returns (merged: int)
      requires Consistent() && k + 1 < |blocks| && blocks[k].free && blocks[k + 1].free
      requires (chunk, tmp) == (blocks[k].start, blocks[k + 1].start) ||
        (tmp, chunk) == (blocks[k].start, blocks[k + 1].start)
      modifies this`mem, this`quickList, this`index, this`blocks
      ensures Consistent() && merged == old(blocks)[k].start && blocks == Joined(old(blocks), k, hdr)
      ensures mem.Keys == old(mem).Keys && forall x :: x in mem && !In(old(index), x) ==> mem[x] == old(mem)[x]
      ensures SameSignatures(old(mem), mem) && Newest(index, merged)
    {
      hide Linked, Sized, Tiles, Described, Newest;
      ghost var bs, ix, mem0, hi := blocks, index, mem, base + heapSize;
      DescribedAt(mem, bs, k);
      DescribedAt(mem, bs, k + 1);
      TouchingIsNeighbour(bs, base, hi, hdr, k, k + 1);
      assert FreeAt(bs, bs[k].start) && FreeAt(bs, bs[k + 1].start);
      MembersInMemory(mem, quickList, index);
      merged := if chunk < tmp then chunk else tmp;
      var other := if chunk < tmp then tmp else chunk;
      mem := mem[merged := mem[merged].(size := mem[merged].size + (mem[other].size + hdr))];
      ghost var mem1 := mem;
      LinkedByLinks(mem0, mem, quickList, index);
      UnlinkBoth(tmp, chunk, mem0);
      ghost var mem2 := mem;
      AppendChunk(merged);
      JoinedTiles(bs, base, hi, hdr, k);
      JoinedDescribed(mem0, mem, bs, base, hi, hdr, k);
      JoinedIndexed(ix, index, bs, base, hi, hdr, k);
      blocks := Joined(bs, k, hdr);
      SignaturesKept(mem0, mem1, mem2, mem);
    }

    /** Unlinks two chunks after the size of one of them has changed; what remains is still sorted. */
    method UnlinkBoth(a: int, b: int, ghost mem0: Memory)
      requires Linked(mem, quickList, index) && Sized(mem0, index) && In(index, a) && In(index, b) && a != b
      requires mem.Keys == mem0.Keys && forall x :: x in mem && x != a && x != b ==> SameFields(mem0[x], mem[x])
      modifies this`mem, this`quickList, this`index
      ensures Linked(mem, quickList, index) && Sized(mem, index) && SameData(old(mem), mem)
      ensures forall x :: In(index, x) <==> In(old(index), x) && x != a && x != b
      ensures forall x :: x in mem && !In(old(index), x) ==> mem[x] == old(mem)[x]
    {
      hide Sized, ClassLinked, Chained;
      ghost var ix, mem1 := index, mem;
      var c, j := RemoveChunk(a);
      RemovedMembers(ix, c, j);
      RemovedSized(mem0, ix, c, j);
      ghost var ix1, mem2 := index, mem;
      c, j := RemoveChunk(b);
      RemovedMembers(ix1, c, j);
      RemovedSized(mem0, ix1, c, j);
      SameDataTrans(mem1, mem2, mem);
      MembersInMemory(mem, quickList, index);
      SizesAgree(mem0, mem1, mem, index, a, b);
      SizedFrame(mem0, mem, index);
    }

    /** The neighbour of block i that FindAdjacent returned. */
    lemma WhichNeighbour(i: nat, tmp: int) returns (k: nat)
      requires Consistent() && i < |blocks| && blocks[i].free && In(index, tmp)
      requires blocks[i].start in mem && tmp in mem && Adjacent(blocks[i].start, tmp)
      ensures k + 1 < |blocks| && blocks[k].free && blocks[k + 1].free && (i == k || i == k + 1)
      ensures tmp == blocks[if i == k then k + 1 else k].start
    {
      hide Linked, Sized, Tiles, Described;
      assert FreeAt(blocks, tmp);
      var j :| 0 <= j < |blocks| && blocks[j].free && blocks[j].start == tmp;
      DescribedAt(mem, blocks, i);
      DescribedAt(mem, blocks, j);
      TouchingIsNeighbour(blocks, base, base + heapSize, hdr, i, j);
      TouchingIsNeighbour(blocks, base, base + heapSize, hdr, j, i);
      k := if j == i + 1 then i else j;
    }

    /** No adjacent chunk in the quick list means no free neighbour. */
    lemma NoNeighbour(i: nat)
      requires Consistent() && i < |blocks| && blocks[i].free && blocks[i].start in mem && NoAdjacentBut(blocks, i)
      requires forall x :: In(index, x) && x in mem ==> !Adjacent(blocks[i].start, x)
      ensures NoAdjacentFree(blocks)
    {
      hide Linked, Sized, Tiles, Described;
      DescribedAt(mem, blocks, i);
      forall k | 0 < k < |blocks|
        ensures !(blocks[k - 1].free && blocks[k].free)
      {
        if (k == i || k == i + 1) && blocks[k - 1].free && blocks[k].free {
          var j := if k == i then i - 1 else i + 1;
          DescribedAt(mem, blocks, j);
          assert FreeAt(blocks, blocks[j].start);
          TouchingIsNeighbour(blocks, base, base + heapSize, hdr, k - 1, k);
        }
      }
    }

    /** Joins a freshly freed chunk with its free neighbours; every round leaves one block less. */
    method MergeChunks(chunk0: int, ghost i0: nat) returns (ghost k: nat)
      requires Consistent() && i0 < |blocks| && blocks[i0].free && blocks[i0].start == chunk0 &&
        NoAdjacentBut(blocks, i0) && Newest(index, chunk0)
      modifies this`mem, this`quickList, this`index, this`blocks
      ensures Valid() && Live(blocks) == Live(old(blocks))
      ensures k < |blocks| && blocks[k].free && Newest(index, blocks[k].start)
      ensures blocks[k].start <= chunk0 && End(old(blocks)[i0], hdr) <= End(blocks[k], hdr)
      ensures mem.Keys == old(mem).Keys && forall x :: x in mem && !In(old(index), x) ==> mem[x] == old(mem)[x]
      ensures SameSignatures(old(mem), mem)
    {
      hide Linked, Sized, Tiles, Described, NoAdjacentBut, NoAdjacentFree, Live, Newest, Joined;
      var chunk := chunk0;
      ghost var i: nat := i0;
      while true
        invariant Consistent() && i < |blocks| && blocks[i].free && blocks[i].start == chunk && NoAdjacentBut(blocks, i)
        invariant Live(blocks) == Live(old(blocks)) && Newest(index, chunk)
        invariant blocks[i].start <= chunk0 && End(old(blocks)[i0], hdr) <= End(blocks[i], hdr)
        invariant mem.Keys == old(mem).Keys && forall x :: x in mem && !In(old(index), x) ==> mem[x] == old(mem)[x]
        invariant forall x :: In(index, x) ==> In(old(index), x)
        invariant SameSignatures(old(mem), mem)
        decreases |blocks|
      {
        DescribedAt(mem, blocks, i);
        var tmp := FindAdjacent(chunk);
        if tmp == NULL {
          NoNeighbour(i);
          return i;
        }
        k := WhichNeighbour(i, tmp);
        JoinedNoAdjacent(blocks, k, i, hdr);
        JoinedCovers(blocks, base, base + heapSize, k, hdr);
        JoinedLive(blocks, k, hdr);
        JoinedShrinks(blocks, k, hdr);
        ghost var ix := index;
        chunk := MergePair(chunk, tmp, k);
        i := k;
      }
    }

    /** ptr is the payload address of an allocated block. */
    ghost predicate LiveAt(ptr: int)
      reads this
    {
      exists i :: 0 <= i < |blocks| && !blocks[i].free && HeaderOf(blocks[i]) + hdr == ptr
    }

    /** Clears the signature and moves the header back to the start of its block. */
    method RestoreHeader(header: int, ghost b: Block) returns (chunk: int)
      requires Linked(mem, quickList, index) && Sized(mem, index) && hdr > 0
      requires !b.free && BlockAt(mem, b) && header == HeaderOf(b)
      requires forall a :: b.start <= a < End(b, hdr) ==> !In(index, a)
      modifies this`mem
      ensures Linked(mem, quickList, index) && Sized(mem, index)
      ensures chunk == b.start && chunk in mem && mem[chunk].size == b.size && mem[chunk].padding == 0 &&
        mem[chunk].sig == 0
      ensures forall x :: x in old(mem) && !(b.start <= x < End(b, hdr)) ==> x in mem && mem[x] == old(mem)[x]
    {
      hide Sized, ClassLinked, Chained, Distinct;
      ghost var mem0 := mem;
      MembersInMemory(mem0, quickList, index);
      chunk := header;
      mem := mem[chunk := mem[chunk].(sig := 0)];
      if mem[chunk].padding != 0 {
        var h := mem[chunk];
        chunk := chunk - h.padding;
        mem := (mem - {header})[chunk := h.(padding := 0)];
      }
      LinkedOutside(mem0, mem, quickList, index);
      SizedFrame(mem0, mem, index);
    }

    /** An allocated block becomes free, not yet joined with its neighbours. */
    method ReleaseBlock(header: int, ghost i: nat) returns (chunk: int)
      requires Valid() && i < |blocks| && !blocks[i].free && HeaderOf(blocks[i]) == header
      modifies this`mem, this`quickList, this`index, this`blocks
      ensures Consistent() && blocks == Freed(old(blocks), i) && chunk == old(blocks)[i].start &&
        NoAdjacentBut(blocks, i)
      ensures forall x :: x in old(mem) && !In(old(index), x) && !(chunk <= x < End(old(blocks)[i], hdr)) ==>
        x in mem && mem[x] == old(mem)[x]
      ensures forall x :: In(index, x) <==> In(old(index), x) || x == chunk
      ensures chunk in mem && mem[chunk].sig == 0 && Newest(index, chunk)
    {
      hide Linked, Sized, Tiles, Described, Newest;
      ghost var bs, ix, mem0, b, hi := blocks, index, mem, blocks[i], base + heapSize;
      DescribedAt(mem, bs, i);
      AllocatedNotFree(bs, base, hi, hdr, i);
      InsideRegion(bs, base, hi, hdr, i);
      chunk := RestoreHeader(header, b);
      ghost var mem1 := mem;
      AppendChunk(chunk);
      ghost var mid := [Block(b.start, b.size, true, 0)];
      FreshBlock(mem1, mem, b, hdr);
      KeptThrough(mem0, mem1, mem, b, hdr);
      ReplaceBlock(mem0, mem, bs, base, hi, hdr, i, mid);
      ReplaceIndexed(ix, index, bs, base, hi, hdr, i, mid);
      FreedNoAdjacent(bs, i);
      blocks := Freed(bs, i);
    }

    /**
     Releases an allocated block and joins it with its free neighbours; a bad signature panics. found is what the bytes
     before ptr hold, which for a pointer to no block may be anything.
     */
    method Free(ptr: int, found: Header) returns (panicked: bool, ghost i: nat, ghost k: nat)
      requires Valid() && (ptr - hdr in mem ==> found == mem[ptr - hdr])
      requires ptr != NULL && found.sig == CHUNK_SIG ==> LiveAt(ptr)
      modifies this`mem, this`quickList, this`index, this`blocks
      ensures Valid()
      ensures panicked <==> ptr != NULL && found.sig != CHUNK_SIG
      ensures ptr == NULL || panicked ==>
        mem == old(mem) && quickList == old(quickList) && index == old(index) && blocks == old(blocks)
      ensures ptr != NULL && !panicked ==>
        i < |old(blocks)| && HeaderOf(old(blocks)[i]) + hdr == ptr && !old(blocks)[i].free &&
        Live(blocks) == Live(old(blocks)) - {old(blocks)[i]}
      ensures ptr != NULL && !panicked ==>
        k < |blocks| && blocks[k].free && Newest(index, blocks[k].start) &&
        blocks[k].start <= old(blocks)[i].start && End(old(blocks)[i], hdr) <= End(blocks[k], hdr)
      ensures ptr != NULL && !panicked && old(blocks)[i].padding == 0 ==>
        ptr - hdr in mem && mem[ptr - hdr].sig != CHUNK_SIG
      ensures ptr != NULL && !panicked ==>
        forall x :: x in old(mem) && !In(old(index), x) && !(old(blocks)[i].start <= x < End(old(blocks)[i], hdr)) ==>
          x in mem && mem[x] == old(mem)[x]
    {
      hide Linked, Sized, Tiles, Described, NoAdjacentBut, NoAdjacentFree, Live, Newest;
      i, k, panicked := 0, 0, false;
      if ptr == NULL {
        return;
      }
      var header := ptr - hdr;
      if found.sig != CHUNK_SIG {
        return true, 0, 0;
      }
      i :| 0 <= i < |blocks| && !blocks[i].free && HeaderOf(blocks[i]) + hdr == ptr;
      FreedLive(blocks, base, base + heapSize, hdr, i);
      var chunk := ReleaseBlock(header, i);
      k := MergeChunks(chunk, i);
    }
  }

  /** The same headers, with the same signatures. */
  ghost predicate SameSignatures(mem: Memory, mem': Memory) {
    mem'.Keys == mem.Keys && forall x :: x in mem ==> mem'[x].sig == mem[x].sig
  }

  lemma SignaturesKept(mem0: Memory, mem1: Memory, mem2: Memory, mem3: Memory)
    requires SameSignatures(mem0, mem1) && SameData(mem1, mem2) && SameData(mem2, mem3)
    ensures SameSignatures(mem0, mem3)
  {
    forall x | x in mem0
      ensures mem3[x].sig == mem0[x].sig
    {
      assert x in mem1 && x in mem2 && SameFields(mem1[x], mem2[x]) && SameFields(mem2[x], mem3[x]);
    }
  }

  /** Only requested sizes of free chunks differ. */
  ghost predicate OnlyReqSize(mem: Memory, mem': Memory, ix: Index) {
    mem'.Keys == mem.Keys &&
    forall a :: a in mem ==> mem'[a] == mem[a] || (In(ix, a) && mem'[a] == mem[a].(reqSize := mem'[a].reqSize))
  }

  lemma SmallClass(mem: Memory, ix: Index, c: nat, hdr: nat, requested: nat, alignment: nat)
    requires Sized(mem, ix) && c < |ix| && alignment > 0 && SizeOf(mem, ix[c]) < requested
    ensures var t := ix[c][|ix[c]| - 1];
      t in mem && (t > 0 ==> !Fits(t, mem[t].size, hdr, requested, alignment))
  {
    assert ix[c][|ix[c]| - 1] in ix[c];
  }

  /** The alignment in force: a word when none is asked for. */
  function Alignment(alignment: nat): nat {
    if alignment == 0 then 4 else alignment
  }

  lemma SizesAgree(mem0: Memory, mem1: Memory, mem: Memory, ix: Index, a: int, b: int)
    requires mem1.Keys == mem0.Keys && forall x :: x in mem1 && x != a && x != b ==> SameFields(mem0[x], mem1[x])
    requires SameData(mem1, mem) && !In(ix, a) && !In(ix, b) && forall x :: In(ix, x) ==> x in mem
    ensures forall x :: In(ix, x) ==> x in mem && x in mem0 && mem[x].size == mem0[x].size
  {
    forall x | In(ix, x)
      ensures x in mem && x in mem0 && mem[x].size == mem0[x].size
    {
      assert x in mem && x in mem1 && x in mem0;
      assert SameFields(mem0[x], mem1[x]) && SameFields(mem1[x], mem[x]);
    }
  }

  lemma JoinedShrinks(bs: seq<Block>, k: nat, hdr: nat)
    requires k + 1 < |bs| && bs[k].free
    ensures |Joined(bs, k, hdr)| == |bs| - 1 && Joined(bs, k, hdr)[k].free && Joined(bs, k, hdr)[k].start == bs[k].start
    ensures forall a :: FreeAt(Joined(bs, k, hdr), a) ==> FreeAt(bs, a)
  {
    var r := Joined(bs, k, hdr);
    forall a | FreeAt(r, a)
      ensures FreeAt(bs, a)
    {
      var n :| 0 <= n < |r| && r[n].free && r[n].start == a;
      var m := if n <= k then n else n + 1;
      assert bs[m].free && bs[m].start == a;
    }
  }

  lemma FreshBlock(mem: Memory, mem': Memory, b: Block, hdr: nat)
    requires b.start in mem && mem[b.start].size == b.size && SameData(mem, mem')
    ensures Described(mem', [Block(b.start, b.size, true, 0)])
    ensures Tiles([Block(b.start, b.size, true, 0)], b.start, End(b, hdr), hdr)
    ensures forall a :: FreeAt([Block(b.start, b.size, true, 0)], a) <==> a == b.start
  {
    var mid := [Block(b.start, b.size, true, 0)];
    assert mid[0].free;
    assert SameFields(mem[b.start], mem'[b.start]);
  }

  lemma KeptThrough(mem0: Memory, mem1: Memory, mem: Memory, b: Block, hdr: nat)
    requires forall x :: x in mem0 && !(b.start <= x < End(b, hdr)) ==> x in mem1 && mem1[x] == mem0[x]
    requires SameData(mem1, mem)
    ensures OutsideKept(mem0, mem, b, hdr)
  {
    forall x | x in mem0 && !(b.start <= x < End(b, hdr))
      ensures x in mem && SameFields(mem0[x], mem[x])
    {
      assert x in mem1 && SameFields(mem1[x], mem[x]);
    }
  }

  lemma DescribedAt(mem: Memory, bs: seq<Block>, i: nat)
    requires Described(mem, bs) && i < |bs|
    ensures BlockAt(mem, bs[i])
  {
  }

  /** An allocated front and an isolated victim leave no two free neighbours. */
  lemma CarvedNoAdjacent(bs: seq<Block>, i: nat, mid: seq<Block>)
    requires NoAdjacentFree(bs) && i < |bs| && bs[i].free && |mid| > 0 && !mid[0].free && NoAdjacentFree(mid)
    ensures NoAdjacentFree(bs[..i] + mid + bs[i + 1..])
  {
    if i + 1 < |bs| {
      NotBothFree(bs, i + 1);
    }
    NoAdjacentSplice(bs, i, i + 1, mid);
  }

  lemma HeadFacts(mem: Memory, ql: int, ix: Index, d: nat)
    requires Linked(mem, ql, ix)
    ensures d < |ix| ==>
      |ix[d]| > 0 && HeadOf(ix, d) == ix[d][0] && ix[d][0] in mem && ix[d][0] > 0 &&
      mem[ix[d][0]].nextList == HeadOf(ix, d + 1)
  {
    if d < |ix| {
      assert ClassLinked(mem, ix[d]);
      assert mem[HeadOf(ix, d)].nextList == HeadOf(ix, d + 1);
    }
  }

  lemma SizedData(mem: Memory, mem': Memory, ix: Index)
    requires Sized(mem, ix) && SameData(mem, mem')
    ensures Sized(mem', ix)
  {
    forall c | 0 <= c < |ix|
      ensures ClassSized(mem', ix[c], SizeOf(mem, ix[c])) && SizeOf(mem', ix[c]) == SizeOf(mem, ix[c])
    {
      assert ClassSized(mem, ix[c], SizeOf(mem, ix[c]));
      var a := ix[c][0];
      assert a in mem && a in mem';
      assert SameFields(mem[a], mem'[a]);
    }
  }

  lemma LargerFrom(mem: Memory, ix: Index, d: nat, n: nat)
    requires Sized(mem, ix) && d <= |ix| && (d < |ix| ==> SizeOf(mem, ix[d]) > n)
    ensures forall e :: d <= e < |ix| ==> SizeOf(mem, ix[e]) > n
  {
  }

  lemma SameDataTrans(m0: Memory, m1: Memory, m2: Memory)
    requires SameData(m0, m1) && SameData(m1, m2)
    ensures SameData(m0, m2)
  {
    forall a | a in m0
      ensures SameFields(m0[a], m2[a])
    {
      assert a in m1 && a in m2 && SameFields(m0[a], m1[a]) && SameFields(m1[a], m2[a]);
    }
  }

  lemma NoDupAt(k: Class, i: nat, j: nat)
    requires NoDup(k) && i < j < |k|
    ensures k[i] != k[j]
  {
  }

  lemma ClassStart(mem: Memory, ix: Index, c: nat, j: nat)
    requires Distinct(ix) && c < |ix| && j < |ix[c]| && ClassLinked(mem, ix[c])
    ensures ix[c][j] in mem && (mem[ix[c][j]].head == ix[c][j] <==> j == 0)
    ensures mem[ix[c][j]].nextChunk == NULL <==> j == |ix[c]| - 1
  {
    assert NoDup(ix[c]);
  }

  /** Relinking changes data nowhere and nothing at all outside the index. */
  lemma RelinkedData(mem: Memory, mem': Memory, ql: int, ix: Index, c: nat, n: int)
    requires Linked(mem, ql, ix) && c < |ix| && Relinked(mem, mem', ix, c, n)
    requires forall i :: 0 <= i < |ix[c]| ==> ix[c][i] in mem && SameFields(mem[ix[c][i]], mem'[ix[c][i]])
    ensures SameData(mem, mem')
    ensures forall x :: x in mem && !In(ix, x) ==> mem'[x] == mem[x]
  {
    if c > 0 {
      assert ClassLinked(mem, ix[c - 1]) && ix[c - 1][0] in ix[c - 1];
      assert In(ix, HeadOf(ix, c - 1));
    }
  }

  lemma HeadAndRest(mem: Memory, ql: int, ix: Index, c: nat)
    requires Linked(mem, ql, ix) && c < |ix| && |ix[c]| > 1
    ensures ClassLinked(mem, ix[c]) && NoDup(ix[c]) && ix[c][0] in ix[c] && ix[c][0] in mem
    ensures mem[ix[c][0]].nextChunk == ix[c][1] && mem[ix[c][0]].nextList == HeadOf(ix, c + 1)
    ensures HeadOf(ix, c) == ix[c][0]
    ensures forall i :: 1 <= i < |ix[c]| ==> ix[c][i] in mem && ix[c][i] in ix[c] && ix[c][i] != ix[c][0]
  {
    assert mem[HeadOf(ix, c)].nextList == HeadOf(ix, c + 1);
  }

  lemma RelinkedKeys(mem: Memory, mem': Memory, ix: Index, c: nat, n: int)
    requires c < |ix| && Relinked(mem, mem', ix, c, n)
    ensures mem'.Keys == mem.Keys
  {
  }

  /** The second chunk of a class takes over as its first: the class's headers, store by store. */
  lemma NewFirst(mem: Memory, mid: Memory, mem1: Memory, mem2: Memory, mem': Memory, k: Class)
    requires |k| > 1 && mid.Keys == mem.Keys && forall i :: 0 <= i < |k| ==> k[i] in mem && mid[k[i]] == mem[k[i]]
    requires forall i :: 1 <= i < |k| ==> k[i] != k[0]
    requires mem1 == mid[k[1] := mid[k[1]].(nextList := mid[k[0]].nextList)] && mem2.Keys == mem1.Keys
    requires forall x :: x in mem2 && x !in k[1..] ==> mem2[x] == mem1[x]
    requires forall i :: 1 <= i < |k| ==> mem2[k[i]] == mem1[k[i]].(head := k[1])
    requires mem' == mem2[k[0] := Reset(mem2[k[0]])]
    ensures mem'.Keys == mid.Keys && forall x :: x in mid && x !in k ==> mem'[x] == mid[x]
    ensures forall i :: 0 <= i < |k| ==> SameFields(mem[k[i]], mem'[k[i]])
    ensures forall i :: 1 <= i < |k| ==> mem'[k[i]].head == k[1] && mem'[k[i]].nextChunk == mem[k[i]].nextChunk
    ensures mem'[k[1]].nextList == mem[k[0]].nextList
  {
    assert k[0] in k && k[1] in k;
    assert forall x :: x in k[1..] ==> x in k;
    assert mem2[k[0]] == mem1[k[0]] by {
      assert k[0] !in k[1..];
    }
  }

  lemma FirstHead(mem: Memory, ql: int, ix: Index, c: nat)
    requires Linked(mem, ql, ix) && c < |ix| && ql == HeadOf(ix, c)
    ensures c == 0
  {
    assert ClassLinked(mem, ix[c]) && ClassLinked(mem, ix[0]);
    if c != 0 {
      HeadsDiffer(mem, ix, c, 0);
    }
  }
}
