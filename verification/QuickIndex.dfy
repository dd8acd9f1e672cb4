/**
 The two-level quick list of the kernel heap (so3/mm/heap.c): size classes linked through
 next_list, the chunks of one size through next_chunk.  Memory is a map from header addresses
 to headers; an index is the list of classes the links spell out.
 */
module QuickIndex {

  const NULL: int := 0

  datatype Header = Header(sig: nat, nextList: int, nextChunk: int, head: int, size: nat, reqSize: nat, padding: nat)

  type Memory = map<int, Header>
  type Class = seq<int>
  type Index = seq<seq<int>>

  /** First element, or NULL past the end. */
  ghost function At(k: Class, j: nat): int {
    if j < |k| then k[j] else NULL
  }

  ghost function HeadOf(ix: Index, c: nat): int {
    if c < |ix| then At(ix[c], 0) else NULL
  }

  /** The chunks of one size: linked through next_chunk, each pointing back to the first. */
  ghost predicate ClassLinked(mem: Memory, k: Class) {
    |k| > 0 &&
    forall j :: 0 <= j < |k| ==>
      k[j] in mem && k[j] > 0 && mem[k[j]].head == k[0] && mem[k[j]].nextChunk == At(k, j + 1)
  }

  /** The first chunks of all classes are linked through next_list. */
  ghost predicate Chained(mem: Memory, ix: Index) {
    forall c :: 0 <= c < |ix| ==> HeadOf(ix, c) in mem && mem[HeadOf(ix, c)].nextList == HeadOf(ix, c + 1)
  }

  ghost predicate NoDup(k: Class) {
    forall i, j :: 0 <= i < j < |k| ==> k[i] != k[j]
  }

  ghost predicate Apart(k: Class, l: Class) {
    forall a :: a in k ==> a !in l
  }

  /** No chunk occurs twice. */
  ghost predicate Distinct(ix: Index) {
    (forall c :: 0 <= c < |ix| ==> NoDup(ix[c])) &&
    (forall c, d :: 0 <= c < |ix| && 0 <= d < |ix| && c != d ==> Apart(ix[c], ix[d]))
  }

  /** The links in memory, starting at ql, spell out exactly the index ix. */
  ghost predicate Linked(mem: Memory, ql: int, ix: Index) {
    (forall c :: 0 <= c < |ix| ==> ClassLinked(mem, ix[c])) && Chained(mem, ix) && ql == HeadOf(ix, 0) && Distinct(ix)
  }

  ghost predicate In(ix: Index, a: int) {
    exists c :: 0 <= c < |ix| && a in ix[c]
  }

  ghost predicate ClassSized(mem: Memory, k: Class, n: nat) {
    forall a :: a in k ==> a in mem && mem[a].size == n
  }

  ghost function SizeOf(mem: Memory, k: Class): nat
    requires |k| > 0 && k[0] in mem
  {
    mem[k[0]].size
  }

  /** One size per class, classes by strictly increasing size. */
  ghost predicate Sized(mem: Memory, ix: Index) {
    (forall c :: 0 <= c < |ix| ==> |ix[c]| > 0 && ix[c][0] in mem && ClassSized(mem, ix[c], SizeOf(mem, ix[c]))) &&
    (forall c, d :: 0 <= c < d < |ix| ==> SizeOf(mem, ix[c]) < SizeOf(mem, ix[d]))
  }

  ghost predicate SameFields(h: Header, h': Header) {
    h'.sig == h.sig && h'.size == h.size && h'.reqSize == h.reqSize && h'.padding == h.padding
  }

  /** Only link fields differ. */
  ghost predicate SameData(mem: Memory, mem': Memory) {
    mem'.Keys == mem.Keys && forall a :: a in mem ==> SameFields(mem[a], mem'[a])
  }

  // ---------------------------------------------------------------- removal

  ghost function Without(k: Class, j: nat): Class
    requires j < |k|
  {
    k[..j] + k[j + 1..]
  }

  /** The index without chunk j of class c; a class that becomes empty disappears. */
  ghost function Removed(ix: Index, c: nat, j: nat): Index
    requires c < |ix| && j < |ix[c]|
  {
    if |ix[c]| == 1 then ix[..c] + ix[c + 1..] else ix[c := Without(ix[c], j)]
  }

  function Reset(h: Header): Header {
    h.(nextList := NULL, nextChunk := NULL, head := NULL)
  }

  lemma WithoutParts(k: Class, j: nat)
    requires NoDup(k) && j < |k|
    ensures NoDup(Without(k, j))
    ensures forall a :: a in Without(k, j) <==> a in k && a != k[j]
  {
    var w := Without(k, j);
    forall a | a in k && a != k[j]
      ensures a in w
    {
      var i :| 0 <= i < |k| && k[i] == a;
      assert w[if i < j then i else i - 1] == a;
    }
  }

  lemma DistinctShrink(ix: Index, c: nat, k: Class)
    requires Distinct(ix) && c < |ix| && NoDup(k) && forall a :: a in k ==> a in ix[c]
    ensures Distinct(ix[c := k])
  {
  }

  lemma DistinctDrop(ix: Index, c: nat)
    requires Distinct(ix) && c < |ix|
    ensures Distinct(ix[..c] + ix[c + 1..])
  {
    var iy := ix[..c] + ix[c + 1..];
    assert forall d :: 0 <= d < |iy| ==> iy[d] == ix[if d < c then d else d + 1];
  }

  /** A class whose chunks keep their links stays a class. */
  lemma ClassFrame(mem: Memory, mem': Memory, k: Class)
    requires ClassLinked(mem, k)
    requires forall a :: a in k ==> a in mem' && mem'[a].head == mem[a].head && mem'[a].nextChunk == mem[a].nextChunk
    ensures ClassLinked(mem', k)
  {
  }

  /** Within its class: the predecessor of a removed inner chunk takes over its next_chunk. */
  lemma InnerClass(mem: Memory, k: Class, j: nat, mem': Memory)
    requires ClassLinked(mem, k) && NoDup(k) && 0 < j < |k|
    requires forall i :: 0 <= i < |k| && i != j ==> k[i] in mem' && mem'[k[i]].head == mem[k[i]].head
    requires forall i :: 0 <= i < |k| && i != j && i != j - 1 ==> mem'[k[i]].nextChunk == mem[k[i]].nextChunk
    requires mem'[k[j - 1]].nextChunk == mem[k[j]].nextChunk
    ensures ClassLinked(mem', Without(k, j))
  {
    var w := Without(k, j);
    forall i | 0 <= i < |w|
      ensures w[i] in mem' && w[i] > 0 && mem'[w[i]].head == w[0] && mem'[w[i]].nextChunk == At(w, i + 1)
    {
      assert w[i] == k[if i < j then i else i + 1];
    }
  }

  lemma OtherClass(ix: Index, c: nat, d: nat)
    requires Distinct(ix) && c < |ix| && d < |ix| && c != d
    ensures forall a :: a in ix[d] ==> a !in ix[c]
  {
    assert Apart(ix[d], ix[c]);
  }

  /** Every class but c, none of whose chunks changed. */
  lemma OtherClasses(mem: Memory, mem': Memory, ix: Index, c: nat)
    requires Distinct(ix) && c < |ix| && forall d :: 0 <= d < |ix| ==> ClassLinked(mem, ix[d])
    requires forall a :: a in mem && a !in ix[c] ==>
      a in mem' && mem'[a].head == mem[a].head && mem'[a].nextChunk == mem[a].nextChunk
    ensures forall d :: 0 <= d < |ix| && d != c ==> ClassLinked(mem', ix[d])
  {
    forall d | 0 <= d < |ix| && d != c
      ensures ClassLinked(mem', ix[d])
    {
      OtherClass(ix, c, d);
      assert forall a :: a in ix[d] ==> a in mem;
      ClassFrame(mem, mem', ix[d]);
    }
  }

  /** The chain of heads is unchanged. */
  lemma SameChain(mem: Memory, mem': Memory, ix: Index, ix': Index)
    requires Chained(mem, ix) && |ix'| == |ix|
    requires forall d :: 0 <= d < |ix| ==> HeadOf(ix', d) == HeadOf(ix, d)
    requires forall a :: a in mem ==> a in mem'
    requires forall d :: 0 <= d < |ix| ==> mem'[HeadOf(ix, d)].nextList == mem[HeadOf(ix, d)].nextList
    ensures Chained(mem', ix')
  {
    forall d | 0 <= d < |ix'|
      ensures HeadOf(ix', d) in mem' && mem'[HeadOf(ix', d)].nextList == HeadOf(ix', d + 1)
    {
      assert HeadOf(ix, d) in mem && mem[HeadOf(ix, d)].nextList == HeadOf(ix, d + 1);
      assert HeadOf(ix', d) == HeadOf(ix, d);
      if d + 1 < |ix| {
        assert HeadOf(ix', d + 1) == HeadOf(ix, d + 1);
      }
    }
  }

  /** Unlinking an inner chunk. */
  lemma RemoveInner(mem: Memory, ql: int, ix: Index, c: nat, j: nat, mem': Memory)
    requires Linked(mem, ql, ix) && c < |ix| && 0 < j < |ix[c]|
    requires ClassLinked(mem, ix[c])
    requires mem'.Keys == mem.Keys && forall x :: x in mem && x != ix[c][j - 1] && x != ix[c][j] ==> mem'[x] == mem[x]
    requires mem'[ix[c][j - 1]] == mem[ix[c][j - 1]].(nextChunk := mem[ix[c][j]].nextChunk)
    ensures Linked(mem', ql, Removed(ix, c, j))
  {
    hide NoDup, Apart, ClassLinked, Chained, Distinct;
    var k, ix' := ix[c], Removed(ix, c, j);
    ClassesNonempty(mem, ix);
    DistinctClass(ix, c);
    WithoutParts(k, j);
    InnerFields(mem, k, j, mem');
    InnerClass(mem, k, j, mem');
    DistinctShrink(ix, c, Without(k, j));
    OtherClasses(mem, mem', ix, c);
    InnerHeads(mem, ix, c, j);
    InnerNext(mem, ix, c, j, mem');
    SameChain(mem, mem', ix, ix');
  }

  lemma ClassesNonempty(mem: Memory, ix: Index)
    requires forall d :: 0 <= d < |ix| ==> ClassLinked(mem, ix[d])
    ensures forall d :: 0 <= d < |ix| ==> |ix[d]| > 0
  {
  }

  lemma DistinctClass(ix: Index, c: nat)
    requires Distinct(ix) && c < |ix|
    ensures NoDup(ix[c])
  {
  }

  /** What unlinking an inner chunk leaves of the others of its class. */
  lemma InnerFields(mem: Memory, k: Class, j: nat, mem': Memory)
    requires ClassLinked(mem, k) && NoDup(k) && 0 < j < |k|
    requires mem'.Keys == mem.Keys && forall x :: x in mem && x != k[j - 1] && x != k[j] ==> mem'[x] == mem[x]
    requires mem'[k[j - 1]] == mem[k[j - 1]].(nextChunk := mem[k[j]].nextChunk)
    ensures forall i :: 0 <= i < |k| && i != j ==> k[i] in mem' && mem'[k[i]].head == mem[k[i]].head
    ensures forall i :: 0 <= i < |k| && i != j && i != j - 1 ==> mem'[k[i]].nextChunk == mem[k[i]].nextChunk
    ensures k[j - 1] in mem && k[j] in mem && forall x :: x in mem && x !in k ==> mem'[x] == mem[x]
  {
    assert k[j - 1] in k && k[j] in k;
  }

  lemma InnerNext(mem: Memory, ix: Index, c: nat, j: nat, mem': Memory)
    requires Chained(mem, ix) && c < |ix| && 0 < j < |ix[c]| && forall d :: 0 <= d < |ix| ==> HeadOf(ix, d) != ix[c][j]
    requires mem'.Keys == mem.Keys && forall x :: x in mem && x != ix[c][j - 1] && x != ix[c][j] ==> mem'[x] == mem[x]
    requires ix[c][j - 1] in mem && ix[c][j] in mem
    requires mem'[ix[c][j - 1]] == mem[ix[c][j - 1]].(nextChunk := mem[ix[c][j]].nextChunk)
    ensures forall d :: 0 <= d < |ix| ==>
      HeadOf(ix, d) in mem && mem'[HeadOf(ix, d)].nextList == mem[HeadOf(ix, d)].nextList
  {
  }

  /** Neither an inner chunk nor the next_list of its predecessor matters to the heads. */
  lemma InnerHeads(mem: Memory, ix: Index, c: nat, j: nat)
    requires Distinct(ix) && (forall d :: 0 <= d < |ix| ==> |ix[d]| > 0) && c < |ix| && 0 < j < |ix[c]|
    ensures forall d :: 0 <= d < |ix| ==> HeadOf(Removed(ix, c, j), d) == HeadOf(ix, d) && HeadOf(ix, d) != ix[c][j]
  {
    assert NoDup(ix[c]);
    forall d | 0 <= d < |ix| && d != c
      ensures HeadOf(ix, d) != ix[c][j]
    {
      OtherClass(ix, c, d);
      assert ix[d][0] in ix[d] && ix[c][j] in ix[c];
    }
  }

  /** Outside class c only the preceding head changes, and there only next_list, which becomes n. */
  ghost predicate Relinked(mem: Memory, mem': Memory, ix: Index, c: nat, n: int)
    requires c < |ix|
  {
    mem'.Keys == mem.Keys &&
    (forall x :: x in mem && x !in ix[c] && !(c > 0 && x == HeadOf(ix, c - 1)) ==> mem'[x] == mem[x]) &&
    (c > 0 ==> HeadOf(ix, c - 1) in mem && mem'[HeadOf(ix, c - 1)] == mem[HeadOf(ix, c - 1)].(nextList := n))
  }

  /** Later changes inside class c do not disturb the relinking around it. */
  lemma RelinkedStays(mem: Memory, mid: Memory, mem': Memory, ql: int, ix: Index, c: nat, n: int)
    requires Linked(mem, ql, ix) && c < |ix| && Relinked(mem, mid, ix, c, n)
    requires mem'.Keys == mid.Keys && forall x :: x in mid && x !in ix[c] ==> mem'[x] == mid[x]
    ensures Relinked(mem, mem', ix, c, n)
  {
    if c > 0 {
      assert ClassLinked(mem, ix[c]) && ClassLinked(mem, ix[c - 1]);
      HeadsDiffer(mem, ix, c, c - 1);
    }
  }

  lemma HeadsDiffer(mem: Memory, ix: Index, c: nat, d: nat)
    requires Distinct(ix) && c < |ix| && d < |ix| && c != d && |ix[c]| > 0 && |ix[d]| > 0
    ensures HeadOf(ix, c) != HeadOf(ix, d) && HeadOf(ix, d) !in ix[c]
  {
    OtherClass(ix, c, d);
    assert ix[d][0] in ix[d] && ix[c][0] in ix[c];
  }

  /** The rest of a class under its new head. */
  lemma TailClass(mem: Memory, k: Class, mem': Memory)
    requires ClassLinked(mem, k) && |k| > 1
    requires forall i :: 1 <= i < |k| ==>
      k[i] in mem' && mem'[k[i]].head == k[1] && mem'[k[i]].nextChunk == mem[k[i]].nextChunk
    ensures ClassLinked(mem', Without(k, 0))
  {
    var w := Without(k, 0);
    forall i | 0 <= i < |w|
      ensures w[i] in mem' && w[i] > 0 && mem'[w[i]].head == w[0] && mem'[w[i]].nextChunk == At(w, i + 1)
    {
      assert w[i] == k[i + 1];
    }
  }

  /** The chain of heads when class c gets the head n and every other class keeps its own. */
  lemma RelinkedChain(mem: Memory, mem': Memory, ix: Index, c: nat, ix': Index, n: int)
    requires Chained(mem, ix) && Distinct(ix) && c < |ix| && (forall d :: 0 <= d < |ix| ==> |ix[d]| > 0)
    requires |ix'| == |ix| && forall d :: 0 <= d <= |ix| && d != c ==> HeadOf(ix', d) == HeadOf(ix, d)
    requires HeadOf(ix', c) == n && n in mem && Relinked(mem, mem', ix, c, n)
    requires mem'[n].nextList == HeadOf(ix, c + 1)
    ensures Chained(mem', ix')
  {
    forall d | 0 <= d < |ix'|
      ensures HeadOf(ix', d) in mem' && mem'[HeadOf(ix', d)].nextList == HeadOf(ix', d + 1)
    {
      if d != c {
        assert HeadOf(ix, d) in mem && mem[HeadOf(ix, d)].nextList == HeadOf(ix, d + 1);
        HeadsDiffer(mem, ix, c, d);
        if c > 0 && d != c - 1 {
          HeadsDiffer(mem, ix, c - 1, d);
        }
      }
    }
  }

  /** Unlinking the head of a class that has more chunks. */
  lemma RemoveFirst(mem: Memory, ql: int, ix: Index, c: nat, mem': Memory, ql': int)
    requires Linked(mem, ql, ix) && c < |ix| && |ix[c]| > 1
    requires Relinked(mem, mem', ix, c, ix[c][1]) && ql' == if c == 0 then ix[c][1] else ql
    requires forall i :: 1 <= i < |ix[c]| ==>
      ix[c][i] in mem && mem'[ix[c][i]].head == ix[c][1] && mem'[ix[c][i]].nextChunk == mem[ix[c][i]].nextChunk
    requires mem'[ix[c][1]].nextList == HeadOf(ix, c + 1)
    ensures Linked(mem', ql', Removed(ix, c, 0))
  {
    hide NoDup, Apart;
    var k, ix' := ix[c], Removed(ix, c, 0);
    assert ClassLinked(mem, k);
    WithoutParts(k, 0);
    TailClass(mem, k, mem');
    DistinctShrink(ix, c, Without(k, 0));
    OtherClasses(mem, mem', ix, c);
    RelinkedChain(mem, mem', ix, c, ix', k[1]);
  }

  /** Unlinking the only chunk of a class: the class goes. */
  lemma RemoveOnly(mem: Memory, ql: int, ix: Index, c: nat, mem': Memory, ql': int)
    requires Linked(mem, ql, ix) && c < |ix| && |ix[c]| == 1
    requires Relinked(mem, mem', ix, c, HeadOf(ix, c + 1)) && ql' == if c == 0 then HeadOf(ix, 1) else ql
    ensures Linked(mem', ql', Removed(ix, c, 0))
  {
    hide NoDup, Apart, Distinct, Chained;
    var ix' := Removed(ix, c, 0);
    DistinctDrop(ix, c);
    OtherClasses(mem, mem', ix, c);
    DroppedAt(ix, c, ix');
    DroppedChain(mem, mem', ix, c);
  }

  lemma DroppedAt(ix: Index, c: nat, ix': Index)
    requires c < |ix| && ix' == ix[..c] + ix[c + 1..]
    ensures |ix'| == |ix| - 1
    ensures forall d :: 0 <= d < c ==> ix'[d] == ix[d]
    ensures forall d :: c <= d < |ix'| ==> ix'[d] == ix[d + 1]
  {
  }

  lemma DroppedChain(mem: Memory, mem': Memory, ix: Index, c: nat)
    requires Chained(mem, ix) && Distinct(ix) && c < |ix| && (forall d :: 0 <= d < |ix| ==> |ix[d]| > 0)
    requires Relinked(mem, mem', ix, c, HeadOf(ix, c + 1))
    ensures Chained(mem', ix[..c] + ix[c + 1..])
  {
    hide NoDup, Apart;
    var ix' := ix[..c] + ix[c + 1..];
    forall d | 0 <= d < |ix'|
      ensures HeadOf(ix', d) in mem' && mem'[HeadOf(ix', d)].nextList == HeadOf(ix', d + 1)
    {
      var e := if d < c then d else d + 1;
      assert ix'[d] == ix[e];
      assert HeadOf(ix, e) in mem && mem[HeadOf(ix, e)].nextList == HeadOf(ix, e + 1);
      HeadsDiffer(mem, ix, c, e);
      if c > 0 && e != c - 1 {
        HeadsDiffer(mem, ix, c - 1, e);
      }
    }
  }

  /** Removal removes exactly one chunk. */
  lemma RemovedMembers(ix: Index, c: nat, j: nat)
    requires Distinct(ix) && c < |ix| && j < |ix[c]|
    ensures forall a :: In(Removed(ix, c, j), a) <==> In(ix, a) && a != ix[c][j]
  {
    var ix' := Removed(ix, c, j);
    WithoutParts(ix[c], j);
    forall a
      ensures In(ix', a) <==> In(ix, a) && a != ix[c][j]
    {
      if In(ix, a) && a != ix[c][j] {
        var d :| 0 <= d < |ix| && a in ix[d];
        var e := if |ix[c]| == 1 && d > c then d - 1 else d;
        assert a in ix'[e];
      }
      if In(ix', a) {
        var e :| 0 <= e < |ix'| && a in ix'[e];
        var d := if |ix[c]| == 1 && e >= c then e + 1 else e;
        assert a in ix[d];
        if d != c {
          OtherClass(ix, c, d);
        }
      }
    }
  }

  lemma RemovedSized(mem: Memory, ix: Index, c: nat, j: nat)
    requires Sized(mem, ix) && Distinct(ix) && c < |ix| && j < |ix[c]|
    ensures Sized(mem, Removed(ix, c, j))
  {
    var ix' := Removed(ix, c, j);
    if |ix[c]| > 1 {
      var w := Without(ix[c], j);
      WithoutParts(ix[c], j);
      assert w[0] in w;
      assert ClassSized(mem, w, SizeOf(mem, ix[c]));
    } else {
      assert forall d :: 0 <= d < |ix'| ==> ix'[d] == ix[if d < c then d else d + 1];
    }
  }

  lemma SizedFrame(mem: Memory, mem': Memory, ix: Index)
    requires Sized(mem, ix) && forall a :: In(ix, a) ==> a in mem' && mem'[a].size == mem[a].size
    ensures Sized(mem', ix)
  {
    forall c | 0 <= c < |ix|
      ensures ix[c][0] in mem' && ClassSized(mem', ix[c], SizeOf(mem, ix[c])) &&
        SizeOf(mem', ix[c]) == SizeOf(mem, ix[c])
    {
      assert forall a :: a in ix[c] ==> In(ix, a);
      assert ix[c][0] in ix[c] && In(ix, ix[c][0]);
    }
  }

  // ---------------------------------------------------------------- insertion

  /** a at the end of class c. */
  ghost function Appended(ix: Index, c: nat, a: int): Index
    requires c < |ix|
  {
    ix[c := ix[c] + [a]]
  }

  /** a as a class of its own before class c. */
  ghost function Inserted(ix: Index, c: nat, a: int): Index
    requires c <= |ix|
  {
    ix[..c] + [[a]] + ix[c..]
  }

  /** a is the last chunk of its class: the one malloc looks at. */
  ghost predicate Newest(ix: Index, a: int) {
    exists c :: 0 <= c < |ix| && LastOf(ix[c], a)
  }

  ghost predicate LastOf(k: Class, a: int) {
    |k| > 0 && k[|k| - 1] == a
  }

  lemma AppendedNewest(ix: Index, c: nat, a: int)
    requires c < |ix|
    ensures Newest(Appended(ix, c, a), a)
  {
    assert LastOf(Appended(ix, c, a)[c], a);
  }

  lemma InsertedNewest(ix: Index, c: nat, a: int)
    requires c <= |ix|
    ensures Newest(Inserted(ix, c, a), a)
  {
    assert LastOf(Inserted(ix, c, a)[c], a);
  }

  lemma AppendedDistinct(ix: Index, c: nat, a: int)
    requires Distinct(ix) && c < |ix| && !In(ix, a)
    ensures Distinct(Appended(ix, c, a))
    ensures forall x :: In(Appended(ix, c, a), x) <==> In(ix, x) || x == a
  {
    var ix' := Appended(ix, c, a);
    assert forall d :: 0 <= d < |ix| ==> a !in ix[d];
    assert a in ix'[c];
    forall x | In(ix, x)
      ensures In(ix', x)
    {
      var d :| 0 <= d < |ix| && x in ix[d];
      assert x in ix'[d];
    }
  }

  /** Where class d of the enlarged index comes from. */
  lemma InsertedAt(ix: Index, c: nat, a: int, ix': Index)
    requires c <= |ix| && ix' == Inserted(ix, c, a)
    ensures |ix'| == |ix| + 1 && ix'[c] == [a]
    ensures forall d :: 0 <= d < c ==> ix'[d] == ix[d]
    ensures forall d :: c < d < |ix'| ==> ix'[d] == ix[d - 1]
  {
  }

  lemma InsertedMembers(ix: Index, c: nat, a: int, x: int)
    requires c <= |ix|
    ensures In(Inserted(ix, c, a), x) <==> In(ix, x) || x == a
  {
    hide Inserted;
    var ix' := Inserted(ix, c, a);
    InsertedAt(ix, c, a, ix');
    assert a in ix'[c];
    if In(ix, x) {
      var d :| 0 <= d < |ix| && x in ix[d];
      assert x in ix'[if d < c then d else d + 1];
    }
  }

  lemma InsertedDistinct(ix: Index, c: nat, a: int)
    requires Distinct(ix) && c <= |ix| && !In(ix, a)
    ensures Distinct(Inserted(ix, c, a))
    ensures forall x :: In(Inserted(ix, c, a), x) <==> In(ix, x) || x == a
  {
    hide Inserted, In, NoDup, Apart;
    var ix' := Inserted(ix, c, a);
    InsertedAt(ix, c, a, ix');
    NotMember(ix, a);
    SingletonClass(a);
    forall d, e | 0 <= d < |ix'| && 0 <= e < |ix'| && d != e
      ensures Apart(ix'[d], ix'[e])
    {
      if d == c {
        SingletonApart(a, ix'[e]);
      } else if e == c {
        SingletonApart(a, ix'[d]);
      }
    }
    forall x {
      InsertedMembers(ix, c, a, x);
    }
  }

  lemma SingletonClass(a: int)
    ensures NoDup([a])
  {
  }

  lemma SingletonApart(a: int, k: Class)
    requires a !in k
    ensures Apart([a], k) && Apart(k, [a])
  {
  }

  /** Linking a behind the last chunk of a class. */
  lemma AppendLinked(mem: Memory, ql: int, ix: Index, c: nat, a: int, mem': Memory)
    requires Linked(mem, ql, ix) && c < |ix| && |ix[c]| > 0 && a > 0 && a in mem && !In(ix, a)
    requires ix[c][|ix[c]| - 1] in mem
    requires mem'.Keys == mem.Keys && forall x :: x in mem && x != a && x != ix[c][|ix[c]| - 1] ==> mem'[x] == mem[x]
    requires mem'[ix[c][|ix[c]| - 1]] == mem[ix[c][|ix[c]| - 1]].(nextChunk := a)
    requires mem'[a].head == ix[c][0] && mem'[a].nextChunk == NULL
    ensures Linked(mem', ql, Appended(ix, c, a))
  {
    hide NoDup, Apart;
    var k, ix' := ix[c], Appended(ix, c, a);
    AppendedDistinct(ix, c, a);
    NotMember(ix, a);
    assert ClassLinked(mem, k);
    AppendClass(mem, k, a, mem');
    ClassesButOne(mem, mem', ix, c, a);
    assert forall d :: 0 <= d < |ix| ==> HeadOf(ix', d) == HeadOf(ix, d);
    forall d | 0 <= d < |ix|
      ensures mem'[HeadOf(ix, d)].nextList == mem[HeadOf(ix, d)].nextList
    {
      assert ClassLinked(mem, ix[d]) && ix[d][0] in ix[d];
    }
    SameChain(mem, mem', ix, ix');
  }

  lemma NotMember(ix: Index, a: int)
    requires !In(ix, a)
    ensures forall d :: 0 <= d < |ix| ==> a !in ix[d]
  {
  }

  lemma AppendClass(mem: Memory, k: Class, a: int, mem': Memory)
    requires ClassLinked(mem, k) && NoDup(k) && a > 0 && a in mem' && a !in k
    requires forall i :: 0 <= i < |k| ==> k[i] in mem' && mem'[k[i]].head == mem[k[i]].head
    requires forall i :: 0 <= i < |k| - 1 ==> mem'[k[i]].nextChunk == mem[k[i]].nextChunk
    requires mem'[k[|k| - 1]].nextChunk == a && mem'[a].head == k[0] && mem'[a].nextChunk == NULL
    ensures ClassLinked(mem', k + [a])
  {
  }

  /** Every class but c, when only chunks of c and a non-member changed their links. */
  lemma ClassesButOne(mem: Memory, mem': Memory, ix: Index, c: nat, a: int)
    requires Distinct(ix) && c < |ix| && (forall d :: 0 <= d < |ix| ==> ClassLinked(mem, ix[d]) && a !in ix[d])
    requires forall x :: x in mem && x !in ix[c] && x != a ==>
      x in mem' && mem'[x].head == mem[x].head && mem'[x].nextChunk == mem[x].nextChunk
    ensures forall d :: 0 <= d < |ix| && d != c ==> ClassLinked(mem', ix[d])
  {
    forall d | 0 <= d < |ix| && d != c
      ensures ClassLinked(mem', ix[d])
    {
      OtherClass(ix, c, d);
      assert ClassLinked(mem, ix[d]);
      ClassFrame(mem, mem', ix[d]);
    }
  }

  /** Linking a as a new class between the heads of classes c-1 and c. */
  lemma InsertLinked(mem: Memory, ql: int, ix: Index, c: nat, a: int, mem': Memory, ql': int)
    requires Linked(mem, ql, ix) && c <= |ix| && a > 0 && a in mem && !In(ix, a)
    requires mem'.Keys == mem.Keys
    requires forall x :: x in mem && x != a && !(c > 0 && x == HeadOf(ix, c - 1)) ==> mem'[x] == mem[x]
    requires c > 0 ==> HeadOf(ix, c - 1) in mem && mem'[HeadOf(ix, c - 1)] == mem[HeadOf(ix, c - 1)].(nextList := a)
    requires mem'[a].head == a && mem'[a].nextChunk == NULL && mem'[a].nextList == HeadOf(ix, c)
    requires ql' == if c == 0 then a else ql
    ensures Linked(mem', ql', Inserted(ix, c, a))
  {
    hide NoDup, Apart, ClassLinked, Chained, Distinct, In, Inserted;
    var ix' := Inserted(ix, c, a);
    InsertedDistinct(ix, c, a);
    NotMember(ix, a);
    InsertedAt(ix, c, a, ix');
    forall d | 0 <= d < |ix|
      ensures ClassLinked(mem', ix[d]) && |ix[d]| > 0
    {
      ClassLinks(mem, ix[d]);
      ClassFrame(mem, mem', ix[d]);
    }
    OneChunk(mem', a);
    InsertedChain(mem, mem', ix, c, a);
    assert ql' == HeadOf(ix', 0);
  }

  lemma ClassLinks(mem: Memory, k: Class)
    requires ClassLinked(mem, k)
    ensures |k| > 0 && forall x :: x in k ==> x in mem
  {
  }

  lemma OneChunk(mem: Memory, a: int)
    requires a > 0 && a in mem && mem[a].head == a && mem[a].nextChunk == NULL
    ensures ClassLinked(mem, [a])
  {
  }

  lemma InsertedChain(mem: Memory, mem': Memory, ix: Index, c: nat, a: int)
    requires Chained(mem, ix) && Distinct(ix) && c <= |ix| && a in mem
    requires forall d :: 0 <= d < |ix| ==> |ix[d]| > 0 && a !in ix[d]
    requires mem'.Keys == mem.Keys
    requires forall x :: x in mem && x != a && !(c > 0 && x == HeadOf(ix, c - 1)) ==> mem'[x] == mem[x]
    requires c > 0 ==> HeadOf(ix, c - 1) in mem && mem'[HeadOf(ix, c - 1)] == mem[HeadOf(ix, c - 1)].(nextList := a)
    requires mem'[a].nextList == HeadOf(ix, c)
    ensures Chained(mem', Inserted(ix, c, a))
  {
    hide NoDup, Apart, Inserted;
    var ix' := Inserted(ix, c, a);
    InsertedAt(ix, c, a, ix');
    forall d | 0 <= d < |ix'|
      ensures HeadOf(ix', d) in mem' && mem'[HeadOf(ix', d)].nextList == HeadOf(ix', d + 1)
    {
      if d != c {
        var e := if d < c then d else d - 1;
        assert HeadOf(ix, e) in mem && mem[HeadOf(ix, e)].nextList == HeadOf(ix, e + 1);
        assert ix[e][0] in ix[e];
        if c > 0 && e != c - 1 {
          HeadsDiffer(mem, ix, c - 1, e);
        }
      }
    }
  }

  lemma AppendedSized(mem: Memory, ix: Index, c: nat, a: int)
    requires Sized(mem, ix) && c < |ix| && a in mem && mem[a].size == SizeOf(mem, ix[c])
    ensures Sized(mem, Appended(ix, c, a))
  {
  }

  lemma InsertedSized(mem: Memory, ix: Index, c: nat, a: int)
    requires Sized(mem, ix) && c <= |ix| && a in mem
    requires forall d :: 0 <= d < c ==> SizeOf(mem, ix[d]) < mem[a].size
    requires forall d :: c <= d < |ix| ==> SizeOf(mem, ix[d]) > mem[a].size
    ensures Sized(mem, Inserted(ix, c, a))
  {
    var ix' := Inserted(ix, c, a);
    assert forall d :: 0 <= d < |ix'| ==> ix'[d] == if d < c then ix[d] else if d == c then [a] else ix[d - 1];
  }

  lemma MembersInMemory(mem: Memory, ql: int, ix: Index)
    requires Linked(mem, ql, ix)
    ensures forall a :: In(ix, a) ==> a in mem && a > 0
  {
    forall a | In(ix, a)
      ensures a in mem && a > 0
    {
      var c :| 0 <= c < |ix| && a in ix[c];
      assert ClassLinked(mem, ix[c]);
    }
  }

  /** Changes outside the index do not disturb it. */
  lemma LinkedOutside(mem: Memory, mem': Memory, ql: int, ix: Index)
    requires Linked(mem, ql, ix) && forall a :: In(ix, a) ==> a in mem' && mem'[a] == mem[a]
    ensures Linked(mem', ql, ix)
  {
    forall c | 0 <= c < |ix|
      ensures ClassLinked(mem', ix[c])
      ensures HeadOf(ix, c) in mem' && mem'[HeadOf(ix, c)].nextList == HeadOf(ix, c + 1)
    {
      assert ClassLinked(mem, ix[c]);
      assert forall a :: a in ix[c] ==> In(ix, a);
      ClassFrame(mem, mem', ix[c]);
      assert ix[c][0] in ix[c] && In(ix, ix[c][0]);
      assert mem[HeadOf(ix, c)].nextList == HeadOf(ix, c + 1);
    }
  }

  ghost predicate SameLinks(h: Header, h': Header) {
    h'.nextList == h.nextList && h'.nextChunk == h.nextChunk && h'.head == h.head
  }

  /** Linking does not depend on the data fields. */
  lemma LinkedByLinks(mem: Memory, mem': Memory, ql: int, ix: Index)
    requires Linked(mem, ql, ix) && mem'.Keys == mem.Keys && forall a :: a in mem ==> SameLinks(mem[a], mem'[a])
    ensures Linked(mem', ql, ix)
  {
    forall c | 0 <= c < |ix|
      ensures ClassLinked(mem', ix[c])
      ensures HeadOf(ix, c) in mem' && mem'[HeadOf(ix, c)].nextList == HeadOf(ix, c + 1)
    {
      assert ClassLinked(mem, ix[c]);
      forall a | a in ix[c]
        ensures a in mem' && mem'[a].head == mem[a].head && mem'[a].nextChunk == mem[a].nextChunk
      {
        assert a in mem && SameLinks(mem[a], mem'[a]);
      }
      ClassFrame(mem, mem', ix[c]);
      var h := HeadOf(ix, c);
      assert h in mem && mem[h].nextList == HeadOf(ix, c + 1) && SameLinks(mem[h], mem'[h]);
    }
  }
}
