/** The kernel heap: a first-fit list of blocks behind 12-byte headers, split on
    allocation and fully coalesced on free. */
module KernelHeap {
  import opened Numbers
  import opened Tiles

  const HEADER: nat := 12
  const MIN_REST: nat := 16

  /** A block is split when a header and MIN_REST bytes remain. */
  const SLACK: nat := HEADER + MIN_REST - 1

  // ------------------------------------------------------------------
  // Specification on block lists. Owner 1 stands for "in use".
  // ------------------------------------------------------------------

  /** Rounding up to a multiple of four in 32-bit arithmetic. */
  function Align4(size: nat): nat
    requires size < WORD32
  {
    var s := if size + 3 >= WORD32 then size + 3 - WORD32 else size + 3;
    s / 4 * 4
  }

  predicate WellSized(b: Block) {
    b.size % 4 == 0 && b.owner <= 1
  }

  predicate AllSized(bs: seq<Block>) {
    forall i | 0 <= i < |bs| :: WellSized(bs[i])
  }

  predicate WfHeap(root: nat, top: nat, bs: seq<Block>) {
    && 16 <= root && root % 4 == 0 && top < WORD32 && bs != []
    && Tiled(HEADER, root, top, bs)
    && NoFreeNeighbours(bs)
    && AllSized(bs)
  }

  /** The pointer handed out for a block. */
  function Data(b: Block): nat { b.start + HEADER }

  function AfterMalloc(bs: seq<Block>, size: nat): seq<Block>
    requires size < WORD32
  {
    var i := FirstFit(bs, Align4(size));
    if size == 0 || i == |bs| then bs
    else Replace(bs, i, 1, Carve(HEADER, SLACK, bs[i], Align4(size), 1))
  }

  /** The pointer malloc returns; 0 is failure. */
  function MallocResult(bs: seq<Block>, size: nat): nat
    requires size < WORD32
  {
    var i := FirstFit(bs, Align4(size));
    if size == 0 || i == |bs| then 0 else Data(bs[i])
  }

  predicate LiveAt(bs: seq<Block>, i: nat, ptr: nat) {
    i < |bs| && !bs[i].Free() && Data(bs[i]) == ptr
  }

  function AfterFree(bs: seq<Block>, i: nat): seq<Block>
    requires i < |bs|
  {
    Coalesce(HEADER, bs[i := bs[i].(owner := 0)])
  }

  // ------------------------------------------------------------------
  // The list in memory
  // ------------------------------------------------------------------

  /** A header as it sits in front of its block. `next` 0 ends the list. */
  datatype Header = Header(size: nat, free: bool, next: nat)

  /** Memory holds exactly the headers of the blocks, linked in address order. */
  ghost predicate Linked(hdrs: map<nat, Header>, bs: seq<Block>) {
    forall i {:trigger hdrs[bs[i].start]} {:trigger bs[i].start in hdrs} | 0 <= i < |bs| ::
      bs[i].start in hdrs &&
      hdrs[bs[i].start] == Header(bs[i].size, bs[i].Free(), StartOf(0, bs, i + 1))
  }

  lemma StartsDiffer(root: nat, top: nat, bs: seq<Block>)
    requires Tiled(HEADER, root, top, bs)
    ensures forall i, j | 0 <= i < |bs| && 0 <= j < |bs| && i != j :: bs[i].start != bs[j].start
  {
    forall i, j | 0 <= i < |bs| && 0 <= j < |bs| && i != j ensures bs[i].start != bs[j].start {
      if i < j { TiledOrder(HEADER, root, top, bs, i, j); } else { TiledOrder(HEADER, root, top, bs, j, i); }
    }
  }

  class Heap {
    var hdrs: map<nat, Header>
    var heapStart: nat
    ghost var top: nat
    ghost var blocks: seq<Block>

    ghost predicate Valid()
      reads this
    {
      WfHeap(heapStart, top, blocks) && Linked(hdrs, blocks)
    }

    /** The start is aligned upwards, the size downwards. */
    constructor (start: nat, size: nat)
      requires start > 12 && size / 4 * 4 >= HEADER && (start + 3) / 4 * 4 + size < WORD32
      ensures Valid()
      ensures heapStart == (start + 3) / 4 * 4 && top == heapStart + size / 4 * 4
      ensures blocks == [Block(heapStart, top - heapStart - HEADER, 0)]
    {
      var s := (start + 3) / 4 * 4;
      var n := size - size % 4;
      heapStart := s;
      hdrs := map[s := Header(n - HEADER, true, 0)];
      top := s + n;
      blocks := [Block(s, n - HEADER, 0)];
    }

    method Kmalloc(size: nat) returns (ptr: nat)
      requires Valid() && size < WORD32
      modifies this
      ensures Valid() && heapStart == old(heapStart) && top == old(top)
      ensures blocks == AfterMalloc(old(blocks), size)
      ensures ptr == MallocResult(old(blocks), size)
    {
      if size == 0 {
        return 0;
      }
      var want := Align4(size);
      ghost var k := 0;
      var curr := heapStart;
      while curr != 0
        invariant Valid() && blocks == old(blocks) && hdrs == old(hdrs) && heapStart == old(heapStart)
                  && top == old(top)
        invariant 0 <= k <= |blocks| && curr == StartOf(0, blocks, k)
        invariant forall j | 0 <= j < k :: !Fits(blocks[j], want)
        decreases |blocks| - k
      {
        assert k < |blocks| && curr in hdrs;
        var h := hdrs[curr];
        if h.free && h.size >= want {
          FirstFitIs(blocks, want, k);
          MallocKeeps(heapStart, top, blocks, size);
          ghost var before := blocks;
          if h.size >= want + HEADER + MIN_REST {
            var rest := curr + HEADER + want;
            hdrs := hdrs[rest := Header(h.size - want - HEADER, true, h.next)][curr := Header(want, false, rest)];
          } else {
            hdrs := hdrs[curr := h.(free := false)];
          }
          blocks := AfterMalloc(blocks, size);
          CarveLinked(heapStart, top, before, k, want, old(hdrs), hdrs);
          return curr + HEADER;
        }
        curr := h.next;
        k := k + 1;
      }
      StartsPositive(heapStart, top, blocks);
      FirstFitIs(blocks, want, |blocks|);
      ptr := 0;
    }

    /** Mark the block free, then merge every pair of free neighbours. */
    method Kfree(ptr: nat, ghost i: nat)
      requires Valid() && (ptr != 0 ==> LiveAt(blocks, i, ptr))
      modifies this
      ensures Valid() && heapStart == old(heapStart) && top == old(top)
      ensures blocks == if ptr == 0 then old(blocks) else AfterFree(old(blocks), i)
    {
      if ptr == 0 {
        return;
      }
      var header := ptr - HEADER;
      assert header == blocks[i].start && header in hdrs;
      hdrs := hdrs[header := hdrs[header].(free := true)];
      MarkFree(heapStart, top, blocks, i, old(hdrs), hdrs);
      blocks := blocks[i := blocks[i].(owner := 0)];
      MergeNeighbours();
    }

    /** The merging loop of free. */
    method MergeNeighbours()
      requires Sound(heapStart, top, blocks) && Linked(hdrs, blocks)
      modifies this
      ensures Sound(heapStart, top, blocks) && Linked(hdrs, blocks)
      ensures heapStart == old(heapStart) && top == old(top)
      ensures NoFreeNeighbours(blocks) && blocks == Coalesce(HEADER, old(blocks))
    {
      ghost var k := 0;
      var curr := heapStart;
      while curr != 0
        invariant Sound(heapStart, top, blocks) && Linked(hdrs, blocks)
        invariant heapStart == old(heapStart) && top == old(top)
        invariant Coalesce(HEADER, blocks) == Coalesce(HEADER, old(blocks))
        invariant 0 <= k <= |blocks| && curr == StartOf(0, blocks, k)
        invariant Merged(blocks, k)
        decreases |blocks| - k
      {
        StartsPositive(heapStart, top, blocks);
        assert k < |blocks| && curr in hdrs;
        var h := hdrs[curr];
        if h.next != 0 {
          assert blocks[k + 1].start in hdrs;
        }
        if h.free && h.next != 0 && hdrs[h.next].free {
          ghost var before, was := blocks, hdrs;
          hdrs := hdrs[curr := Header(h.size + HEADER + hdrs[h.next].size, true, hdrs[h.next].next)];
          blocks := Replace(blocks, k, 2, [Merge(HEADER, blocks[k], blocks[k + 1])]);
          MergeSound(heapStart, top, before, k);
          MergeLinked(heapStart, top, before, k, was, hdrs);
          MergedAfterMerge(HEADER, before, k);
        } else {
          MergedStep(blocks, k);
          curr := h.next;
          k := k + 1;
        }
      }
      StartsPositive(heapStart, top, blocks);
      assert NoFreeNeighbours(blocks);
      CoalesceFixed(HEADER, blocks);
    }
  }

  // ------------------------------------------------------------------
  // Steps of malloc on the list
  // ------------------------------------------------------------------

  lemma StartsPositive(root: nat, top: nat, bs: seq<Block>)
    requires Tiled(HEADER, root, top, bs) && root > 0
    ensures forall i | 0 <= i < |bs| :: bs[i].start > 0
  {
    forall i | 0 <= i < |bs| ensures bs[i].start > 0 {
      TiledAt(HEADER, root, top, bs, i);
    }
  }

  lemma MallocKeeps(root: nat, top: nat, bs: seq<Block>, size: nat)
    requires WfHeap(root, top, bs) && size < WORD32
    ensures WfHeap(root, top, AfterMalloc(bs, size))
  {
    var want := Align4(size);
    var i := FirstFit(bs, want);
    if size != 0 && i < |bs| {
      var c := Carve(HEADER, SLACK, bs[i], want, 1);
      TiledAt(HEADER, root, top, bs, i);
      CarveTiled(HEADER, SLACK, bs[i], want, 1);
      ReplaceTiled(HEADER, root, top, bs, i, 1, c);
      CarveKeepsGaps(bs, i, c);
      CarveSizes(bs[i], want);
      var r := Replace(bs, i, 1, c);
      forall j | 0 <= j < |r| ensures WellSized(r[j]) {
        assert r[j] in c || r[j] == bs[if j < i then j else j - |c| + 1];
      }
    }
  }

  lemma CarveSizes(b: Block, want: nat)
    requires WellSized(b) && want % 4 == 0 && want <= b.size
    ensures forall c | c in Carve(HEADER, SLACK, b, want, 1) :: WellSized(c)
  {
  }

  lemma CarveKeepsGaps(bs: seq<Block>, i: nat, c: seq<Block>)
    requires NoFreeNeighbours(bs) && i < |bs| && bs[i].Free()
    requires 1 <= |c| <= 2 && !c[0].Free() && (|c| == 2 ==> c[1].Free())
    ensures NoFreeNeighbours(Replace(bs, i, 1, c))
  {
    var r := Replace(bs, i, 1, c);
    var d := |c| - 1;
    forall j | 1 <= j < |r| ensures !FreePair(r, j) {
      if j < i {
        assert r[j] == bs[j] && r[j - 1] == bs[j - 1] && !FreePair(bs, j);
      } else if j > i + d {
        assert r[j] == bs[j - d] && !FreePair(bs, j - d);
        if j - 1 > i + d {
          assert r[j - 1] == bs[j - d - 1];
        }
      }
    }
  }

  /** Rewriting one or two headers for a carved block leaves the list linked. */
  lemma CarveLinked(root: nat, top: nat, bs: seq<Block>, k: nat, want: nat, m: map<nat, Header>, m': map<nat, Header>)
    requires Tiled(HEADER, root, top, bs) && Linked(m, bs) && k < |bs| && bs[k].Free() && bs[k].size >= want
    requires m' == (if bs[k].size > want + SLACK then
                      m[bs[k].start + HEADER + want := Header(bs[k].size - want - HEADER, true, StartOf(0, bs, k + 1))]
                       [bs[k].start := Header(want, false, bs[k].start + HEADER + want)]
                    else m[bs[k].start := Header(bs[k].size, false, StartOf(0, bs, k + 1))])
    ensures Linked(m', Replace(bs, k, 1, Carve(HEADER, SLACK, bs[k], want, 1)))
  {
    var c := Carve(HEADER, SLACK, bs[k], want, 1);
    var r := Replace(bs, k, 1, c);
    var d := |c| - 1;
    forall i | 0 <= i < |r|
      ensures r[i].start in m' && m'[r[i].start] == Header(r[i].size, r[i].Free(), StartOf(0, r, i + 1))
    {
      if i < k {
        TiledOrder(HEADER, root, top, bs, i, k);
        assert r[i] == bs[i] && bs[i].start in m && r[i + 1].start == bs[i + 1].start;
      } else if i > k + d {
        TiledOrder(HEADER, root, top, bs, k, i - d);
        assert r[i] == bs[i - d] && bs[i - d].start in m;
        assert StartOf(0, r, i + 1) == StartOf(0, bs, i - d + 1);
      } else {
        assert bs[k].start in m;
        assert StartOf(0, r, k + d + 1) == StartOf(0, bs, k + 1);
      }
    }
  }

  // ------------------------------------------------------------------
  // Steps of free on the list
  // ------------------------------------------------------------------

  /** What holds of the list while free is still merging it. */
  predicate Sound(root: nat, top: nat, bs: seq<Block>) {
    && 16 <= root && root % 4 == 0 && top < WORD32 && bs != []
    && Tiled(HEADER, root, top, bs)
    && AllSized(bs)
  }

  lemma MarkFree(root: nat, top: nat, bs: seq<Block>, i: nat, m: map<nat, Header>, m': map<nat, Header>)
    requires Sound(root, top, bs) && Linked(m, bs) && i < |bs| && bs[i].start in m
    requires m' == m[bs[i].start := m[bs[i].start].(free := true)]
    ensures var f := bs[i := bs[i].(owner := 0)]; Sound(root, top, f) && Linked(m', f)
  {
    var f := bs[i := bs[i].(owner := 0)];
    TiledAt(HEADER, root, top, bs, i);
    TiledOne(HEADER, f[i]);
    ReplaceTiled(HEADER, root, top, bs, i, 1, [f[i]]);
    assert f == Replace(bs, i, 1, [f[i]]);
    StartsDiffer(root, top, bs);
    forall j | 0 <= j < |f|
      ensures f[j].start in m' && m'[f[j].start] == Header(f[j].size, f[j].Free(), StartOf(0, f, j + 1))
    {
      assert bs[j].start in m && f[j].start == bs[j].start;
      assert StartOf(0, f, j + 1) == StartOf(0, bs, j + 1);
    }
  }

  lemma MergeSound(root: nat, top: nat, bs: seq<Block>, k: nat)
    requires Sound(root, top, bs) && k + 1 < |bs| && bs[k].Free() && bs[k + 1].Free()
    ensures var m := Replace(bs, k, 2, [Merge(HEADER, bs[k], bs[k + 1])]);
            Sound(root, top, m) && Coalesce(HEADER, m) == Coalesce(HEADER, bs)
  {
    CoalesceAfterMerge(HEADER, root, top, bs, k);
    var m := Replace(bs, k, 2, [Merge(HEADER, bs[k], bs[k + 1])]);
    forall i | 0 <= i < |m| ensures WellSized(m[i]) {
      assert WellSized(bs[k]) && WellSized(bs[k + 1]);
      assert i != k ==> m[i] == bs[if i < k then i else i + 1];
    }
  }

  lemma MergeLinked(root: nat, top: nat, bs: seq<Block>, k: nat, m: map<nat, Header>, m': map<nat, Header>)
    requires Sound(root, top, bs) && Linked(m, bs) && k + 1 < |bs| && bs[k].Free() && bs[k + 1].Free()
    requires m' == m[bs[k].start := Header(bs[k].size + HEADER + bs[k + 1].size, true, StartOf(0, bs, k + 2))]
    ensures Linked(m', Replace(bs, k, 2, [Merge(HEADER, bs[k], bs[k + 1])]))
  {
    var r := Replace(bs, k, 2, [Merge(HEADER, bs[k], bs[k + 1])]);
    StartsDiffer(root, top, bs);
    forall i | 0 <= i < |r|
      ensures r[i].start in m' && m'[r[i].start] == Header(r[i].size, r[i].Free(), StartOf(0, r, i + 1))
    {
      if i < k {
        assert r[i] == bs[i] && bs[i].start in m && r[i + 1].start == bs[i + 1].start;
      } else if i > k {
        assert r[i] == bs[i + 1] && bs[i + 1].start in m;
        assert StartOf(0, r, i + 1) == StartOf(0, bs, i + 2);
      } else {
        assert StartOf(0, r, k + 1) == StartOf(0, bs, k + 2);
      }
    }
  }

  // ------------------------------------------------------------------
  // Whole runs
  // ------------------------------------------------------------------

  lemma FreeKeeps(root: nat, top: nat, bs: seq<Block>, i: nat)
    requires WfHeap(root, top, bs) && i < |bs|
    ensures WfHeap(root, top, AfterFree(bs, i))
  {
    var f := bs[i := bs[i].(owner := 0)];
    TiledAt(HEADER, root, top, bs, i);
    TiledOne(HEADER, f[i]);
    ReplaceTiled(HEADER, root, top, bs, i, 1, [f[i]]);
    assert f == Replace(bs, i, 1, [f[i]]);
    CoalesceTiled(HEADER, root, top, f);
    CoalesceSizes(f);
  }

  lemma MergeSized(a: Block, b: Block)
    requires WellSized(a) && WellSized(b)
    ensures WellSized(Merge(HEADER, a, b))
  {
  }

  lemma {:induction false} CoalesceSizes(bs: seq<Block>)
    requires AllSized(bs)
    ensures AllSized(Coalesce(HEADER, bs))
    decreases |bs|
  {
    if |bs| <= 1 {
    } else if bs[0].Free() && bs[1].Free() {
      assert WellSized(bs[0]) && WellSized(bs[1]);
      MergeSized(bs[0], bs[1]);
      var m := [Merge(HEADER, bs[0], bs[1])] + bs[2..];
      forall i | 0 <= i < |m| ensures WellSized(m[i]) {
        assert i > 0 ==> m[i] == bs[i + 1];
      }
      CoalesceSizes(m);
      assert Coalesce(HEADER, bs) == Coalesce(HEADER, m);
    } else {
      CoalesceSizes(bs[1..]);
    }
  }

  /** The layout is a function of the live blocks: everything else is one free
      block per gap. So equal sets of live blocks mean equal heaps. */
  lemma HeapIsCanonical(root: nat, top: nat, bs: seq<Block>)
    requires WfHeap(root, top, bs)
    ensures bs == Fill(HEADER, root, top, Kept(bs, 0))
  {
    CoalesceFixed(HEADER, bs);
    CoalesceIsFill(HEADER, root, top, bs);
  }

  /** The live blocks are those around block i, once i is free. */
  lemma KeptAround(bs: seq<Block>, i: nat)
    requires i < |bs| && bs[i].Free()
    ensures Kept(bs, 0) == Kept(bs[..i], 0) + Kept(bs[i + 1..], 0)
  {
    assert bs == bs[..i] + bs[i..] && bs[i..][1..] == bs[i + 1..];
    KeptConcat(bs[..i], bs[i..], 0);
  }

  lemma KeptAfterFree(root: nat, top: nat, bs: seq<Block>, i: nat)
    requires WfHeap(root, top, bs) && i < |bs|
    ensures Kept(AfterFree(bs, i), 0) == Kept(bs[..i], 0) + Kept(bs[i + 1..], 0)
  {
    var f := bs[i := bs[i].(owner := 0)];
    TiledAt(HEADER, root, top, bs, i);
    TiledOne(HEADER, f[i]);
    ReplaceTiled(HEADER, root, top, bs, i, 1, [f[i]]);
    assert f == Replace(bs, i, 1, [f[i]]);
    CoalesceTiled(HEADER, root, top, f);
    KeptAround(f, i);
    assert f[..i] == bs[..i] && f[i + 1..] == bs[i + 1..];
  }

  /** Freeing a block that malloc just returned restores the exact list. */
  lemma MallocFreeRestores(root: nat, top: nat, bs: seq<Block>, size: nat)
    requires WfHeap(root, top, bs) && size < WORD32 && MallocResult(bs, size) != 0
    ensures var i := FirstFit(bs, Align4(size));
            && LiveAt(AfterMalloc(bs, size), i, MallocResult(bs, size))
            && AfterFree(AfterMalloc(bs, size), i) == bs
  {
    var i := FirstFit(bs, Align4(size));
    var m := AfterMalloc(bs, size);
    var c := Carve(HEADER, SLACK, bs[i], Align4(size), 1);
    MallocKeeps(root, top, bs, size);
    FreeKeeps(root, top, m, i);
    assert Kept(m[i + 1..], 0) == Kept(bs[i + 1..], 0) by {
      if |c| == 2 {
        assert m[i + 1..] == [c[1]] + bs[i + 1..];
      } else {
        assert m[i + 1..] == bs[i + 1..];
      }
    }
    assert m[..i] == bs[..i];
    KeptAround(bs, i);
    KeptAfterFree(root, top, m, i);
    HeapIsCanonical(root, top, bs);
    HeapIsCanonical(root, top, AfterFree(m, i));
  }

  // ------------------------------------------------------------------
  // The live blocks determine the heap
  // ------------------------------------------------------------------

  function Live(bs: seq<Block>): set<Block> { set b | b in bs && !b.Free() }

  /** Blocks in increasing address order. */
  predicate Ordered(bs: seq<Block>) {
    forall i, j | 0 <= i < j < |bs| :: bs[i].start < bs[j].start
  }

  lemma TiledOrdered(root: nat, top: nat, bs: seq<Block>)
    requires Tiled(HEADER, root, top, bs)
    ensures Ordered(bs)
  {
    forall i, j | 0 <= i < j < |bs| ensures bs[i].start < bs[j].start {
      TiledOrder(HEADER, root, top, bs, i, j);
    }
  }

  lemma {:induction false} KeptOrdered(bs: seq<Block>)
    requires Ordered(bs)
    ensures Ordered(Kept(bs, 0)) && forall b :: b in Kept(bs, 0) <==> b in Live(bs)
  {
    if bs != [] {
      var rest := bs[1..];
      assert Ordered(rest) by {
        forall i, j | 0 <= i < j < |rest| ensures rest[i].start < rest[j].start {
          assert bs[i + 1].start < bs[j + 1].start;
        }
      }
      KeptOrdered(rest);
      forall b ensures b in Kept(bs, 0) <==> b in Live(bs) {
        KeptMember(bs, 0, b);
      }
      var k, k' := Kept(bs, 0), Kept(rest, 0);
      forall i, j | 0 <= i < j < |k| ensures k[i].start < k[j].start {
        if !bs[0].Free() {
          assert k[j] == k'[j - 1] && k'[j - 1] in k';
          KeptMember(rest, 0, k[j]);
          var n :| 0 <= n < |rest| && rest[n] == k[j];
          assert bs[n + 1] == k[j];
          assert i > 0 ==> k[i] == k'[i - 1];
        }
      }
    }
  }

  lemma EmptyOrNot(b: seq<Block>)
    ensures b == [] || exists x :: x in b
  {
    if b != [] {
      assert b[0] in b;
    }
  }

  lemma FirstIsLeast(a: seq<Block>, b: seq<Block>)
    requires Ordered(a) && a != [] && b != [] && b[0] in a
    ensures a[0].start <= b[0].start && (a[0].start == b[0].start ==> a[0] == b[0])
  {
  }

  lemma {:induction false} OrderedUnique(a: seq<Block>, b: seq<Block>)
    requires Ordered(a) && Ordered(b) && forall x :: x in a <==> x in b
    ensures a == b
    decreases |a|
  {
    if a == [] {
      EmptyOrNot(b);
    } else {
      assert a[0] in b && b[0] in a;
      FirstIsLeast(a, b);
      FirstIsLeast(b, a);
      forall x ensures x in a[1..] <==> x in b[1..] {
        InRest(a, x);
        InRest(b, x);
      }
      InRest(a, a[0]);
      InRest(b, b[0]);
      OrderedUnique(a[1..], b[1..]);
      assert a == [a[0]] + a[1..] && b == [b[0]] + b[1..];
    }
  }

  lemma InRest(s: seq<Block>, x: Block)
    requires Ordered(s) && s != []
    ensures x in s[1..] <==> x in s && x != s[0]
    ensures Ordered(s[1..])
  {
  }

  /** Two heaps over the same memory with the same live blocks are the same. */
  lemma LiveDetermines(root: nat, top: nat, a: seq<Block>, b: seq<Block>)
    requires WfHeap(root, top, a) && WfHeap(root, top, b) && Live(a) == Live(b)
    ensures a == b
  {
    TiledOrdered(root, top, a);
    TiledOrdered(root, top, b);
    KeptOrdered(a);
    KeptOrdered(b);
    OrderedUnique(Kept(a, 0), Kept(b, 0));
    HeapIsCanonical(root, top, a);
    HeapIsCanonical(root, top, b);
  }

  /** The block malloc hands out. */
  function Granted(bs: seq<Block>, size: nat): Block
    requires size < WORD32 && MallocResult(bs, size) != 0
  {
    var i := FirstFit(bs, Align4(size));
    Carve(HEADER, SLACK, bs[i], Align4(size), 1)[0]
  }

  /** Malloc adds one live block and leaves the others. */
  lemma MallocLive(root: nat, top: nat, bs: seq<Block>, size: nat)
    requires WfHeap(root, top, bs) && size < WORD32 && MallocResult(bs, size) != 0
    ensures var b := Granted(bs, size);
            && Data(b) == MallocResult(bs, size) && Align4(size) <= b.size
            && Live(AfterMalloc(bs, size)) == Live(bs) + {b}
            && (forall c | c in Live(bs) :: Data(c) != Data(b))
  {
    var i := FirstFit(bs, Align4(size));
    var c := Carve(HEADER, SLACK, bs[i], Align4(size), 1);
    var m := AfterMalloc(bs, size);
    var front, back := bs[..i], bs[i + 1..];
    assert m == front + c + back && bs == front + [bs[i]] + back;
    assert c == [c[0]] || c == [c[0], c[1]];
    forall b ensures b in Live(m) <==> b in Live(bs) || b == c[0] {
      assert b in c <==> b == c[0] || (|c| == 2 && b == c[1]);
    }
    StartsDiffer(root, top, bs);
    forall b | b in Live(bs) ensures Data(b) != Data(c[0]) {
      var j :| 0 <= j < |bs| && bs[j] == b;
      assert j != i;
    }
  }

  /** Free removes one live block and leaves the others. */
  lemma FreeLive(root: nat, top: nat, bs: seq<Block>, i: nat)
    requires WfHeap(root, top, bs) && i < |bs| && !bs[i].Free()
    ensures Live(AfterFree(bs, i)) == Live(bs) - {bs[i]}
  {
    var r := AfterFree(bs, i);
    KeptAfterFree(root, top, bs, i);
    StartsDiffer(root, top, bs);
    forall b ensures b in Live(r) <==> b in Live(bs) && b != bs[i] {
      KeptMember(r, 0, b);
      KeptMember(bs[..i], 0, b);
      KeptMember(bs[i + 1..], 0, b);
      if b in Live(bs) && b != bs[i] {
        var j :| 0 <= j < |bs| && bs[j] == b;
        assert j < i ==> bs[..i][j] == b;
        assert j > i ==> bs[i + 1..][j - i - 1] == b;
      }
    }
  }

  datatype Op = Malloc(size: nat) | Free(ptr: nat)

  /** Index of the live block with data pointer ptr, or the length. */
  function LiveIndex(bs: seq<Block>, ptr: nat): (i: nat)
    ensures i <= |bs| && (i < |bs| ==> LiveAt(bs, i, ptr))
    ensures i == |bs| ==> forall j | 0 <= j < |bs| :: !LiveAt(bs, j, ptr)
  {
    if bs == [] then 0
    else if LiveAt(bs, 0, ptr) then 0
    else
      var r := LiveIndex(bs[1..], ptr);
      assert forall j | 1 <= j < |bs| :: bs[j] == bs[1..][j - 1] && LiveAt(bs, j, ptr) == LiveAt(bs[1..], j - 1, ptr);
      1 + r
  }

  /** A run of calls. Freeing a pointer that is not live is outside the contract
      of free and stands for no call here. */
  function Run(bs: seq<Block>, ops: seq<Op>): seq<Block>
    decreases |ops|
  {
    if ops == [] then bs
    else
      match ops[0]
      case Malloc(size) => Run(if size < WORD32 then AfterMalloc(bs, size) else bs, ops[1..])
      case Free(ptr) =>
        var i := LiveIndex(bs, ptr);
        Run(if i < |bs| then AfterFree(bs, i) else bs, ops[1..])
  }

  lemma {:induction false} RunWf(root: nat, top: nat, bs: seq<Block>, ops: seq<Op>)
    requires WfHeap(root, top, bs)
    ensures WfHeap(root, top, Run(bs, ops))
    decreases |ops|
  {
    if ops != [] {
      match ops[0]
      case Malloc(size) =>
        if size < WORD32 {
          MallocKeeps(root, top, bs, size);
          RunWf(root, top, AfterMalloc(bs, size), ops[1..]);
        } else {
          RunWf(root, top, bs, ops[1..]);
        }
      case Free(ptr) =>
        var i := LiveIndex(bs, ptr);
        if i < |bs| {
          FreeKeeps(root, top, bs, i);
          RunWf(root, top, AfterFree(bs, i), ops[1..]);
        } else {
          RunWf(root, top, bs, ops[1..]);
        }
    }
  }

  /** Every run keeps the heap tiled, four-aligned and fully coalesced, and the
      live blocks 4-aligned and pairwise disjoint. */
  lemma RunKeepsHeap(root: nat, top: nat, bs: seq<Block>, ops: seq<Op>)
    requires WfHeap(root, top, bs)
    ensures var r := Run(bs, ops);
            && WfHeap(root, top, r)
            && r == Fill(HEADER, root, top, Kept(r, 0))
            && (forall i | 0 <= i < |r| :: Data(r[i]) % 4 == 0)
            && (forall i, j | 0 <= i < j < |r| :: Data(r[i]) + r[i].size <= r[j].start)
  {
    RunWf(root, top, bs, ops);
    HeapLayout(root, top, Run(bs, ops));
  }

  lemma HeapLayout(root: nat, top: nat, r: seq<Block>)
    requires WfHeap(root, top, r)
    ensures r == Fill(HEADER, root, top, Kept(r, 0))
    ensures forall i | 0 <= i < |r| :: Data(r[i]) % 4 == 0
    ensures forall i, j | 0 <= i < j < |r| :: Data(r[i]) + r[i].size <= r[j].start
  {
    HeapIsCanonical(root, top, r);
    StartsAligned(root, top, r);
    InOrder(root, top, r);
  }

  lemma InOrder(root: nat, top: nat, r: seq<Block>)
    requires Tiled(HEADER, root, top, r)
    ensures forall i, j | 0 <= i < j < |r| :: Data(r[i]) + r[i].size <= r[j].start
  {
    forall i, j | 0 <= i < j < |r| ensures Data(r[i]) + r[i].size <= r[j].start {
      TiledOrder(HEADER, root, top, r, i, j);
    }
  }

  lemma {:induction false} StartsAligned(root: nat, top: nat, bs: seq<Block>)
    requires root % 4 == 0 && Tiled(HEADER, root, top, bs) && AllSized(bs)
    ensures forall i | 0 <= i < |bs| :: Data(bs[i]) % 4 == 0
    decreases |bs|
  {
    if bs != [] {
      assert WellSized(bs[0]);
      assert bs[0].End(HEADER) == root + 12 + bs[0].size;
      StartsAligned(bs[0].End(HEADER), top, bs[1..]);
      assert forall i | 1 <= i < |bs| :: bs[i] == bs[1..][i - 1];
    }
  }

  /** Once no block is live the heap is the single block it started as, whatever
      the order of the calls was. */
  lemma AllFreedIsInitial(root: nat, top: nat, bs: seq<Block>, ops: seq<Op>)
    requires WfHeap(root, top, bs) && Kept(Run(bs, ops), 0) == []
    ensures root + HEADER <= top
    ensures Run(bs, ops) == [Block(root, top - root - HEADER, 0)]
  {
    RunKeepsHeap(root, top, bs, ops);
    TiledBound(HEADER, root, top, Run(bs, ops));
  }

  /** Freeing every live pointer, in any order and with any repetition, empties
      the heap. */
  lemma {:induction false} FreeAll(root: nat, top: nat, bs: seq<Block>, ptrs: seq<nat>)
    requires WfHeap(root, top, bs)
    requires forall b | b in Kept(bs, 0) :: Data(b) in ptrs
    ensures root + HEADER <= top
    ensures Run(bs, Frees(ptrs)) == [Block(root, top - root - HEADER, 0)]
    decreases |ptrs|
  {
    assert Kept(bs, 0) != [] ==> Kept(bs, 0)[0] in Kept(bs, 0);
    if ptrs == [] {
      AllFreedIsInitial(root, top, bs, []);
    } else {
      var i := LiveIndex(bs, ptrs[0]);
      var next := if i < |bs| then AfterFree(bs, i) else bs;
      if i < |bs| {
        FreeKeeps(root, top, bs, i);
      }
      forall b | b in Kept(next, 0) ensures Data(b) in ptrs[1..] {
        StillLive(root, top, bs, ptrs[0], b);
      }
      assert Frees(ptrs)[1..] == Frees(ptrs[1..]);
      FreeAll(root, top, next, ptrs[1..]);
    }
  }

  function Frees(ptrs: seq<nat>): (ops: seq<Op>)
    ensures |ops| == |ptrs|
  {
    if ptrs == [] then [] else [Free(ptrs[0])] + Frees(ptrs[1..])
  }

  /** What is live after freeing ptr was live before and is not ptr. */
  lemma StillLive(root: nat, top: nat, bs: seq<Block>, ptr: nat, b: Block)
    requires WfHeap(root, top, bs)
    requires var i := LiveIndex(bs, ptr); b in Kept(if i < |bs| then AfterFree(bs, i) else bs, 0)
    ensures b in Kept(bs, 0) && Data(b) != ptr
  {
    var i := LiveIndex(bs, ptr);
    KeptMember(bs, 0, b);
    if i < |bs| {
      KeptAfterFree(root, top, bs, i);
      KeptMember(bs[..i], 0, b);
      KeptMember(bs[i + 1..], 0, b);
      StartsDiffer(root, top, bs);
      if b in bs[..i] {
        var j :| 0 <= j < i && bs[j] == b;
      } else {
        var j :| 0 <= j < |bs[i + 1..]| && bs[i + 1..][j] == b;
        assert bs[i + 1 + j] == b;
      }
    } else {
      var j :| 0 <= j < |bs| && bs[j] == b;
      assert !LiveAt(bs, j, ptr);
    }
  }

  /** Malloc fails exactly when nothing was asked for or every gap between live
      blocks is too small; free blocks are the gaps, since none are adjacent. */
  lemma MallocFailsIff(root: nat, top: nat, bs: seq<Block>, size: nat)
    requires WfHeap(root, top, bs) && size < WORD32
    ensures MallocResult(bs, size) == 0 <==>
            size == 0 || forall k | 0 <= k < |bs| && bs[k].Free() :: bs[k].size < Align4(size)
  {
  }

  /** Malloc takes the lowest free block that holds the request rounded up to four. If
      28 bytes or more are left, 12 become the header of a free block of the rest;
      otherwise they go with the block. Nothing else changes. */
  lemma MallocTakes(bs: seq<Block>, size: nat) returns (i: nat)
    requires 0 < size <= 0xFFFF_FFFC && MallocResult(bs, size) != 0
    ensures var want, r := (size + 3) / 4 * 4, AfterMalloc(bs, size);
            && i < |bs| && bs[i].Free() && want <= bs[i].size
            && (forall j | 0 <= j < i && bs[j].Free() :: bs[j].size < want)
            && MallocResult(bs, size) == bs[i].start + 12
            && r == bs[..i]
                    + (if bs[i].size >= want + 28 then
                         [Block(bs[i].start, want, 1), Block(bs[i].start + 12 + want, bs[i].size - want - 12, 0)]
                       else [Block(bs[i].start, bs[i].size, 1)])
                    + bs[i + 1..]
  {
    i := FirstFit(bs, (size + 3) / 4 * 4);
  }

  /** A successful allocation is as large as requested exactly when rounding the
      request does not wrap. */
  lemma LargeEnoughIff(root: nat, top: nat, bs: seq<Block>, size: nat)
    requires WfHeap(root, top, bs) && size < WORD32 && MallocResult(bs, size) != 0
    ensures size <= AfterMalloc(bs, size)[FirstFit(bs, Align4(size))].size <==> size <= 0xFFFF_FFFC
  {
    TiledAt(HEADER, root, top, bs, FirstFit(bs, Align4(size)));
  }

  /** malloc(2^32 - 1) on a fresh 1 KB heap succeeds with an empty block. */
  lemma HugeRequestGetsNothing()
    ensures var bs := [Block(4096, 1012, 0)];
            && MallocResult(bs, 0xFFFF_FFFF) == 4108
            && AfterMalloc(bs, 0xFFFF_FFFF)[0].size == 0
  {
  }
}
