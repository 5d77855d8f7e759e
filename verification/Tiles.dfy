/** Memory cut into consecutive blocks, each behind a header of `hdr` units: the
    common shape of the DOS arena (hdr 1) and the kernel heap (hdr 12). */
module Tiles {
  import opened Numbers

  /** `owner` 0 means free. `start` is the address of the header. */
  datatype Block = Block(start: nat, size: nat, owner: nat)
  {
    predicate Free() { owner == 0 }

    /** First address behind the block. */
    function End(hdr: nat): nat { start + hdr + size }
  }

  /** The blocks cover [root, top) without hole or overlap. */
  predicate Tiled(hdr: nat, root: nat, top: nat, bs: seq<Block>)
    decreases |bs|
  {
    if bs == [] then root == top
    else bs[0].start == root && Tiled(hdr, bs[0].End(hdr), top, bs[1..])
  }

  /** Address of block i, or the top behind the last block. */
  function StartOf(top: nat, bs: seq<Block>, i: nat): nat
    requires i <= |bs|
  {
    if i < |bs| then bs[i].start else top
  }

  lemma {:induction false} TiledSplit(hdr: nat, root: nat, top: nat, bs: seq<Block>, i: nat)
    requires Tiled(hdr, root, top, bs) && i <= |bs|
    ensures Tiled(hdr, root, StartOf(top, bs, i), bs[..i])
    ensures Tiled(hdr, StartOf(top, bs, i), top, bs[i..])
    ensures root <= StartOf(top, bs, i) <= top
    decreases |bs|
  {
    if i > 0 {
      TiledSplit(hdr, bs[0].End(hdr), top, bs[1..], i - 1);
      assert bs[..i][1..] == bs[1..][..i - 1] && bs[i..] == bs[1..][i - 1..];
    } else {
      TiledBound(hdr, root, top, bs);
      assert bs[..0] == [] && bs[0..] == bs;
    }
  }

  lemma {:induction false} TiledBound(hdr: nat, root: nat, top: nat, bs: seq<Block>)
    requires Tiled(hdr, root, top, bs)
    ensures root <= top
    ensures bs != [] ==> bs[0].End(hdr) <= top
    decreases |bs|
  {
    if bs != [] {
      TiledBound(hdr, bs[0].End(hdr), top, bs[1..]);
    }
  }

  lemma {:induction false} TiledConcat(hdr: nat, root: nat, mid: nat, top: nat, a: seq<Block>, b: seq<Block>)
    requires Tiled(hdr, root, mid, a) && Tiled(hdr, mid, top, b)
    ensures Tiled(hdr, root, top, a + b)
    decreases |a|
  {
    if a == [] {
      assert a + b == b;
    } else {
      TiledConcat(hdr, a[0].End(hdr), mid, top, a[1..], b);
      assert (a + b)[1..] == a[1..] + b;
    }
  }

  /** Where a block lies and what follows it. */
  lemma TiledAt(hdr: nat, root: nat, top: nat, bs: seq<Block>, i: nat)
    requires Tiled(hdr, root, top, bs) && i < |bs|
    ensures root <= bs[i].start <= bs[i].End(hdr) <= top
    ensures bs[i].End(hdr) == StartOf(top, bs, i + 1)
  {
    TiledSplit(hdr, root, top, bs, i);
    TiledSplit(hdr, root, top, bs, i + 1);
    var rest := bs[i..];
    TiledBound(hdr, bs[i].start, top, rest);
    assert rest[1..] == bs[i + 1..];
    if i + 1 < |bs| {
      assert rest[1..][0] == bs[i + 1];
    } else {
      assert rest[1..] == [];
    }
  }

  /** Blocks never overlap: an earlier one ends before a later one starts. */
  lemma {:induction false} TiledOrder(hdr: nat, root: nat, top: nat, bs: seq<Block>, i: nat, j: nat)
    requires Tiled(hdr, root, top, bs) && i < j < |bs|
    ensures bs[i].End(hdr) <= bs[j].start
    decreases j - i
  {
    TiledAt(hdr, root, top, bs, i);
    if i + 1 < j {
      TiledAt(hdr, root, top, bs, i + 1);
      TiledOrder(hdr, root, top, bs, i + 1, j);
    }
  }

  /** bs with the k blocks from i on replaced. */
  function Replace(bs: seq<Block>, i: nat, k: nat, new_: seq<Block>): seq<Block>
    requires i + k <= |bs|
  {
    bs[..i] + new_ + bs[i + k..]
  }

  lemma ReplaceTiled(hdr: nat, root: nat, top: nat, bs: seq<Block>, i: nat, k: nat, new_: seq<Block>)
    requires Tiled(hdr, root, top, bs) && i + k <= |bs|
    requires Tiled(hdr, StartOf(top, bs, i), StartOf(top, bs, i + k), new_)
    ensures Tiled(hdr, root, top, Replace(bs, i, k, new_))
  {
    TiledSplit(hdr, root, top, bs, i);
    TiledSplit(hdr, root, top, bs, i + k);
    TiledConcat(hdr, root, StartOf(top, bs, i), StartOf(top, bs, i + k), bs[..i], new_);
    TiledConcat(hdr, root, StartOf(top, bs, i + k), top, bs[..i] + new_, bs[i + k..]);
  }

  lemma TiledOne(hdr: nat, b: Block)
    ensures Tiled(hdr, b.start, b.End(hdr), [b])
  {
  }

  lemma TiledTwo(hdr: nat, a: Block, b: Block)
    requires a.End(hdr) == b.start
    ensures Tiled(hdr, a.start, b.End(hdr), [a, b])
  {
  }

  // ------------------------------------------------------------------
  // Blocks in use
  // ------------------------------------------------------------------

  /** The blocks whose owner is neither 0 nor p, in address order. With p == 0
      these are all the blocks in use. */
  function Kept(bs: seq<Block>, p: nat): seq<Block> {
    if bs == [] then []
    else if bs[0].owner == 0 || bs[0].owner == p then Kept(bs[1..], p)
    else [bs[0]] + Kept(bs[1..], p)
  }

  lemma KeptCons(b: Block, rest: seq<Block>, p: nat)
    ensures Kept([b] + rest, p) == (if b.owner == 0 || b.owner == p then [] else [b]) + Kept(rest, p)
  {
    assert ([b] + rest)[1..] == rest && [] + Kept(rest, p) == Kept(rest, p);
  }

  lemma {:induction false} KeptConcat(a: seq<Block>, b: seq<Block>, p: nat)
    ensures Kept(a + b, p) == Kept(a, p) + Kept(b, p)
  {
    if a == [] {
      assert a + b == b;
    } else {
      KeptConcat(a[1..], b, p);
      KeptCons(a[0], a[1..] + b, p);
      assert a + b == [a[0]] + (a[1..] + b);
      Regroup([a[0]], Kept(a[1..], p), Kept(b, p));
    }
  }

  /** Replacing blocks changes the kept blocks only by the replaced ones. */
  lemma KeptReplace(bs: seq<Block>, i: nat, k: nat, new_: seq<Block>, p: nat)
    requires i + k <= |bs| && Kept(new_, p) == Kept(bs[i..i + k], p)
    ensures Kept(Replace(bs, i, k, new_), p) == Kept(bs, p)
  {
    KeptConcat(bs[..i], new_, p);
    KeptConcat(bs[..i] + new_, bs[i + k..], p);
    KeptConcat(bs[..i], bs[i..i + k], p);
    KeptConcat(bs[..i] + bs[i..i + k], bs[i + k..], p);
    assert bs == bs[..i] + bs[i..i + k] + bs[i + k..];
  }

  lemma {:induction false} KeptMember(bs: seq<Block>, p: nat, b: Block)
    ensures b in Kept(bs, p) <==> b in bs && b.owner != 0 && b.owner != p
  {
    if bs != [] {
      KeptMember(bs[1..], p, b);
    }
  }

  /** bs with every block of owner p marked free. */
  function Release(bs: seq<Block>, p: nat): (r: seq<Block>)
    ensures |r| == |bs|
    ensures forall i | 0 <= i < |bs| :: r[i] == if bs[i].owner == p then bs[i].(owner := 0) else bs[i]
  {
    if bs == [] then []
    else [if bs[0].owner == p then bs[0].(owner := 0) else bs[0]] + Release(bs[1..], p)
  }

  lemma {:induction false} ReleaseTiled(hdr: nat, root: nat, top: nat, bs: seq<Block>, p: nat)
    requires Tiled(hdr, root, top, bs)
    ensures Tiled(hdr, root, top, Release(bs, p))
    ensures Kept(Release(bs, p), 0) == Kept(bs, p)
    decreases |bs|
  {
    if bs != [] {
      ReleaseTiled(hdr, bs[0].End(hdr), top, bs[1..], p);
      assert Release(bs, p)[1..] == Release(bs[1..], p);
    }
  }

  // ------------------------------------------------------------------
  // Coalescing
  // ------------------------------------------------------------------

  function Merge(hdr: nat, a: Block, b: Block): Block {
    Block(a.start, a.size + hdr + b.size, a.owner)
  }

  /** Adjacent free blocks merged, left to right. */
  function Coalesce(hdr: nat, bs: seq<Block>): seq<Block>
    decreases |bs|
  {
    if |bs| <= 1 then bs
    else if bs[0].Free() && bs[1].Free() then Coalesce(hdr, [Merge(hdr, bs[0], bs[1])] + bs[2..])
    else [bs[0]] + Coalesce(hdr, bs[1..])
  }

  /** Blocks i - 1 and i are both free. */
  predicate FreePair(bs: seq<Block>, i: nat)
    requires 1 <= i < |bs|
  {
    bs[i].Free() && bs[i - 1].Free()
  }

  predicate NoFreeNeighbours(bs: seq<Block>) {
    forall i {:trigger FreePair(bs, i)} | 1 <= i < |bs| :: !FreePair(bs, i)
  }

  /** No two of the blocks 0..k are free neighbours. */
  predicate Merged(bs: seq<Block>, k: nat) {
    forall j {:trigger FreePair(bs, j)} | 1 <= j <= k && j < |bs| :: !FreePair(bs, j)
  }

  lemma MergedStep(bs: seq<Block>, k: nat)
    requires Merged(bs, k) && k < |bs| && !(bs[k].Free() && k + 1 < |bs| && bs[k + 1].Free())
    ensures Merged(bs, k + 1)
  {
  }

  lemma MergedAfterMerge(hdr: nat, bs: seq<Block>, k: nat)
    requires Merged(bs, k) && k + 1 < |bs| && bs[k].Free() && bs[k + 1].Free()
    ensures Merged(Replace(bs, k, 2, [Merge(hdr, bs[k], bs[k + 1])]), k)
  {
    var r := Replace(bs, k, 2, [Merge(hdr, bs[k], bs[k + 1])]);
    forall j | 1 <= j <= k && j < |r| ensures !FreePair(r, j) {
      assert !FreePair(bs, j) && r[j - 1] == bs[j - 1];
    }
  }

  /** Independent description of a fully coalesced layout: the blocks in use at
      their places and one free block in every gap between them. */
  function Fill(hdr: nat, root: nat, top: nat, used: seq<Block>): seq<Block>
    decreases |used|
  {
    if used == [] then
      if top >= root + hdr then [Block(root, top - root - hdr, 0)] else []
    else
      (if used[0].start >= root + hdr then [Block(root, used[0].start - root - hdr, 0)] else [])
      + [used[0]] + Fill(hdr, used[0].End(hdr), top, used[1..])
  }

  lemma FillGap(hdr: nat, top: nat, b: Block, used: seq<Block>)
    requires hdr > 0 && b.Free() && used != [] && used[0].start == b.End(hdr)
    ensures Fill(hdr, b.start, top, used) == [b] + Fill(hdr, b.End(hdr), top, used)
  {
  }

  lemma FillUsed(hdr: nat, top: nat, b: Block, used: seq<Block>)
    requires hdr > 0 && used != [] && used[0] == b
    ensures Fill(hdr, b.start, top, used) == [b] + Fill(hdr, b.End(hdr), top, used[1..])
  {
  }

  /** Coalescing depends on nothing but the blocks in use and the bounds. */
  lemma {:induction false} CoalesceIsFill(hdr: nat, root: nat, top: nat, bs: seq<Block>)
    requires hdr > 0 && Tiled(hdr, root, top, bs)
    ensures Coalesce(hdr, bs) == Fill(hdr, root, top, Kept(bs, 0))
    decreases |bs|
  {
    if |bs| <= 1 {
      if |bs| == 1 {
        assert bs[1..] == [];
      }
    } else if bs[0].Free() && bs[1].Free() {
      var m := [Merge(hdr, bs[0], bs[1])] + bs[2..];
      assert bs[1..][1..] == bs[2..] && m[1..] == bs[2..];
      CoalesceIsFill(hdr, root, top, m);
    } else {
      CoalesceIsFill(hdr, bs[0].End(hdr), top, bs[1..]);
      if bs[0].Free() {
        assert Kept(bs, 0) == Kept(bs[1..], 0);
        assert Kept(bs[1..], 0)[0] == bs[1];
        FillGap(hdr, top, bs[0], Kept(bs, 0));
      } else {
        assert Kept(bs, 0)[1..] == Kept(bs[1..], 0);
        FillUsed(hdr, top, bs[0], Kept(bs, 0));
      }
    }
  }

  lemma {:induction false} CoalesceTiled(hdr: nat, root: nat, top: nat, bs: seq<Block>)
    requires Tiled(hdr, root, top, bs)
    ensures Tiled(hdr, root, top, Coalesce(hdr, bs))
    ensures NoFreeNeighbours(Coalesce(hdr, bs))
    ensures bs != [] ==> Coalesce(hdr, bs) != [] && (Coalesce(hdr, bs)[0].Free() <==> bs[0].Free())
    ensures Kept(Coalesce(hdr, bs), 0) == Kept(bs, 0)
    decreases |bs|
  {
    if |bs| <= 1 {
    } else if bs[0].Free() && bs[1].Free() {
      var m := [Merge(hdr, bs[0], bs[1])] + bs[2..];
      assert bs[1..][1..] == bs[2..] && m[1..] == bs[2..];
      CoalesceTiled(hdr, root, top, m);
    } else {
      CoalesceTiled(hdr, bs[0].End(hdr), top, bs[1..]);
      var c, rest := Coalesce(hdr, bs), Coalesce(hdr, bs[1..]);
      assert c[1..] == rest;
      forall i | 1 <= i < |c| ensures !FreePair(c, i) {
        assert i == 1 || !FreePair(rest, i - 1);
      }
    }
  }

  /** A layout without free neighbours is already coalesced. */
  lemma {:induction false} CoalesceFixed(hdr: nat, bs: seq<Block>)
    requires NoFreeNeighbours(bs)
    ensures Coalesce(hdr, bs) == bs
    decreases |bs|
  {
    if |bs| > 1 {
      var rest := bs[1..];
      assert !FreePair(bs, 1);
      forall i | 1 <= i < |rest| ensures !FreePair(rest, i) {
        assert !FreePair(bs, i + 1);
      }
      CoalesceFixed(hdr, rest);
    }
  }

  /** Merging one free pair first does not change the coalesced result. */
  lemma CoalesceAfterMerge(hdr: nat, root: nat, top: nat, bs: seq<Block>, i: nat)
    requires hdr > 0 && Tiled(hdr, root, top, bs) && i + 1 < |bs| && bs[i].Free() && bs[i + 1].Free()
    ensures var m := Replace(bs, i, 2, [Merge(hdr, bs[i], bs[i + 1])]);
            Tiled(hdr, root, top, m) && Kept(m, 0) == Kept(bs, 0) && Coalesce(hdr, m) == Coalesce(hdr, bs)
  {
    var new_ := [Merge(hdr, bs[i], bs[i + 1])];
    TiledAt(hdr, root, top, bs, i);
    TiledAt(hdr, root, top, bs, i + 1);
    ReplaceTiled(hdr, root, top, bs, i, 2, new_);
    assert bs[i..i + 2] == [bs[i], bs[i + 1]];
    assert [bs[i], bs[i + 1]][1..] == [bs[i + 1]] && [bs[i + 1]][1..] == [] && new_[1..] == [];
    KeptReplace(bs, i, 2, new_, 0);
    CoalesceIsFill(hdr, root, top, bs);
    CoalesceIsFill(hdr, root, top, Replace(bs, i, 2, new_));
  }

  // ------------------------------------------------------------------
  // First fit
  // ------------------------------------------------------------------

  predicate Fits(b: Block, want: nat) {
    b.Free() && b.size >= want
  }

  /** Index of the first free block of at least `want` units, or the length. */
  function FirstFit(bs: seq<Block>, want: nat): (i: nat)
    ensures i <= |bs|
    ensures i < |bs| ==> Fits(bs[i], want)
    ensures forall k | 0 <= k < i :: !Fits(bs[k], want)
  {
    if bs == [] then 0
    else if Fits(bs[0], want) then 0
    else
      var r := FirstFit(bs[1..], want);
      assert forall k | 1 <= k < 1 + r :: bs[k] == bs[1..][k - 1];
      1 + r
  }

  lemma FirstFitIs(bs: seq<Block>, want: nat, k: nat)
    requires k <= |bs| && (k < |bs| ==> Fits(bs[k], want)) && forall j | 0 <= j < k :: !Fits(bs[j], want)
    ensures FirstFit(bs, want) == k
  {
  }

  /** The block claimed for `owner`, with the rest split off as a free block when
      more than `slack` units would be left over. */
  function Carve(hdr: nat, slack: nat, b: Block, want: nat, owner: nat): seq<Block>
    requires want <= b.size && hdr <= slack + 1
  {
    if b.size > want + slack then
      [Block(b.start, want, owner), Block(b.start + hdr + want, b.size - want - hdr, 0)]
    else [b.(owner := owner)]
  }

  lemma CarveTiled(hdr: nat, slack: nat, b: Block, want: nat, owner: nat)
    requires want <= b.size && hdr <= slack + 1
    ensures Tiled(hdr, b.start, b.End(hdr), Carve(hdr, slack, b, want, owner))
  {
  }

  function LargestFree(bs: seq<Block>): (n: nat)
    ensures forall k | 0 <= k < |bs| && bs[k].Free() :: bs[k].size <= n
    ensures n == 0 || exists k :: 0 <= k < |bs| && bs[k].Free() && bs[k].size == n
  {
    if bs == [] then 0
    else
      var r := LargestFree(bs[1..]);
      assert forall k | 1 <= k < |bs| :: bs[k] == bs[1..][k - 1];
      if bs[0].Free() && bs[0].size > r then bs[0].size else
      assert r == 0 || exists k :: 0 <= k < |bs| && bs[k].Free() && bs[k].size == r by {
        if r != 0 {
          var k :| 0 <= k < |bs[1..]| && bs[1..][k].Free() && bs[1..][k].size == r;
          assert bs[k + 1].Free() && bs[k + 1].size == r;
        }
      }
      r
  }
}
