/** What the DOS memory calls do to the list of memory blocks: the arena seen as
    consecutive blocks of paragraphs, each behind a one-paragraph header. */
module McbBlocks {
  import opened Numbers
  import opened Tiles

  const PARAGRAPHS: nat := 0x1_0000

  /** Paragraphs of the environment block, its successor's header and the PSP. */
  const ENV: nat := 0x10
  const PSP: nat := 0x10

  /** EXEC refuses to run below this many free paragraphs. */
  const MIN_EXEC: nat := 0x30

  /** Index of the block whose header is paragraph a, or the length. */
  function IndexAt(bs: seq<Block>, a: nat): (i: nat)
    ensures i <= |bs| && (i < |bs| ==> bs[i].start == a)
    ensures i == |bs| ==> forall j | 0 <= j < |bs| :: bs[j].start != a
  {
    if bs == [] then 0
    else if bs[0].start == a then 0
    else
      var r := IndexAt(bs[1..], a);
      assert forall j | 1 <= j < |bs| :: bs[j] == bs[1..][j - 1];
      1 + r
  }

  /** Allocation: the first free block that fits, split when more than one
      paragraph would be left over. */
  function AfterAlloc(bs: seq<Block>, want: nat, owner: nat): seq<Block> {
    var i := FirstFit(bs, want);
    if i == |bs| then bs else Replace(bs, i, 1, Carve(1, 1, bs[i], want, owner))
  }

  /** A failed allocation reports the largest free block: no larger request can
      succeed, and every request up to it does, unless no block is free at all. */
  lemma AllocSucceedsIff(bs: seq<Block>, want: nat)
    ensures FirstFit(bs, want) < |bs| <==> want <= LargestFree(bs) && exists k :: 0 <= k < |bs| && bs[k].Free()
  {
  }

  predicate NextFree(bs: seq<Block>, i: nat) {
    i + 1 < |bs| && bs[i + 1].Free()
  }

  /** Freeing merges forward, and only once. */
  function AfterFree(bs: seq<Block>, i: nat): seq<Block>
    requires i < |bs|
  {
    var b := bs[i].(owner := 0);
    if NextFree(bs, i) then Replace(bs, i, 2, [Merge(1, b, bs[i + 1])]) else Replace(bs, i, 1, [b])
  }

  /** Number of blocks a resize may use, and the paragraphs they offer. */
  function Reach(bs: seq<Block>, i: nat): (k: nat)
    requires i < |bs|
    ensures 1 <= k <= 2 && i + k <= |bs|
  {
    if NextFree(bs, i) then 2 else 1
  }

  function Span(bs: seq<Block>, i: nat): nat
    requires i < |bs|
  {
    if NextFree(bs, i) then bs[i].size + 1 + bs[i + 1].size else bs[i].size
  }

  /** Resizing: the block with its new size, then what is left as a free block. */
  function Resize(bs: seq<Block>, i: nat, size: nat): seq<Block>
    requires i < |bs| && size <= Span(bs, i)
  {
    [bs[i].(size := size)]
    + if size < Span(bs, i) then [Block(bs[i].start + 1 + size, Span(bs, i) - size - 1, 0)] else []
  }

  function AfterResize(bs: seq<Block>, i: nat, size: nat): seq<Block>
    requires i < |bs|
  {
    if size > Span(bs, i) then bs else Replace(bs, i, Reach(bs, i), Resize(bs, i, size))
  }

  // ------------------------------------------------------------------
  // What the calls do to a block
  // ------------------------------------------------------------------

  /** An allocation takes the lowest free block that is large enough. If more than one
      paragraph is left, the first becomes the header of a free block of the rest; a
      single one goes with the block. Nothing else changes. */
  lemma AllocTakes(bs: seq<Block>, want: nat, owner: nat, i: nat)
    requires i < |bs| && bs[i].owner == 0 && want <= bs[i].size
    requires forall j | 0 <= j < i && bs[j].owner == 0 :: bs[j].size < want
    ensures AfterAlloc(bs, want, owner) ==
            bs[..i]
            + (if bs[i].size <= want + 1 then [Block(bs[i].start, bs[i].size, owner)]
               else [Block(bs[i].start, want, owner), Block(bs[i].start + want + 1, bs[i].size - want - 1, 0)])
            + bs[i + 1..]
  {
    FirstFitIs(bs, want, i);
  }

  /** A freed block is free, together with a free block behind it and the header between
      them, but not one before it. Nothing else changes. */
  lemma FreeGives(bs: seq<Block>, i: nat)
    requires i < |bs|
    ensures AfterFree(bs, i) ==
            bs[..i]
            + (if i + 1 < |bs| && bs[i + 1].owner == 0 then
                 [Block(bs[i].start, bs[i].size + 1 + bs[i + 1].size, 0)] + bs[i + 2..]
               else [Block(bs[i].start, bs[i].size, 0)] + bs[i + 1..])
  {
  }

  /** A resized block has the new size and its old owner, and what is left of it and of
      a free block behind it, header included, is one free block. A size that needs more
      changes nothing. */
  lemma ResizeMoves(root: nat, top: nat, bs: seq<Block>, i: nat, size: nat)
    requires Tiled(1, root, top, bs) && i < |bs|
    ensures var joined := i + 1 < |bs| && bs[i + 1].owner == 0;
            var end := if i + 1 == |bs| then top else if !joined then bs[i + 1].start
                       else if i + 2 < |bs| then bs[i + 2].start else top;
            var next, block := bs[i].start + 1 + size, Block(bs[i].start, size, bs[i].owner);
            AfterResize(bs, i, size) ==
            if next > end then bs
            else bs[..i] + [block] + (if next < end then [Block(next, end - next - 1, 0)] else [])
                 + bs[if joined then i + 2 else i + 1..]
  {
    TiledAt(1, root, top, bs, i);
    if NextFree(bs, i) {
      TiledAt(1, root, top, bs, i + 1);
      assert bs[i].start + 1 + Span(bs, i) == StartOf(top, bs, i + 2);
    }
    if size <= Span(bs, i) {
      var rest := if size < Span(bs, i) then [Block(bs[i].start + 1 + size, Span(bs, i) - size - 1, 0)] else [];
      assert bs[..i] + ([bs[i].(size := size)] + rest) == bs[..i] + [bs[i].(size := size)] + rest;
    }
  }

  // ------------------------------------------------------------------
  // EXEC and EXIT
  // ------------------------------------------------------------------

  /** A program file: a flat image, or one with a header giving the image's size in
      bytes, the paragraphs it asks for behind it, and the words to relocate, by their
      distance from the load segment. `copied` bytes are read into memory: as many as
      asked for, or as the file has left. */
  datatype Program =
    | Com(copied: nat)
    | Exe(imageSize: nat, maxExtra: nat, copied: nat, relocs: seq<nat>)
  {
    predicate Sized() {
      match this
      case Com(n) => n <= 0xFF00
      case Exe(size, extra, n, words) =>
        size < WORD32 && extra < PARAGRAPHS && n <= size && forall r | r in words :: r <= 0x10_FFEF
    }

    function Relocs(): seq<nat> { if Exe? then relocs else [] }

    /** Paragraphs of the image, in the code's arithmetic: the sum in 32 bits, the
        quotient in 16. */
    function ImageParas(): (n: nat)
      requires Exe?
      ensures n < PARAGRAPHS
    {
      (imageSize + 15) % WORD32 / 16 % 0x1_0000
    }

    /** Paragraphs of image, PSP and extra memory, added up in 16 bits. */
    function Asked(): (n: nat)
      requires Exe? && Sized()
      ensures n < PARAGRAPHS
    {
      var sum := ImageParas() + PSP + maxExtra;
      if sum < PARAGRAPHS then sum
      else if sum < 2 * PARAGRAPHS then sum - PARAGRAPHS
      else sum - 2 * PARAGRAPHS
    }

    /** PSP, image and relocated words end within n paragraphs of the PSP. */
    predicate Within(n: nat) {
      PSP + (copied + 15) / 16 <= n && forall r | r in Relocs() :: PSP + (r + 1) / 16 < n
    }
  }

  /** Paragraphs granted out of `avail`. */
  function Granted(p: Program, avail: nat): nat
    requires p.Sized()
  {
    if p.Com? || p.maxExtra == 0xFFFF || p.Asked() > avail then avail else p.Asked()
  }

  /** The PSP segment of a child loaded into block b. */
  function ChildPsp(b: Block): nat { b.start + 1 + ENV + 1 }

  /** What remains of block b for the program behind its environment. */
  function ProgramRoom(b: Block): Block
    requires b.size >= MIN_EXEC
  {
    Block(b.start + 1 + ENV, b.size - ENV - 1, 0)
  }

  function ProgramBlocks(b: Block, p: Program): seq<Block>
    requires b.size >= MIN_EXEC && p.Sized()
  {
    var room := ProgramRoom(b);
    Carve(1, 1, room, Granted(p, room.size), ChildPsp(b))
  }

  /** What EXEC copies stays inside the block it grants. */
  predicate CopiesInside(b: Block, p: Program)
    requires b.size >= MIN_EXEC && p.Sized()
  {
    p.Within(ProgramBlocks(b, p)[0].size)
  }

  /** The blocks that replace b: environment, program and, perhaps, a rest. */
  function Child(b: Block, p: Program): seq<Block>
    requires b.size >= MIN_EXEC && p.Sized()
  {
    [Block(b.start, ENV, ChildPsp(b))] + ProgramBlocks(b, p)
  }

  /** EXEC takes the first of the largest free blocks. */
  function Largest(bs: seq<Block>): (i: nat)
    ensures i <= |bs|
    ensures LargestFree(bs) > 0 ==> i < |bs| && bs[i].Free() && bs[i].size == LargestFree(bs)
    ensures LargestFree(bs) > 0 ==> forall j | 0 <= j < i && bs[j].owner == 0 :: bs[j].size < bs[i].size
  {
    var n, i := LargestFree(bs), FirstFit(bs, LargestFree(bs));
    assert n > 0 ==> i < |bs| by {
      if n > 0 {
        var k :| 0 <= k < |bs| && bs[k].Free() && bs[k].size == n;
        assert Fits(bs[k], n);
      }
    }
    assert i < |bs| ==> Fits(bs[i], n);
    i
  }

  function AfterExec(bs: seq<Block>, p: Program): seq<Block>
    requires LargestFree(bs) >= MIN_EXEC && p.Sized()
  {
    Replace(bs, Largest(bs), 1, Child(bs[Largest(bs)], p))
  }

  function AfterExit(bs: seq<Block>, psp: nat): seq<Block> {
    Coalesce(1, Release(bs, psp))
  }

  // ------------------------------------------------------------------
  // Every call keeps the tiling
  // ------------------------------------------------------------------

  lemma AllocTiled(root: nat, top: nat, bs: seq<Block>, want: nat, owner: nat)
    requires Tiled(1, root, top, bs)
    ensures Tiled(1, root, top, AfterAlloc(bs, want, owner))
  {
    var i := FirstFit(bs, want);
    if i < |bs| {
      TiledAt(1, root, top, bs, i);
      CarveTiled(1, 1, bs[i], want, owner);
      ReplaceTiled(1, root, top, bs, i, 1, Carve(1, 1, bs[i], want, owner));
    }
  }

  lemma FreeTiled(root: nat, top: nat, bs: seq<Block>, i: nat)
    requires Tiled(1, root, top, bs) && i < |bs|
    ensures Tiled(1, root, top, AfterFree(bs, i))
  {
    var b := bs[i].(owner := 0);
    TiledAt(1, root, top, bs, i);
    if NextFree(bs, i) {
      TiledAt(1, root, top, bs, i + 1);
      TiledOne(1, Merge(1, b, bs[i + 1]));
      ReplaceTiled(1, root, top, bs, i, 2, [Merge(1, b, bs[i + 1])]);
    } else {
      TiledOne(1, b);
      ReplaceTiled(1, root, top, bs, i, 1, [b]);
    }
  }

  /** The reach of a resize is the stretch up to the block behind it. */
  lemma SpanEnds(root: nat, top: nat, bs: seq<Block>, i: nat)
    requires Tiled(1, root, top, bs) && i < |bs|
    ensures bs[i].start + 1 + Span(bs, i) == StartOf(top, bs, i + Reach(bs, i)) <= top
  {
    TiledAt(1, root, top, bs, i);
    if NextFree(bs, i) {
      TiledAt(1, root, top, bs, i + 1);
    }
    TiledSplit(1, root, top, bs, i + Reach(bs, i));
  }

  lemma ResizePieces(root: nat, top: nat, bs: seq<Block>, i: nat, size: nat)
    requires Tiled(1, root, top, bs) && i < |bs| && size <= Span(bs, i)
    ensures Tiled(1, bs[i].start, StartOf(top, bs, i + Reach(bs, i)), Resize(bs, i, size))
  {
    SpanEnds(root, top, bs, i);
    var r := Resize(bs, i, size);
    if |r| == 2 {
      TiledTwo(1, r[0], r[1]);
    } else {
      TiledOne(1, r[0]);
    }
  }

  lemma ResizeTiled(root: nat, top: nat, bs: seq<Block>, i: nat, size: nat)
    requires Tiled(1, root, top, bs) && i < |bs|
    ensures Tiled(1, root, top, AfterResize(bs, i, size))
  {
    if size <= Span(bs, i) {
      ResizePieces(root, top, bs, i, size);
      ReplaceTiled(1, root, top, bs, i, Reach(bs, i), Resize(bs, i, size));
    }
  }

  lemma ChildTiled(b: Block, p: Program)
    requires b.size >= MIN_EXEC && p.Sized()
    ensures Tiled(1, b.start, b.End(1), Child(b, p))
  {
    var room := ProgramRoom(b);
    var env := Block(b.start, ENV, ChildPsp(b));
    CarveTiled(1, 1, room, Granted(p, room.size), ChildPsp(b));
    TiledOne(1, env);
    TiledConcat(1, b.start, room.start, b.End(1), [env], ProgramBlocks(b, p));
  }

  lemma ExecTiled(root: nat, top: nat, bs: seq<Block>, p: Program)
    requires Tiled(1, root, top, bs) && LargestFree(bs) >= MIN_EXEC && p.Sized()
    ensures Tiled(1, root, top, AfterExec(bs, p))
  {
    var i := Largest(bs);
    TiledAt(1, root, top, bs, i);
    ChildTiled(bs[i], p);
    ReplaceTiled(1, root, top, bs, i, 1, Child(bs[i], p));
  }

  // ------------------------------------------------------------------
  // Runs of a program's own memory calls
  // ------------------------------------------------------------------

  datatype Call = Alloc(paras: nat) | Free(header: nat) | SetSize(header: nat, paras: nat)

  /** Effect of one call by a program with PSP psp. A free of a paragraph that starts
      no block changes no block, nor does such a resize if the arena survives it. */
  function Step(bs: seq<Block>, psp: nat, c: Call): seq<Block> {
    match c
    case Alloc(paras) => AfterAlloc(bs, paras, psp)
    case Free(a) => var i := IndexAt(bs, a); if i < |bs| then AfterFree(bs, i) else bs
    case SetSize(a, paras) => var i := IndexAt(bs, a); if i < |bs| then AfterResize(bs, i, paras) else bs
  }

  function Run(bs: seq<Block>, psp: nat, calls: seq<Call>): seq<Block>
    decreases |calls|
  {
    if calls == [] then bs else Run(Step(bs, psp, calls[0]), psp, calls[1..])
  }

  /** A resize names a block. */
  predicate Named(bs: seq<Block>, c: Call) {
    c.SetSize? ==> IndexAt(bs, c.header) < |bs|
  }

  predicate NamedRun(bs: seq<Block>, psp: nat, calls: seq<Call>)
    decreases |calls|
  {
    calls == [] || (Named(bs, calls[0]) && NamedRun(Step(bs, psp, calls[0]), psp, calls[1..]))
  }

  /** The call names no block of anyone else; a resize does name a block. */
  predicate Own(bs: seq<Block>, psp: nat, c: Call) {
    match c
    case Alloc(_) => true
    case Free(a) => var i := IndexAt(bs, a); i < |bs| ==> bs[i].owner == 0 || bs[i].owner == psp
    case SetSize(a, _) => var i := IndexAt(bs, a); i < |bs| && (bs[i].owner == 0 || bs[i].owner == psp)
  }

  predicate OwnRun(bs: seq<Block>, psp: nat, calls: seq<Call>)
    decreases |calls|
  {
    calls == [] || (Own(bs, psp, calls[0]) && OwnRun(Step(bs, psp, calls[0]), psp, calls[1..]))
  }

  lemma StepTiled(root: nat, top: nat, bs: seq<Block>, psp: nat, c: Call)
    requires Tiled(1, root, top, bs) && Named(bs, c)
    ensures Tiled(1, root, top, Step(bs, psp, c))
  {
    match c
    case Alloc(paras) => AllocTiled(root, top, bs, paras, psp);
    case Free(a) =>
      if IndexAt(bs, a) < |bs| {
        FreeTiled(root, top, bs, IndexAt(bs, a));
      }
    case SetSize(a, paras) => ResizeTiled(root, top, bs, IndexAt(bs, a), paras);
  }

  /** Paragraphs in all blocks, headers included. */
  function Total(bs: seq<Block>): nat {
    if bs == [] then 0 else 1 + bs[0].size + Total(bs[1..])
  }

  lemma {:induction false} TiledTotal(root: nat, top: nat, bs: seq<Block>)
    requires Tiled(1, root, top, bs)
    ensures root + Total(bs) == top
    decreases |bs|
  {
    if bs != [] {
      TiledTotal(bs[0].End(1), top, bs[1..]);
    }
  }

  /** Whatever calls are made, on whatever blocks, as long as each resize names one:
      the blocks still tile the arena, none overlap and no paragraph is lost or
      gained. */
  lemma {:induction false} RunKeepsArena(root: nat, top: nat, bs: seq<Block>, psp: nat, calls: seq<Call>)
    requires Tiled(1, root, top, bs) && NamedRun(bs, psp, calls)
    ensures var r := Run(bs, psp, calls);
            && Tiled(1, root, top, r)
            && Total(r) == Total(bs)
            && forall i, j | 0 <= i < j < |r| :: r[i].End(1) <= r[j].start
    decreases |calls|
  {
    if calls == [] {
      forall i, j | 0 <= i < j < |bs| ensures bs[i].End(1) <= bs[j].start {
        TiledOrder(1, root, top, bs, i, j);
      }
    } else {
      var next := Step(bs, psp, calls[0]);
      StepTiled(root, top, bs, psp, calls[0]);
      TiledTotal(root, top, bs);
      TiledTotal(root, top, next);
      RunKeepsArena(root, top, next, psp, calls[1..]);
    }
  }

  // ------------------------------------------------------------------
  // Other owners' blocks
  // ------------------------------------------------------------------

  /** Blocks of owner p and free blocks may be replaced by such blocks without
      touching what the others hold. */
  lemma KeptSwap(bs: seq<Block>, i: nat, k: nat, new_: seq<Block>, p: nat)
    requires i + k <= |bs| && 1 <= k <= 2
    requires forall j | i <= j < i + k :: bs[j].owner == 0 || bs[j].owner == p
    requires forall j | 0 <= j < |new_| :: new_[j].owner == 0 || new_[j].owner == p
    ensures Kept(Replace(bs, i, k, new_), p) == Kept(bs, p)
  {
    KeptNone(new_, p);
    var cut := bs[i..i + k];
    forall j | 0 <= j < k ensures cut[j].owner == 0 || cut[j].owner == p {
      assert cut[j] == bs[i + j];
    }
    KeptNone(cut, p);
    KeptReplace(bs, i, k, new_, p);
  }

  lemma {:induction false} KeptNone(bs: seq<Block>, p: nat)
    requires forall j | 0 <= j < |bs| :: bs[j].owner == 0 || bs[j].owner == p
    ensures Kept(bs, p) == []
  {
    if bs != [] {
      KeptNone(bs[1..], p);
    }
  }

  lemma StepKeepsOthers(bs: seq<Block>, psp: nat, c: Call)
    requires Own(bs, psp, c)
    ensures Kept(Step(bs, psp, c), psp) == Kept(bs, psp)
  {
    match c
    case Alloc(paras) =>
      var i := FirstFit(bs, paras);
      if i < |bs| {
        KeptSwap(bs, i, 1, Carve(1, 1, bs[i], paras, psp), psp);
      }
    case Free(a) =>
      var i := IndexAt(bs, a);
      if i < |bs| {
        var b := bs[i].(owner := 0);
        if NextFree(bs, i) {
          KeptSwap(bs, i, 2, [Merge(1, b, bs[i + 1])], psp);
        } else {
          KeptSwap(bs, i, 1, [b], psp);
        }
      }
    case SetSize(a, paras) =>
      var i := IndexAt(bs, a);
      if i < |bs| && paras <= Span(bs, i) {
        KeptSwap(bs, i, Reach(bs, i), Resize(bs, i, paras), psp);
      }
  }

  lemma {:induction false} RunKeepsOthers(root: nat, top: nat, bs: seq<Block>, psp: nat, calls: seq<Call>)
    requires Tiled(1, root, top, bs) && OwnRun(bs, psp, calls)
    ensures Tiled(1, root, top, Run(bs, psp, calls)) && Kept(Run(bs, psp, calls), psp) == Kept(bs, psp)
    decreases |calls|
  {
    if calls != [] {
      StepTiled(root, top, bs, psp, calls[0]);
      StepKeepsOthers(bs, psp, calls[0]);
      RunKeepsOthers(root, top, Step(bs, psp, calls[0]), psp, calls[1..]);
    }
  }

  lemma ExecKeepsOthers(root: nat, top: nat, bs: seq<Block>, p: Program)
    requires Tiled(1, root, top, bs) && LargestFree(bs) >= MIN_EXEC && p.Sized()
    ensures var psp := ChildPsp(bs[Largest(bs)]); psp != 0 && Kept(AfterExec(bs, p), psp) == Kept(bs, psp)
  {
    var i := Largest(bs);
    var c := Child(bs[i], p);
    forall j | 0 <= j < |c| ensures c[j].owner == 0 || c[j].owner == ChildPsp(bs[i]) {
      assert j > 0 ==> c[j] == ProgramBlocks(bs[i], p)[j - 1];
    }
    KeptSwap(bs, i, 1, c, ChildPsp(bs[i]));
  }

  /** Exit leaves the others' blocks, one free block in every gap, and nothing of
      the exiting program. */
  lemma ExitLeaves(root: nat, top: nat, bs: seq<Block>, psp: nat)
    requires Tiled(1, root, top, bs)
    ensures var r := AfterExit(bs, psp);
            && Tiled(1, root, top, r) && NoFreeNeighbours(r)
            && Kept(r, 0) == Kept(bs, psp)
            && r == Fill(1, root, top, Kept(bs, psp))
  {
    ReleaseTiled(1, root, top, bs, psp);
    CoalesceTiled(1, root, top, Release(bs, psp));
    CoalesceIsFill(1, root, top, Release(bs, psp));
  }

  predicate Owns(bs: seq<Block>, psp: nat) {
    exists j :: 0 <= j < |bs| && bs[j].owner == psp
  }

  lemma {:induction false} KeptAllIff(bs: seq<Block>, psp: nat)
    requires psp != 0
    ensures Kept(bs, psp) == Kept(bs, 0) <==> !Owns(bs, psp)
  {
    if Owns(bs, psp) {
      var j :| 0 <= j < |bs| && bs[j].owner == psp;
      KeptMember(bs, psp, bs[j]);
      KeptMember(bs, 0, bs[j]);
    } else {
      KeptSame(bs, psp);
    }
  }

  lemma {:induction false} KeptSame(bs: seq<Block>, psp: nat)
    requires forall j | 0 <= j < |bs| :: bs[j].owner != psp
    ensures Kept(bs, psp) == Kept(bs, 0)
  {
    if bs != [] {
      KeptSame(bs[1..], psp);
    }
  }

  /** The blocks of a freshly loaded EXE: its environment, then its program. */
  function Loaded(envSeg: nat, arenaParas: nat): seq<Block>
    requires 1 <= envSeg && 0x101 <= arenaParas
  {
    [Block(envSeg - 1, 0xFF, envSeg + 0x100), Block(envSeg + 0xFF, arenaParas - 0x101, envSeg + 0x100)]
  }

  /** A program can bring that failure about: it frees its program block and shrinks
      its environment to 0xEE paragraphs. The next child gets the PSP segment of the
      parent, and its exit takes the parent's environment. */
  lemma ExitTakesParentsBlock(envSeg: nat, arenaParas: nat)
    requires 1 <= envSeg && 0x120 <= arenaParas
    ensures var psp, calls := envSeg + 0x100, [Free(envSeg + 0xFF), SetSize(envSeg - 1, 0xEE)];
            var bs := Run(Loaded(envSeg, arenaParas), psp, calls);
            && OwnRun(Loaded(envSeg, arenaParas), psp, calls)
            && LargestFree(bs) >= MIN_EXEC && ChildPsp(bs[Largest(bs)]) == psp
            && Kept(bs, 0) == [Block(envSeg - 1, 0xEE, psp)]
            && CopiesInside(bs[Largest(bs)], Com(0))
            && Kept(AfterExit(AfterExec(bs, Com(0)), psp), 0) == []
  {
    var psp, bs0 := envSeg + 0x100, Loaded(envSeg, arenaParas);
    var calls := [Free(envSeg + 0xFF), SetSize(envSeg - 1, 0xEE)];
    var top := envSeg + arenaParas - 1;
    TiledTwo(1, bs0[0], bs0[1]);
    var bs1 := Step(bs0, psp, calls[0]);
    assert bs1 == [bs0[0], bs0[1].(owner := 0)];
    var bs := [Block(envSeg - 1, 0xEE, psp), Block(envSeg + 0xEE, arenaParas - 0xF0, 0)];
    assert Step(bs1, psp, calls[1]) == bs;
    assert calls[1..] == [calls[1]] && calls[1..][1..] == [];
    assert Run(bs1, psp, calls[1..]) == Run(bs, psp, []) == bs;
    TiledTwo(1, bs[0], bs[1]);
    assert bs[1..][0] == bs[1] && LargestFree(bs) == bs[1].size && Largest(bs) == 1;
    ExecTiled(envSeg - 1, top, bs, Com(0));
    ExecKeepsOthers(envSeg - 1, top, bs, Com(0));
    ExitLeaves(envSeg - 1, top, AfterExec(bs, Com(0)), psp);
    KeptNone(bs, psp);
    assert Kept(bs[1..], 0) == [];
  }

  /** In bytes: 100h of PSP, then the image, and every relocated word, end within the n
      paragraphs. */
  lemma WithinIff(p: Program, n: nat)
    ensures p.Within(n) <==> 0x100 + p.copied <= 16 * n && forall r | r in p.Relocs() :: 0x100 + r + 2 <= 16 * n
  {
  }

  /** EXEC never checks that what it copies fits what it grants. It does exactly when
      the room behind the environment is large enough and, for an EXE that does not ask
      for everything, the 16-bit sum of image, PSP and extra paragraphs is large enough
      too or takes nearly all of the room. */
  lemma ImageFitsIff(b: Block, p: Program)
    requires b.size >= MIN_EXEC && p.Sized()
    ensures var avail := b.size - ENV - 1;
            CopiesInside(b, p) <==>
            && p.Within(avail)
            && (p.Com? || p.maxExtra == 0xFFFF || p.Asked() + 1 >= avail || p.Within(p.Asked()))
  {
  }

  /** EXEC's blocks in place of the free block b, of 30h paragraphs or more: sixteen
      paragraphs of environment, then the program, whose PSP begins behind its header;
      both belong to that PSP. The program gets everything, or what its 16-bit sum asks
      for if at least two paragraphs are left for a free block. */
  lemma ChildIs(b: Block, p: Program)
    requires b.size >= 0x30 && p.Sized()
    ensures var psp, room, c := b.start + 0x12, b.size - 0x11, Child(b, p);
            var asked := if p.Com? then 0 else ((p.imageSize + 15) % WORD32 / 16 + 0x10 + p.maxExtra) % 0x1_0000;
            && c[0] == Block(b.start, 0x10, psp)
            && if p.Com? || p.maxExtra == 0xFFFF || asked + 1 >= room then c == [c[0], Block(psp - 1, room, psp)]
               else c == [c[0], Block(psp - 1, asked, psp), Block(psp + asked, room - asked - 1, 0)]
  {
    if p.Exe? {
      AskedIs(p);
    }
  }

  lemma AskedIs(p: Program)
    requires p.Exe? && p.Sized()
    ensures p.Asked() == ((p.imageSize + 15) % WORD32 / 16 + 0x10 + p.maxExtra) % 0x1_0000
  {
  }

  /** For an image below 1 MB that is read as a whole and relocated inside itself the sum
      is large enough unless it wraps. */
  lemma WholeImageFitsIff(b: Block, p: Program)
    requires b.size >= MIN_EXEC && p.Sized() && p.Exe? && 0 < p.copied == p.imageSize <= 0xF_FFF0
    requires forall r | r in p.relocs :: r + 1 < p.imageSize
    ensures var avail, sum := b.size - ENV - 1, (p.imageSize + 15) / 16 + PSP + p.maxExtra;
            CopiesInside(b, p) <==>
            && (p.imageSize + 15) / 16 + PSP <= avail
            && (p.maxExtra == 0xFFFF || sum < PARAGRAPHS || sum - PARAGRAPHS + 1 >= avail)
  {
    ImageFitsIff(b, p);
    assert p.ImageParas() == (p.imageSize + 15) / 16;
  }

  /** The wrapping sum: a program of 300h paragraphs that asks for FCF1h more gets one
      paragraph of a free block of 1000h. */
  lemma ImageTooLarge(start: nat)
    ensures var b, p := Block(start, 0x1000, 0), Exe(0x3000, 0xFCF1, 0x3000, []);
            p.Sized() && ProgramBlocks(b, p)[0].size == 1 && !CopiesInside(b, p)
  {
  }

  /** A flat image of FE00h bytes and the smallest block EXEC takes. */
  lemma FlatImageTooLarge(start: nat)
    ensures var b, p := Block(start, MIN_EXEC, 0), Com(0xFE00);
            p.Sized() && ProgramBlocks(b, p)[0].size == 0x1F && !CopiesInside(b, p)
  {
  }
}
