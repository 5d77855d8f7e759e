/** The DOS memory arena as it sits in conventional memory, and the calls that
    change it: INT 21h AH=48h/49h/4Ah, EXEC (4Bh) and EXIT (4Ch). */
module McbArena {
  import opened Numbers
  import opened Tiles
  import opened McbBlocks

  // ------------------------------------------------------------------
  // Headers in memory
  // ------------------------------------------------------------------

  /** First byte of a paragraph: 'M' means more blocks follow, 'Z' the last one. */
  datatype Kind = M | Z | Other

  /** The five bytes of a paragraph that matter when it is taken for a header. */
  datatype Mcb = Mcb(kind: Kind, owner: nat, size: nat)

  function HeaderOf(bs: seq<Block>, i: nat): Mcb
    requires i < |bs|
  {
    Mcb(if i + 1 == |bs| then Z else M, bs[i].owner, bs[i].size)
  }

  predicate HeaderAt(m: seq<Mcb>, bs: seq<Block>, i: nat)
    requires i < |bs|
  {
    bs[i].start < |m| && m[bs[i].start] == HeaderOf(bs, i)
  }

  /** Memory holds the headers of exactly these blocks, from root up to top. */
  ghost predicate Chain(m: seq<Mcb>, root: nat, top: nat, bs: seq<Block>) {
    && |m| == PARAGRAPHS && top < PARAGRAPHS && bs != []
    && Tiled(1, root, top, bs)
    && forall i {:trigger HeaderAt(m, bs, i)} | 0 <= i < |bs| :: HeaderAt(m, bs, i)
  }

  /** Replacing blocks is rewriting the headers in the stretch they cover. */
  lemma {:induction false} ChainReplace(m: seq<Mcb>, m': seq<Mcb>, root: nat, top: nat, bs: seq<Block>, i: nat,
                                        k: nat, new_: seq<Block>)
    requires Chain(m, root, top, bs) && 1 <= k && i + k <= |bs| && |m'| == |m| && new_ != []
    requires Tiled(1, bs[i].start, StartOf(top, bs, i + k), new_)
    requires forall p | 0 <= p < |m| && !(bs[i].start <= p < StartOf(top, bs, i + k)) :: m'[p] == m[p]
    requires forall j | 0 <= j < |new_| ::
               new_[j].start < |m'| &&
               m'[new_[j].start] == Mcb(if i + k == |bs| && j + 1 == |new_| then Z else M, new_[j].owner, new_[j].size)
    ensures Chain(m', root, top, Replace(bs, i, k, new_))
  {
    var r := Replace(bs, i, k, new_);
    ReplaceTiled(1, root, top, bs, i, k, new_);
    forall j | 0 <= j < |r| ensures HeaderAt(m', r, j) {
      if j < i {
        assert r[j] == bs[j] && HeaderAt(m, bs, j);
        TiledOrder(1, root, top, bs, j, i);
      } else if j < i + |new_| {
        assert r[j] == new_[j - i];
      } else {
        var q := j - |new_| + k;
        assert r[j] == bs[q] && HeaderAt(m, bs, q);
        if i + k < q {
          TiledOrder(1, root, top, bs, i + k, q);
        }
      }
    }
  }

  /** Anything written inside a block leaves the chain alone. */
  lemma DataKeepsChain(m: seq<Mcb>, root: nat, top: nat, bs: seq<Block>, p: nat, v: Mcb)
    requires Chain(m, root, top, bs) && p < |m| && IndexAt(bs, p) == |bs|
    ensures Chain(m[p := v], root, top, bs)
  {
    var m' := m[p := v];
    forall j | 0 <= j < |bs| ensures HeaderAt(m', bs, j) {
      assert HeaderAt(m, bs, j);
    }
  }

  /** The step from one header to the next. */
  lemma ChainStep(m: seq<Mcb>, root: nat, top: nat, bs: seq<Block>, i: nat)
    requires Chain(m, root, top, bs) && i < |bs|
    ensures root <= bs[i].start < top && bs[i].start + 1 + bs[i].size == StartOf(top, bs, i + 1) <= top
    ensures HeaderAt(m, bs, i) && m[bs[i].start].kind != Other
    ensures i + 1 < |bs| ==> HeaderAt(m, bs, i + 1)
  {
    TiledAt(1, root, top, bs, i);
    assert HeaderAt(m, bs, i);
    assert i + 1 < |bs| ==> HeaderAt(m, bs, i + 1);
  }

  // ------------------------------------------------------------------
  // What EXEC writes
  // ------------------------------------------------------------------

  /** A paragraph that is written, and how it reads as a header afterwards. */
  datatype Copy = Copy(para: nat, value: Mcb)

  /** A program file as EXEC lays it out: the paragraphs of the environment strings,
      of the command tail and of the image, and those that relocation changes, counted
      from the load segment. */
  datatype Load = Load(program: Program, env: seq<Mcb>, tail: seq<Mcb>, image: seq<Mcb>, fixed: seq<Copy>)
  {
    predicate Relocated(para: nat) {
      exists r :: r in program.Relocs() && (para == r / 16 || para == (r + 1) / 16)
    }

    predicate Wf() {
      && program.Sized() && |env| <= ENV && |tail| == 8 && program.copied <= 16 * |image| < program.copied + 16
      && forall f | f in fixed :: Relocated(f.para)
    }
  }

  /** Memory after these writes, one after the other; there are only so many
      paragraphs. */
  function Copied(m: seq<Mcb>, ws: seq<Copy>): (r: seq<Mcb>)
    ensures |r| == |m|
    decreases |ws|
  {
    if ws == [] then m
    else Copied(if ws[0].para < |m| then m[ws[0].para := ws[0].value] else m, ws[1..])
  }

  /** What loading a first program writes: its environment and two headers, then PSP,
      image and relocations. */
  function LoadHeaders(envSeg: nat, arenaParas: nat, l: Load): seq<Copy>
    requires 1 <= envSeg && 0x110 <= arenaParas
  {
    [Copy(envSeg - 1, Mcb(M, envSeg + 0x100, 0x100))] + Stretch(envSeg, l.env)
    + [Copy(envSeg - 1, Mcb(M, envSeg + 0x100, 0xFF)), Copy(envSeg + 0xFF, Mcb(Z, envSeg + 0x100, arenaParas - 0x101))]
  }

  function LoadCopies(envSeg: nat, arenaParas: nat, l: Load): seq<Copy> {
    if l.program.copied == 0 then Stretch(envSeg + 0x100, PspParas(envSeg + arenaParas, l.tail))
    else Placing(envSeg + 0x100, envSeg + arenaParas, l)
  }

  function LoadWrites(envSeg: nat, arenaParas: nat, l: Load): seq<Copy>
    requires 1 <= envSeg && 0x110 <= arenaParas
  {
    LoadHeaders(envSeg, arenaParas, l) + LoadCopies(envSeg, arenaParas, l)
  }

  /** What paragraph q, which held v, holds after these writes. */
  function Final(ws: seq<Copy>, q: nat, v: Mcb): Mcb {
    if ws == [] then v else Final(ws[1..], q, if ws[0].para == q then ws[0].value else v)
  }

  lemma {:induction false} CopiedAt(m: seq<Mcb>, ws: seq<Copy>, q: nat)
    requires q < |m|
    ensures Copied(m, ws)[q] == Final(ws, q, m[q])
    decreases |ws|
  {
    if ws != [] {
      CopiedAt(if ws[0].para < |m| then m[ws[0].para := ws[0].value] else m, ws[1..], q);
    }
  }

  lemma {:induction false} CopiedConcat(m: seq<Mcb>, a: seq<Copy>, b: seq<Copy>)
    ensures Copied(m, a + b) == Copied(Copied(m, a), b)
    decreases |a|
  {
    if a == [] {
      assert a + b == b;
    } else {
      assert (a + b)[1..] == a[1..] + b;
      CopiedConcat(if a[0].para < |m| then m[a[0].para := a[0].value] else m, a[1..], b);
    }
  }

  lemma {:induction false} FinalConcat(a: seq<Copy>, b: seq<Copy>, q: nat, v: Mcb)
    ensures Final(a + b, q, v) == Final(b, q, Final(a, q, v))
  {
    if a == [] {
      assert a + b == b;
    } else {
      assert (a + b)[1..] == a[1..] + b;
      FinalConcat(a[1..], b, q, if a[0].para == q then a[0].value else v);
    }
  }

  /** Consecutive paragraphs from `at` on. */
  function Stretch(at: nat, ps: seq<Mcb>): seq<Copy>
    decreases |ps|
  {
    if ps == [] then [] else [Copy(at, ps[0])] + Stretch(at + 1, ps[1..])
  }

  lemma {:induction false} FinalStretch(at: nat, ps: seq<Mcb>, q: nat, v: Mcb)
    ensures Final(Stretch(at, ps), q, v) == if at <= q < at + |ps| then ps[q - at] else v
    decreases |ps|
  {
    if ps != [] {
      assert Stretch(at, ps)[1..] == Stretch(at + 1, ps[1..]);
      FinalStretch(at + 1, ps[1..], q, if at == q then ps[0] else v);
    }
  }

  /** The sixteen paragraphs of a PSP: INT 20h and the segment behind the program,
      unused file handles, the handle table's size and place, INT 21h and a far
      return, and the command tail. */
  function PspParas(behind: nat, tail: seq<Mcb>): seq<Mcb> {
    var zero := Mcb(Other, 0, 0);
    [Mcb(Other, 0x20 + behind % 256 * 256, behind / 256), zero, Mcb(Other, 0xFFFF, 0xFFFF),
     Mcb(Other, 0x1400, 0x1800), zero, Mcb(Other, 0xCB21, 0), zero, zero] + tail
  }

  /** Headers of the child's blocks in b; `last` is the kind b's header had. */
  function ChildHeaders(b: Block, last: Kind, p: Program): seq<Copy>
    requires b.size >= MIN_EXEC && p.Sized()
  {
    var psp, pb := ChildPsp(b), ProgramBlocks(b, p);
    [Copy(b.start, Mcb(M, psp, ENV))]
    + if |pb| == 1 then [Copy(pb[0].start, Mcb(last, psp, pb[0].size))]
      else [Copy(pb[0].start, Mcb(M, psp, pb[0].size)), Copy(pb[1].start, Mcb(last, 0, pb[1].size))]
  }

  /** First the environment, behind a header for a larger one; then the headers. */
  function Carving(b: Block, last: Kind, l: Load): seq<Copy>
    requires b.size >= MIN_EXEC && l.Wf()
  {
    [Copy(b.start, Mcb(M, b.start + 1 + 0x100, 0x100))]
    + (Stretch(b.start + 1, l.env) + ChildHeaders(b, last, l.program))
  }

  /** Then PSP, image and relocations, wherever they end up. */
  function Copies(b: Block, l: Load): seq<Copy>
    requires b.size >= MIN_EXEC && l.Wf()
  {
    Placing(ChildPsp(b), ChildPsp(b) + ProgramBlocks(b, l.program)[0].size, l)
  }

  /** PSP, image and relocations of a program that ends at paragraph `behind`. */
  function Placing(psp: nat, behind: nat, l: Load): seq<Copy> {
    Stretch(psp, PspParas(behind, l.tail)) + (Stretch(psp + PSP, l.image) + Moved(psp + PSP, l.fixed))
  }

  /** Writes counted from a segment. */
  function Moved(seg: nat, ws: seq<Copy>): seq<Copy> {
    if ws == [] then [] else [ws[0].(para := seg + ws[0].para)] + Moved(seg, ws[1..])
  }

  /** All writes of EXEC into the largest free block. */
  function ExecWrites(bs: seq<Block>, l: Load): seq<Copy>
    requires LargestFree(bs) >= MIN_EXEC && l.Wf()
  {
    var i := Largest(bs);
    Carving(bs[i], HeaderOf(bs, i).kind, l) + Copies(bs[i], l)
  }

  /** These writes leave every header of bs as it is. */
  predicate Spared(bs: seq<Block>, ws: seq<Copy>) {
    forall j | 0 <= j < |bs| :: Final(ws, bs[j].start, HeaderOf(bs, j)) == HeaderOf(bs, j)
  }

  /** EXEC's copies leave the headers it has just written, and all others, alone. */
  predicate CopiesSpare(bs: seq<Block>, l: Load)
    requires LargestFree(bs) >= MIN_EXEC && l.Wf()
  {
    Spared(AfterExec(bs, l.program), Copies(bs[Largest(bs)], l))
  }

  lemma CopiedIff(m: seq<Mcb>, root: nat, top: nat, bs: seq<Block>, ws: seq<Copy>)
    requires Chain(m, root, top, bs)
    ensures Chain(Copied(m, ws), root, top, bs) <==> Spared(bs, ws)
  {
    forall j | 0 <= j < |bs|
      ensures HeaderAt(Copied(m, ws), bs, j) <==> Final(ws, bs[j].start, HeaderOf(bs, j)) == HeaderOf(bs, j)
    {
      assert HeaderAt(m, bs, j);
      CopiedAt(m, ws, bs[j].start);
    }
  }

  /** A paragraph of b after the carving. */
  lemma CarvingAt(b: Block, last: Kind, l: Load, q: nat, v: Mcb)
    requires b.size >= MIN_EXEC && l.Wf()
    ensures var pb, psp := ProgramBlocks(b, l.program), ChildPsp(b);
            Final(Carving(b, last, l), q, v) ==
            if q == b.start then Mcb(M, psp, ENV)
            else if q == pb[0].start then Mcb(if |pb| == 1 then last else M, psp, pb[0].size)
            else if |pb| == 2 && q == pb[1].start then Mcb(last, 0, pb[1].size)
            else if b.start < q <= b.start + |l.env| then l.env[q - b.start - 1] else v
  {
    var first, env, hs := Copy(b.start, Mcb(M, b.start + 1 + 0x100, 0x100)), Stretch(b.start + 1, l.env),
        ChildHeaders(b, last, l.program);
    var v1 := if q == b.start then first.value else v;
    assert Carving(b, last, l)[0] == first && Carving(b, last, l)[1..] == env + hs;
    FinalConcat(env, hs, q, v1);
    FinalStretch(b.start + 1, l.env, q, v1);
    ChildHeadersAt(b, last, l.program, q, Final(env, q, v1));
  }

  lemma ChildHeadersAt(b: Block, last: Kind, p: Program, q: nat, v: Mcb)
    requires b.size >= MIN_EXEC && p.Sized()
    ensures var pb, psp := ProgramBlocks(b, p), ChildPsp(b);
            Final(ChildHeaders(b, last, p), q, v) ==
            if q == b.start then Mcb(M, psp, ENV)
            else if q == pb[0].start then Mcb(if |pb| == 1 then last else M, psp, pb[0].size)
            else if |pb| == 2 && q == pb[1].start then Mcb(last, 0, pb[1].size)
            else v
  {
    var hs, pb := ChildHeaders(b, last, p), ProgramBlocks(b, p);
    if |pb| == 1 {
      FinalFew(hs[0], hs[1], hs[1], q, v);
      assert hs == [hs[0], hs[1]];
    } else {
      FinalFew(hs[0], hs[1], hs[2], q, v);
      assert hs == [hs[0], hs[1], hs[2]];
    }
  }

  lemma FinalFew(w: Copy, x: Copy, y: Copy, q: nat, v: Mcb)
    ensures var u := if q == x.para then x.value else if q == w.para then w.value else v;
            && Final([w, x], q, v) == u
            && Final([w, x, y], q, v) == if q == y.para then y.value else u
  {
    FinalThen([], w, q, v);
    FinalThen([w], x, q, v);
    FinalThen([w, x], y, q, v);
    assert [] + [w] == [w] && [w] + [x] == [w, x] && [w, x] + [y] == [w, x, y];
  }

  lemma FinalThen(ws: seq<Copy>, w: Copy, q: nat, v: Mcb)
    ensures Final(ws + [w], q, v) == if q == w.para then w.value else Final(ws, q, v)
  {
    FinalConcat(ws, [w], q, v);
    assert [w][1..] == [];
  }

  lemma CopiedFew(m: seq<Mcb>, w: Copy, x: Copy, y: Copy)
    requires w.para < |m| && x.para < |m| && y.para < |m|
    ensures Copied(m, [w, x]) == m[w.para := w.value][x.para := x.value]
    ensures Copied(m, [w, x, y]) == m[w.para := w.value][x.para := x.value][y.para := y.value]
  {
    CopiedThen(m, [], w);
    CopiedThen(m, [w], x);
    CopiedThen(m, [w, x], y);
    assert [] + [w] == [w] && [w] + [x] == [w, x] && [w, x] + [y] == [w, x, y];
  }

  lemma CopiedThen(m: seq<Mcb>, ws: seq<Copy>, w: Copy)
    requires w.para < |m|
    ensures Copied(m, ws + [w]) == Copied(m, ws)[w.para := w.value]
  {
    CopiedConcat(m, ws, [w]);
    assert [w][1..] == [];
  }

  /** The carving replaces the free block by the child's blocks. */
  lemma CarvingChain(m: seq<Mcb>, root: nat, top: nat, bs: seq<Block>, i: nat, l: Load)
    requires Chain(m, root, top, bs) && i < |bs| && bs[i].size >= MIN_EXEC && l.Wf()
    ensures Chain(Copied(m, Carving(bs[i], HeaderOf(bs, i).kind, l)), root, top,
                  Replace(bs, i, 1, Child(bs[i], l.program)))
  {
    var b, ws, c := bs[i], Carving(bs[i], HeaderOf(bs, i).kind, l), Child(bs[i], l.program);
    var m' := Copied(m, ws);
    ChildTiled(b, l.program);
    ChainStep(m, root, top, bs, i);
    forall p | 0 <= p < |m| && !(b.start <= p < StartOf(top, bs, i + 1)) ensures m'[p] == m[p] {
      CopiedAt(m, ws, p);
      CarvingAt(b, HeaderOf(bs, i).kind, l, p, m[p]);
    }
    forall j | 0 <= j < |c|
      ensures c[j].start < |m'|
      ensures m'[c[j].start] == Mcb(if i + 1 == |bs| && j + 1 == |c| then Z else M, c[j].owner, c[j].size)
    {
      TiledAt(1, b.start, b.End(1), c, j);
      CopiedAt(m, ws, c[j].start);
      CarvingAt(b, HeaderOf(bs, i).kind, l, c[j].start, m[c[j].start]);
    }
    ChainReplace(m, m', root, top, bs, i, 1, c);
  }

  lemma {:induction false} MovedElsewhere(seg: nat, ws: seq<Copy>, q: nat, v: Mcb)
    requires forall w | w in ws :: seg + w.para != q
    ensures Final(Moved(seg, ws), q, v) == v
  {
    if ws != [] {
      MovedElsewhere(seg, ws[1..], q, v);
    }
  }

  /** Copies that stay inside the program's block change no paragraph elsewhere. */
  lemma InsideElsewhere(b: Block, l: Load, q: nat, v: Mcb)
    requires b.size >= MIN_EXEC && l.Wf() && CopiesInside(b, l.program)
    requires var n := ProgramBlocks(b, l.program)[0].size; !(ChildPsp(b) <= q < ChildPsp(b) + n)
    ensures Final(Copies(b, l), q, v) == v
  {
    var psp, n := ChildPsp(b), ProgramBlocks(b, l.program)[0].size;
    var head, image, fixed := Stretch(psp, PspParas(psp + n, l.tail)), Stretch(psp + PSP, l.image),
        Moved(psp + PSP, l.fixed);
    FinalConcat(head, image + fixed, q, v);
    FinalStretch(psp, PspParas(psp + n, l.tail), q, v);
    FinalConcat(image, fixed, q, v);
    FinalStretch(psp + PSP, l.image, q, v);
    forall w | w in l.fixed ensures psp + PSP + w.para != q {
      assert l.Relocated(w.para);
    }
    MovedElsewhere(psp + PSP, l.fixed, q, v);
  }

  /** Copies that stay inside the block EXEC grants spare every header. */
  lemma InsideSpares(root: nat, top: nat, bs: seq<Block>, l: Load)
    requires Tiled(1, root, top, bs) && LargestFree(bs) >= MIN_EXEC && l.Wf()
    requires CopiesInside(bs[Largest(bs)], l.program)
    ensures CopiesSpare(bs, l)
  {
    var i := Largest(bs);
    var b, r := bs[i], AfterExec(bs, l.program);
    ExecTiled(root, top, bs, l.program);
    assert r[i + 1] == ProgramBlocks(b, l.program)[0];
    TiledAt(1, root, top, r, i + 1);
    forall j | 0 <= j < |r| ensures Final(Copies(b, l), r[j].start, HeaderOf(r, j)) == HeaderOf(r, j) {
      if j <= i {
        TiledOrder(1, root, top, r, j, i + 1);
      } else if j > i + 1 {
        TiledOrder(1, root, top, r, i + 1, j);
      }
      InsideElsewhere(b, l, r[j].start, HeaderOf(r, j));
    }
  }

  /** After EXEC's writes memory holds the blocks of the list model exactly when the
      copies spare their headers. */
  lemma ExecChainIff(m: seq<Mcb>, root: nat, top: nat, bs: seq<Block>, l: Load)
    requires Chain(m, root, top, bs) && LargestFree(bs) >= MIN_EXEC && l.Wf()
    ensures Chain(Copied(m, ExecWrites(bs, l)), root, top, AfterExec(bs, l.program)) <==> CopiesSpare(bs, l)
  {
    var i := Largest(bs);
    var carving := Carving(bs[i], HeaderOf(bs, i).kind, l);
    CarvingChain(m, root, top, bs, i, l);
    CopiedIff(Copied(m, carving), root, top, AfterExec(bs, l.program), Copies(bs[i], l));
    CopiedConcat(m, carving, Copies(bs[i], l));
  }

  /** After loading a first program its image with every relocation, and its PSP. */
  lemma LoadLeaves(m: seq<Mcb>, envSeg: nat, arenaParas: nat, l: Load, hs: seq<Copy>, ws: seq<Copy>)
    requires |m| == PARAGRAPHS && 1 <= envSeg && envSeg + arenaParas < PARAGRAPHS && 0x110 <= arenaParas && l.Wf()
    requires ws == hs + Placing(envSeg + 0x100, envSeg + arenaParas, l)
    ensures ProgramAt(Copied(m, ws), envSeg + 0x100, envSeg + arenaParas, l)
  {
    PlacedAfter(m, hs, envSeg + 0x100, envSeg + arenaParas, l);
  }

  lemma LoadWritesAre(envSeg: nat, arenaParas: nat, l: Load)
    requires 1 <= envSeg && 0x110 <= arenaParas && l.program.copied > 0
    ensures LoadWrites(envSeg, arenaParas, l)
            == LoadHeaders(envSeg, arenaParas, l) + Placing(envSeg + 0x100, envSeg + arenaParas, l)
  {
  }

  lemma PlacingAbove(psp: nat, behind: nat, l: Load, q: nat, v: Mcb)
    requires q < psp
    ensures Final(Placing(psp, behind, l), q, v) == v
  {
    var head, image, fixed := PspParas(behind, l.tail), Stretch(psp + PSP, l.image), Moved(psp + PSP, l.fixed);
    FinalConcat(Stretch(psp, head), image + fixed, q, v);
    FinalStretch(psp, head, q, v);
    FinalConcat(image, fixed, q, v);
    FinalStretch(psp + PSP, l.image, q, v);
    FinalMoved(psp + PSP, l.fixed, q, v);
  }

  lemma LoadCopiesAbove(envSeg: nat, arenaParas: nat, l: Load, q: nat, v: Mcb)
    requires q < envSeg + 0x100
    ensures Final(LoadCopies(envSeg, arenaParas, l), q, v) == v
  {
    FinalStretch(envSeg + 0x100, PspParas(envSeg + arenaParas, l.tail), q, v);
    PlacingAbove(envSeg + 0x100, envSeg + arenaParas, l, q, v);
  }

  /** Whatever memory held, it holds the two blocks of a fresh program then. */
  lemma LoadChain(m: seq<Mcb>, envSeg: nat, arenaParas: nat, l: Load)
    requires |m| == PARAGRAPHS && 1 <= envSeg && 0x110 <= arenaParas && envSeg + arenaParas < PARAGRAPHS
    ensures Chain(Copied(m, LoadWrites(envSeg, arenaParas, l)), envSeg - 1, envSeg + arenaParas - 1,
                  Loaded(envSeg, arenaParas))
  {
    var bs, ws := Loaded(envSeg, arenaParas), LoadWrites(envSeg, arenaParas, l);
    var start := [Copy(envSeg - 1, Mcb(M, envSeg + 0x100, 0x100))] + Stretch(envSeg, l.env);
    var hs := [Copy(envSeg - 1, HeaderOf(bs, 0)), Copy(envSeg + 0xFF, HeaderOf(bs, 1))];
    TiledTwo(1, bs[0], bs[1]);
    forall j | 0 <= j < 2 ensures HeaderAt(Copied(m, ws), bs, j) {
      var q := bs[j].start;
      CopiedAt(m, ws, q);
      FinalConcat(LoadHeaders(envSeg, arenaParas, l), LoadCopies(envSeg, arenaParas, l), q, m[q]);
      FinalConcat(start, hs, q, m[q]);
      FinalFew(hs[0], hs[1], hs[1], q, Final(start, q, m[q]));
      LoadCopiesAbove(envSeg, arenaParas, l, q, HeaderOf(bs, j));
    }
  }

  /** EXEC, any calls of the child on its own or free blocks, EXIT: memory holds the
      child's blocks while it runs, and the arena is afterwards the one before with
      neighbouring free blocks merged, exactly when the copies spare the headers and
      no block already carried the child's PSP as its owner. */
  lemma ExecRunExit(m: seq<Mcb>, root: nat, top: nat, bs: seq<Block>, l: Load, calls: seq<Call>)
    requires Chain(m, root, top, bs) && LargestFree(bs) >= MIN_EXEC && l.Wf()
    requires OwnRun(AfterExec(bs, l.program), ChildPsp(bs[Largest(bs)]), calls)
    ensures var psp, start := ChildPsp(bs[Largest(bs)]), AfterExec(bs, l.program);
            && Chain(Copied(m, ExecWrites(bs, l)), root, top, start)
            && AfterExit(Run(start, psp, calls), psp) == Coalesce(1, bs)
            <==> CopiesSpare(bs, l) && !Owns(bs, psp)
  {
    var psp, start := ChildPsp(bs[Largest(bs)]), AfterExec(bs, l.program);
    ExecChainIff(m, root, top, bs, l);
    ExecTiled(root, top, bs, l.program);
    ExecKeepsOthers(root, top, bs, l.program);
    RunKeepsOthers(root, top, start, psp, calls);
    ExitLeaves(root, top, Run(start, psp, calls), psp);
    KeptAllIff(bs, psp);
    CoalesceTiled(1, root, top, bs);
    CoalesceIsFill(1, root, top, bs);
  }

  /** Whenever the copies spare the headers, the other owners keep their blocks and
      the child keeps none. */
  lemma ExecRunExitOthers(m: seq<Mcb>, root: nat, top: nat, bs: seq<Block>, l: Load, calls: seq<Call>, b: Block)
    requires Chain(m, root, top, bs) && LargestFree(bs) >= MIN_EXEC && l.Wf() && CopiesSpare(bs, l)
    requires OwnRun(AfterExec(bs, l.program), ChildPsp(bs[Largest(bs)]), calls)
    ensures var psp, start := ChildPsp(bs[Largest(bs)]), AfterExec(bs, l.program);
            var r := AfterExit(Run(start, psp, calls), psp);
            && Chain(Copied(m, ExecWrites(bs, l)), root, top, start)
            && !Owns(r, psp)
            && (b.owner != 0 && b.owner != psp ==> (b in r <==> b in bs))
  {
    var psp, start := ChildPsp(bs[Largest(bs)]), AfterExec(bs, l.program);
    var during := Run(start, psp, calls);
    var r := AfterExit(during, psp);
    ExecChainIff(m, root, top, bs, l);
    ExecTiled(root, top, bs, l.program);
    ExecKeepsOthers(root, top, bs, l.program);
    RunKeepsOthers(root, top, start, psp, calls);
    ExitLeaves(root, top, during, psp);
    KeptMember(bs, psp, b);
    KeptMember(r, 0, b);
    forall j | 0 <= j < |r| ensures r[j].owner != psp {
      KeptMember(r, 0, r[j]);
      KeptMember(during, psp, r[j]);
    }
  }

  /** A fourth header of a kind no block has: no list of blocks describes the arena. */
  lemma FourthHeaderBad(m: seq<Mcb>, root: nat, top: nat, b: nat, c: nat, d: nat)
    requires |m| == PARAGRAPHS && root < |m| && b < |m| && c < |m| && d < |m|
    requires m[root].kind == M && b == root + 1 + m[root].size
    requires m[b].kind == M && c == b + 1 + m[b].size
    requires m[c].kind == M && d == c + 1 + m[c].size && m[d].kind == Other
    ensures forall bs :: !Chain(m, root, top, bs)
  {
    forall bs ensures !Chain(m, root, top, bs) {
      if Chain(m, root, top, bs) {
        ChainStep(m, root, top, bs, 0);
        ChainStep(m, root, top, bs, 1);
        ChainStep(m, root, top, bs, 2);
        ChainStep(m, root, top, bs, 3);
        assert false;
      }
    }
  }

  /** Memory holds a program from its PSP on: the PSP's paragraphs; where a paragraph
      was relocated, its last value; and the image everywhere else. Folded by `Shown`. */
  ghost predicate ProgramAt(m: seq<Mcb>, psp: nat, behind: nat, l: Load) {
    forall z {:trigger Shown(z)} | Shown(z) :: PspIn(m, psp, behind, l.tail) && ImageIn(m, psp + 0x10, l.image, l.fixed)
  }

  ghost predicate PspIn(m: seq<Mcb>, psp: nat, behind: nat, tail: seq<Mcb>) {
    && |tail| == 8 && psp + 16 <= |m|
    && forall k {:trigger PspParas(behind, tail)[k]} | 0 <= k < 16 :: m[psp + k] == PspParas(behind, tail)[k]
  }

  ghost predicate ImageIn(m: seq<Mcb>, seg: nat, image: seq<Mcb>, fixed: seq<Copy>) {
    && (forall j {:trigger fixed[j]} | 0 <= j < |fixed| && seg + fixed[j].para < |m|
            && (forall i | j < i < |fixed| :: fixed[i].para != fixed[j].para) ::
          m[seg + fixed[j].para] == fixed[j].value)
    && (forall k {:trigger image[k]} | 0 <= k < |image| && seg + k < |m|
            && (forall f | f in fixed :: f.para != k) :: m[seg + k] == image[k])
  }

  /** Byte i of the first half of a PSP: INT 20h, the segment behind the program, INT
      21h and a far return, the parent, file handles, the environment, size and place
      of the handle table, and again INT 21h and a far return. */
  function PspByte(i: nat, behind: nat, parent: nat, env: nat, psp: nat): nat {
    if i == 0 then 0xCD else if i == 1 then 0x20
    else if i == 2 then behind % 0x100 else if i == 3 then behind / 0x100
    else if i == 5 then 0xCD else if i == 6 then 0x21 else if i == 7 then 0xCB
    else if i == 0x16 then parent % 0x100 else if i == 0x17 then parent / 0x100
    else if 0x18 <= i <= 0x1A then 1
    else if 0x1D <= i <= 0x2B then 0xFF
    else if i == 0x2C then env % 0x100 else if i == 0x2D then env / 0x100
    else if i == 0x32 then 20 else if i == 0x34 then 0x18
    else if i == 0x36 then psp % 0x100 else if i == 0x37 then psp / 0x100
    else if i == 0x50 then 0xCD else if i == 0x51 then 0x21 else if i == 0x52 then 0xCB
    else 0
  }

  /** Five bytes taken for a header. */
  function ReadsAs(kind: nat, o0: nat, o1: nat, s0: nat, s1: nat): Mcb {
    Mcb(if kind == 0x4D then M else if kind == 0x5A then Z else Other, o0 + 0x100 * o1, s0 + 0x100 * s1)
  }

  /** The paragraphs of a PSP are what its bytes read as. */
  lemma PspReads(k: nat, behind: nat, parent: nat, env: nat, psp: nat, tail: seq<Mcb>)
    requires k < 8
    ensures var p := 16 * k;
            PspParas(behind, tail)[k] ==
            ReadsAs(PspByte(p, behind, parent, env, psp), PspByte(p + 1, behind, parent, env, psp),
                    PspByte(p + 2, behind, parent, env, psp), PspByte(p + 3, behind, parent, env, psp),
                    PspByte(p + 4, behind, parent, env, psp))
  {
  }

  /** Paragraphs EXEC grants to a program. */
  function ChildSize(bs: seq<Block>, p: Program): nat
    requires LargestFree(bs) >= MIN_EXEC && p.Sized()
  {
    ProgramBlocks(bs[Largest(bs)], p)[0].size
  }

  lemma {:induction false} FinalMoved(seg: nat, ws: seq<Copy>, q: nat, v: Mcb)
    ensures Final(Moved(seg, ws), q, v) == if q < seg then v else Final(ws, q - seg, v)
  {
    if ws != [] {
      assert Moved(seg, ws)[1..] == Moved(seg, ws[1..]);
      FinalMoved(seg, ws[1..], q, if seg + ws[0].para == q then ws[0].value else v);
    }
  }

  lemma {:induction false} FinalUnhit(ws: seq<Copy>, q: nat, v: Mcb)
    requires forall w | w in ws :: w.para != q
    ensures Final(ws, q, v) == v
  {
    if ws != [] {
      FinalUnhit(ws[1..], q, v);
    }
  }

  /** The last write to a paragraph decides. */
  lemma FinalLast(ws: seq<Copy>, j: nat, v: Mcb)
    requires j < |ws| && forall i | j < i < |ws| :: ws[i].para != ws[j].para
    ensures Final(ws, ws[j].para, v) == ws[j].value
  {
    var rest := ws[j + 1..];
    forall w | w in rest ensures w.para != ws[j].para {
      var i :| 0 <= i < |rest| && rest[i] == w;
      assert w == ws[j + 1 + i];
    }
    assert ws == ws[..j + 1] + rest && ws[..j + 1] == ws[..j] + [ws[j]];
    FinalConcat(ws[..j + 1], rest, ws[j].para, v);
    FinalThen(ws[..j], ws[j], ws[j].para, v);
    FinalUnhit(rest, ws[j].para, ws[j].value);
  }

  /** Writing image and relocations over any memory puts the program there. */
  lemma ProgramWritten(m: seq<Mcb>, seg: nat, image: seq<Mcb>, fixed: seq<Copy>)
    ensures ImageIn(Copied(m, Stretch(seg, image) + Moved(seg, fixed)), seg, image, fixed)
  {
    var m' := Copied(m, Stretch(seg, image) + Moved(seg, fixed));
    forall q | seg <= q < |m|
      ensures m'[q] == Final(fixed, q - seg, if q < seg + |image| then image[q - seg] else m[q])
    {
      CopiedAt(m, Stretch(seg, image) + Moved(seg, fixed), q);
      FinalConcat(Stretch(seg, image), Moved(seg, fixed), q, m[q]);
      FinalStretch(seg, image, q, m[q]);
      FinalMoved(seg, fixed, q, Final(Stretch(seg, image), q, m[q]));
    }
    forall j | 0 <= j < |fixed| && seg + fixed[j].para < |m|
               && (forall i | j < i < |fixed| :: fixed[i].para != fixed[j].para)
      ensures m'[seg + fixed[j].para] == fixed[j].value
    {
      var q := seg + fixed[j].para;
      FinalLast(fixed, j, if q < seg + |image| then image[q - seg] else m[q]);
    }
    forall k | 0 <= k < |image| && seg + k < |m| && (forall f | f in fixed :: f.para != k)
      ensures m'[seg + k] == image[k]
    {
      FinalUnhit(fixed, k, image[k]);
    }
  }

  /** A PSP written in front of a program stays: image and relocations lie behind. */
  lemma PspWritten(m: seq<Mcb>, psp: nat, behind: nat, l: Load)
    requires |l.tail| == 8 && psp + 16 <= |m|
    ensures PspIn(Copied(m, Stretch(psp, PspParas(behind, l.tail))
                            + (Stretch(psp + PSP, l.image) + Moved(psp + PSP, l.fixed))), psp, behind, l.tail)
  {
    var head, image, fixed := PspParas(behind, l.tail), Stretch(psp + PSP, l.image), Moved(psp + PSP, l.fixed);
    forall q | psp <= q < psp + 16 ensures Copied(m, Stretch(psp, head) + (image + fixed))[q] == head[q - psp] {
      CopiedAt(m, Stretch(psp, head) + (image + fixed), q);
      FinalConcat(Stretch(psp, head), image + fixed, q, m[q]);
      FinalStretch(psp, head, q, m[q]);
      FinalConcat(image, fixed, q, head[q - psp]);
      FinalStretch(psp + PSP, l.image, q, head[q - psp]);
      FinalMoved(psp + PSP, l.fixed, q, head[q - psp]);
    }
  }

  lemma Placed(m: seq<Mcb>, psp: nat, behind: nat, l: Load)
    requires |l.tail| == 8 && psp + 16 <= |m|
    ensures ProgramAt(Copied(m, Placing(psp, behind, l)), psp, behind, l)
  {
    var head := Stretch(psp, PspParas(behind, l.tail));
    PspWritten(m, psp, behind, l);
    CopiedConcat(m, head, Stretch(psp + PSP, l.image) + Moved(psp + PSP, l.fixed));
    ProgramWritten(Copied(m, head), psp + PSP, l.image, l.fixed);
  }

  lemma PlacedAfter(m: seq<Mcb>, ws: seq<Copy>, psp: nat, behind: nat, l: Load)
    requires |l.tail| == 8 && psp + 16 <= |m|
    ensures ProgramAt(Copied(m, ws + Placing(psp, behind, l)), psp, behind, l)
  {
    CopiedConcat(m, ws, Placing(psp, behind, l));
    Placed(Copied(m, ws), psp, behind, l);
  }

  /** What a paragraph holds after EXEC. */
  lemma ExecAt(m: seq<Mcb>, bs: seq<Block>, l: Load, q: nat)
    requires q < |m| && LargestFree(bs) >= MIN_EXEC && l.Wf()
    ensures var i := Largest(bs);
            Copied(m, ExecWrites(bs, l))[q] ==
            Final(Copies(bs[i], l), q, Final(Carving(bs[i], HeaderOf(bs, i).kind, l), q, m[q]))
  {
    var i := Largest(bs);
    CopiedAt(m, ExecWrites(bs, l), q);
    FinalConcat(Carving(bs[i], HeaderOf(bs, i).kind, l), Copies(bs[i], l), q, m[q]);
  }

  /** After EXEC, wherever the program was put: its image with every relocation, its
      PSP, and in front of it the environment. */
  lemma ExecLeaves(m: seq<Mcb>, root: nat, top: nat, bs: seq<Block>, l: Load)
    requires Chain(m, root, top, bs) && LargestFree(bs) >= MIN_EXEC && l.Wf()
    ensures var psp := bs[Largest(bs)].start + 0x12;
            ProgramAt(Copied(m, ExecWrites(bs, l)), psp, psp + ChildSize(bs, l.program), l)
  {
    var i := Largest(bs);
    var b := bs[i];
    var carving := Carving(b, HeaderOf(bs, i).kind, l);
    ChainStep(m, root, top, bs, i);
    PlacedAfter(m, carving, ChildPsp(b), ChildPsp(b) + ChildSize(bs, l.program), l);
  }

  /** All of memory after EXEC of l in the arena bs, and what that means for the child.
      Folded by `Shown`. */
  ghost predicate Executed(m: seq<Mcb>, bs: seq<Block>, l: Load, m': seq<Mcb>)
    requires LargestFree(bs) >= MIN_EXEC && l.Wf()
  {
    forall z {:trigger Shown(z)} | Shown(z) ::
      && m' == Copied(m, ExecWrites(bs, l))
      && var psp := bs[Largest(bs)].start + 0x12; ProgramAt(m', psp, psp + ChildSize(bs, l.program), l)
  }

  /** Below the child's PSP memory is as carved. */
  lemma BelowChild(m: seq<Mcb>, bs: seq<Block>, l: Load, q: nat)
    requires q < |m| && LargestFree(bs) >= MIN_EXEC && l.Wf() && q < ChildPsp(bs[Largest(bs)])
    ensures var i := Largest(bs);
            Copied(m, ExecWrites(bs, l))[q] == Final(Carving(bs[i], HeaderOf(bs, i).kind, l), q, m[q])
  {
    var i := Largest(bs);
    ExecAt(m, bs, l, q);
    PlacingAbove(ChildPsp(bs[i]), ChildPsp(bs[i]) + ChildSize(bs, l.program), l, q,
                 Final(Carving(bs[i], HeaderOf(bs, i).kind, l), q, m[q]));
  }

  /** ... in front of it the environment, and in front of that nothing has changed. */
  lemma ExecLeavesEnv(m: seq<Mcb>, root: nat, top: nat, bs: seq<Block>, l: Load)
    requires Chain(m, root, top, bs) && LargestFree(bs) >= MIN_EXEC && l.Wf()
    ensures var b, m' := bs[Largest(bs)], Copied(m, ExecWrites(bs, l));
            && b.start + 0x10 < |m'|
            && (forall k {:trigger l.env[k]} | 0 <= k < |l.env| :: m'[b.start + 1 + k] == l.env[k])
            && forall q {:trigger m'[q]} | 0 <= q < b.start :: m'[q] == m[q]
  {
    var i := Largest(bs);
    var b, m' := bs[i], Copied(m, ExecWrites(bs, l));
    ChainStep(m, root, top, bs, i);
    forall q | 0 <= q < b.start + 0x11
      ensures m'[q] == Final(Carving(b, HeaderOf(bs, i).kind, l), q, m[q])
    {
      BelowChild(m, bs, l, q);
    }
    forall q | 0 <= q < b.start ensures m'[q] == m[q] {
      CarvingAt(b, HeaderOf(bs, i).kind, l, q, m[q]);
    }
    forall k | 0 <= k < |l.env| ensures m'[b.start + 1 + k] == l.env[k] {
      CarvingAt(b, HeaderOf(bs, i).kind, l, b.start + 1 + k, m[b.start + 1 + k]);
    }
  }

  /** The header before the child's blocks stays, theirs are as carved. */
  lemma ExecHeaders(m: seq<Mcb>, root: nat, top: nat, bs: seq<Block>, l: Load)
    requires Chain(m, root, top, bs) && |bs| == 3 && !bs[0].Free() && bs[1].Free() && !bs[2].Free()
    requires bs[1].size >= MIN_EXEC && l.Wf()
    ensures LargestFree(bs) == bs[1].size && Largest(bs) == 1
    ensures var m', b := Copied(m, ExecWrites(bs, l)), bs[1];
            && b.start + 0x11 < |m'| && root < |m'|
            && m'[root] == Mcb(M, bs[0].owner, bs[0].size) && b.start == root + 1 + bs[0].size
            && m'[b.start] == Mcb(M, ChildPsp(b), ENV)
            && m'[b.start + 0x11] == Mcb(M, ChildPsp(b), ProgramBlocks(b, l.program)[0].size)
  {
    assert bs[1..][0] == bs[1] && bs[1..][1..] == [bs[2]];
    ChainStep(m, root, top, bs, 0);
    ChainStep(m, root, top, bs, 1);
    var b := bs[1];
    BelowChild(m, bs, l, root);
    CarvedHeader(b, M, l, root, m[root]);
    BelowChild(m, bs, l, b.start);
    CarvedHeader(b, M, l, b.start, m[b.start]);
    BelowChild(m, bs, l, b.start + 0x11);
    CarvedHeader(b, M, l, b.start + 0x11, m[b.start + 0x11]);
  }

  lemma CarvedHeader(b: Block, kind: Kind, l: Load, q: nat, v: Mcb)
    requires b.size >= MIN_EXEC && l.Wf() && (q <= b.start || q == b.start + 0x11)
    ensures Final(Carving(b, kind, l), q, v) ==
            if q < b.start then v else if q == b.start then Mcb(M, ChildPsp(b), ENV)
            else var pb := ProgramBlocks(b, l.program);
                 Mcb(if |pb| == 1 then kind else M, ChildPsp(b), pb[0].size)
  {
    CarvingAt(b, kind, l, q, v);
  }

  /** The program of ImageTooLarge gets one paragraph, and its PSP wipes the header
      behind it. */
  lemma PspBreaksChain(m: seq<Mcb>, bs: seq<Block>, l: Load)
    requires bs == [Block(0xFFF, 0xFF, 0x1100), Block(0x10FF, 0x1000, 0), Block(0x2100, 0x10, 0x1100)]
    requires l.Wf() && l.program == Exe(0x3000, 0xFCF1, 0x3000, [])
    requires Chain(m, 0xFFF, 0x2111, bs)
    ensures LargestFree(bs) >= MIN_EXEC && !Owns(bs, ChildPsp(bs[Largest(bs)]))
    ensures forall r :: !Chain(Copied(m, ExecWrites(bs, l)), 0xFFF, 0x2111, r)
  {
    ExecHeaders(m, 0xFFF, 0x2111, bs, l);
    ImageTooLarge(0x10FF);
    ExecLeaves(m, 0xFFF, 0x2111, bs, l);
    assert Shown(0);
    assert PspParas(0x1112, l.tail)[1] == Mcb(Other, 0, 0);
    FourthHeaderBad(Copied(m, ExecWrites(bs, l)), 0xFFF, 0x2111, 0x10FF, 0x1110, 0x1112);
  }

  /** A flat image of FE00h bytes, read into the smallest block EXEC takes, covers the
      header behind it. */
  lemma ImageBreaksChain(m: seq<Mcb>, bs: seq<Block>, l: Load)
    requires bs == [Block(0x1000, 0x10, 7), Block(0x1011, 0x30, 0), Block(0x1042, 0x2000, 7)]
    requires l.Wf() && l.program == Com(0xFE00) && l.image[0xF].kind == Other
    requires Chain(m, 0x1000, 0x3043, bs)
    ensures LargestFree(bs) >= MIN_EXEC && !Owns(bs, ChildPsp(bs[Largest(bs)]))
    ensures forall r :: !Chain(Copied(m, ExecWrites(bs, l)), 0x1000, 0x3043, r)
  {
    ExecHeaders(m, 0x1000, 0x3043, bs, l);
    FlatImageTooLarge(0x1011);
    ExecLeaves(m, 0x1000, 0x3043, bs, l);
    assert Shown(0);
    assert l.fixed == [] by { assert l.fixed != [] ==> l.Relocated(l.fixed[0].para); }
    assert l.image[0xF] == Copied(m, ExecWrites(bs, l))[0x1042];
    FourthHeaderBad(Copied(m, ExecWrites(bs, l)), 0x1000, 0x3043, 0x1011, 0x1022, 0x1042);
  }

  // ------------------------------------------------------------------
  // Task state
  // ------------------------------------------------------------------

  /** Registers no memory call reads or changes. */
  datatype Others = Others(ecx: nat, edx: nat, esi: nat, edi: nat, ebp: nat, esp: nat, eip: nat,
                           cs: nat, ss: nat, ds: nat, eaxHigh: nat, ebxHigh: nat, flags: nat)

  datatype Regs = Regs(ax: nat, bx: nat, es: nat, cf: bool, others: Others)

  datatype Option = None | Some(load: Load)

  datatype Saved = NoParent | Parent(regs: Regs, psp: nat, dtaSeg: nat, dtaOff: nat, nextAlloc: nat)

  const NOT_FOUND: nat := 2
  const NO_MEMORY: nat := 8
  const BAD_BLOCK: nat := 9

  /** The paragraph before segment s, in 16-bit arithmetic. */
  function Before(s: nat): nat { if s == 0 then PARAGRAPHS - 1 else s - 1 }

  function Sum16(a: nat, b: nat): nat
    requires a < PARAGRAPHS && b < PARAGRAPHS
  {
    if a + b < PARAGRAPHS then a + b else a + b - PARAGRAPHS
  }

  class Task {
    const mem: array<Mcb>
    var root: nat
    var psp: nat
    var dtaSeg: nat
    var dtaOff: nat
    var nextAlloc: nat
    var parent: Saved
    ghost var top: nat
    ghost var blocks: seq<Block>

    ghost predicate Valid()
      reads this, mem
    {
      Chain(mem[..], root, top, blocks)
    }

    constructor (psp0: nat)
      ensures fresh(mem) && mem.Length == PARAGRAPHS && parent == NoParent && psp == psp0
    {
      mem := new Mcb[PARAGRAPHS](p => Mcb(Other, 0, 0));
      psp, dtaSeg, dtaOff, nextAlloc, parent := psp0, psp0, 0x80, 0x2000, NoParent;
      root, top, blocks := 0, 0, [];
    }

    /** The chain a freshly loaded EXE starts with: its environment, then one block
        up to the end of the arena. The size check is made in 32 bits; a file without
        an image fails after the headers are written. Everything copied ends up above
        the headers. */
    method LoadExe(envSeg: nat, arenaParas: nat, l: Load) returns (ok: bool)
      requires mem.Length == PARAGRAPHS && 1 <= envSeg && 0x110 <= arenaParas && envSeg + arenaParas < PARAGRAPHS
      requires l.Wf() && l.program.Exe?
      modifies mem, `root, `top, `blocks
      ensures var fits := ((envSeg + 0x110) * 16 + l.program.imageSize) % WORD32 <= (envSeg + arenaParas) * 16;
              && (ok <==> fits && l.program.copied > 0)
              && if fits then
                   && Valid() && root == envSeg - 1 && top == envSeg + arenaParas - 1
                   && blocks == Loaded(envSeg, arenaParas)
                   && mem[..] == Copied(old(mem[..]), LoadWrites(envSeg, arenaParas, l))
                   && (ok ==> ProgramAt(mem[..], envSeg + 0x100, envSeg + arenaParas, l))
                 else mem[..] == old(mem[..]) && blocks == old(blocks) && root == old(root) && top == old(top)
    {
      var pspSeg := envSeg + 0x100;
      var loadSeg := pspSeg + 0x10;
      var arenaTop := envSeg + arenaParas;
      if (loadSeg * 16 + l.program.imageSize) % WORD32 > arenaTop * 16 {
        return false;
      }
      LoadChain(mem[..], envSeg, arenaParas, l);
      if l.program.copied > 0 {
        LoadWritesAre(envSeg, arenaParas, l);
        LoadLeaves(mem[..], envSeg, arenaParas, l, LoadHeaders(envSeg, arenaParas, l),
                   LoadWrites(envSeg, arenaParas, l));
      }
      WriteStart(envSeg, arenaParas, l);
      root, top, blocks := envSeg - 1, arenaTop - 1, Loaded(envSeg, arenaParas);
      ok := l.program.copied > 0;
    }

    method WriteStart(envSeg: nat, arenaParas: nat, l: Load)
      requires mem.Length == PARAGRAPHS && 1 <= envSeg && 0x110 <= arenaParas && envSeg + arenaParas < PARAGRAPHS
      requires l.Wf()
      modifies mem
      ensures mem[..] == Copied(old(mem[..]), LoadWrites(envSeg, arenaParas, l))
    {
      var pspSeg := envSeg + 0x100;
      var env := [Copy(envSeg - 1, Mcb(M, envSeg + 0x100, 0x100))] + Stretch(envSeg, l.env);
      CopiedConcat(mem[..], LoadHeaders(envSeg, arenaParas, l), LoadCopies(envSeg, arenaParas, l));
      CopiedConcat(mem[..], env, LoadHeaders(envSeg, arenaParas, l)[|env|..]);
      Put(env);
      Put([Copy(envSeg - 1, Mcb(M, envSeg + 0x100, pspSeg - 1 - envSeg)),
           Copy(pspSeg - 1, Mcb(Z, pspSeg, envSeg + arenaParas - pspSeg - 1))]);
      Put(LoadCopies(envSeg, arenaParas, l));
    }

    // ----------------------------------------------------------------
    // AH=48h and its twin for kernel callers
    // ----------------------------------------------------------------

    /** Claim `paras` paragraphs of the free block at ms, splitting off the rest. */
    method Claim(ms: nat, paras: nat, ghost i: nat)
      requires Valid() && i < |blocks| && blocks[i].start == ms && Fits(blocks[i], paras)
      modifies mem, `blocks
      ensures Valid() && blocks == Replace(old(blocks), i, 1, Carve(1, 1, old(blocks)[i], paras, psp))
    {
      ghost var before, c := mem[..], Carve(1, 1, blocks[i], paras, psp);
      ChainStep(before, root, top, blocks, i);
      CarveTiled(1, 1, blocks[i], paras, psp);
      var h := mem[ms];
      mem[ms] := h.(owner := psp);
      if h.size > paras + 1 {
        mem[ms] := Mcb(M, psp, paras);
        mem[ms + 1 + paras] := Mcb(h.kind, 0, h.size - paras - 1);
      }
      ChainReplace(before, mem[..], root, top, blocks, i, 1, c);
      blocks := Replace(blocks, i, 1, c);
    }

    /** INT 21h AH=48h. On failure BX is the largest free block. */
    method AllocateMemory(regs: Regs) returns (r: Regs)
      requires Valid()
      modifies mem, `blocks
      ensures Valid() && blocks == AfterAlloc(old(blocks), regs.bx, psp)
      ensures var i := FirstFit(old(blocks), regs.bx);
              r == if i < |old(blocks)| then regs.(ax := old(blocks)[i].start + 1, cf := false)
                   else regs.(ax := NO_MEMORY, bx := LargestFree(old(blocks)), cf := true)
    {
      ghost var k := 0;
      var ms, largest := root, 0;
      while true
        invariant Valid() && blocks == old(blocks) && mem[..] == old(mem[..])
        invariant 0 <= k < |blocks| && ms == blocks[k].start
        invariant forall j | 0 <= j < k :: !Fits(blocks[j], regs.bx)
        invariant IsLargest(blocks, k, largest)
        decreases |blocks| - k
      {
        ChainStep(mem[..], root, top, blocks, k);
        var h := mem[ms];
        if h.owner == 0 && h.size >= regs.bx {
          FirstFitIs(blocks, regs.bx, k);
          Claim(ms, regs.bx, k);
          return regs.(ax := ms + 1, cf := false);
        }
        if h.owner == 0 && h.size > largest {
          largest := h.size;
        }
        assert IsLargest(blocks, k + 1, largest);
        if h.kind == Z {
          break;
        }
        ms := ms + 1 + h.size;
        k := k + 1;
      }
      FirstFitIs(blocks, regs.bx, |blocks|);
      LargestIs(blocks, largest);
      r := regs.(ax := NO_MEMORY, bx := largest, cf := true);
    }

    /** Allocation for kernel callers: the segment, or 0. It makes the same choice
        as AH=48h, except that it refuses a request for nothing. */
    method AllocParagraphs(paras: nat) returns (seg: nat)
      requires Valid()
      modifies mem, `blocks
      ensures Valid() && blocks == if paras == 0 then old(blocks) else AfterAlloc(old(blocks), paras, psp)
      ensures var i := FirstFit(old(blocks), paras);
              seg == if paras == 0 || i == |old(blocks)| then 0 else old(blocks)[i].start + 1
    {
      if paras == 0 {
        return 0;
      }
      ghost var k := 0;
      var ms := root;
      while true
        invariant Valid() && blocks == old(blocks) && mem[..] == old(mem[..])
        invariant 0 <= k < |blocks| && ms == blocks[k].start
        invariant forall j | 0 <= j < k :: !Fits(blocks[j], paras)
        decreases |blocks| - k
      {
        ChainStep(mem[..], root, top, blocks, k);
        var h := mem[ms];
        if h.owner == 0 && h.size >= paras {
          FirstFitIs(blocks, paras, k);
          Claim(ms, paras, k);
          return ms + 1;
        }
        if h.kind == Z {
          break;
        }
        ms := ms + 1 + h.size;
        k := k + 1;
      }
      FirstFitIs(blocks, paras, |blocks|);
      seg := 0;
    }

    // ----------------------------------------------------------------
    // AH=49h and AH=4Ah
    // ----------------------------------------------------------------

    /** INT 21h AH=49h. Whatever ES is, the chain stays well formed: a paragraph
        that merely looks like a header is changed and nothing else. */
    method FreeMemory(regs: Regs) returns (r: Regs)
      requires Valid() && regs.es < PARAGRAPHS
      modifies mem, `blocks
      ensures Valid()
      ensures var i := IndexAt(old(blocks), Before(regs.es));
              blocks == if i < |old(blocks)| then AfterFree(old(blocks), i) else old(blocks)
      ensures r == if old(mem[Before(regs.es)].kind == Other) then regs.(ax := BAD_BLOCK, cf := true)
                   else regs.(cf := false)
      ensures old(mem[Before(regs.es)].kind == Other) ==> mem[..] == old(mem[..])
    {
      var at := Before(regs.es);
      ghost var before, i := mem[..], IndexAt(blocks, at);
      if i < |blocks| {
        NextHeader(before, root, top, blocks, i);
      }
      if mem[at].kind == Other {
        return regs.(ax := BAD_BLOCK, cf := true);
      }
      mem[at] := mem[at].(owner := 0);
      if mem[at].kind == M {
        var next := (at + 1 + mem[at].size) % 0x1_0000;
        if mem[next].owner == 0 {
          mem[at] := Mcb(mem[next].kind, 0, (mem[at].size + 1 + mem[next].size) % 0x1_0000);
        }
      }
      assert mem[..] == before[at := mem[at]];
      if i < |blocks| {
        FreeHeader(before, root, top, blocks, i);
        blocks := AfterFree(blocks, i);
      } else {
        DataKeepsChain(before, root, top, blocks, at, mem[at]);
      }
      r := regs.(cf := false);
    }

    /** INT 21h AH=4Ah on whatever ES names. A true header is resized exactly up to
        the size the call would report. A paragraph that only looks like a header is
        treated alike, and the blocks of the arena stay what they are exactly when
        the header of the rest does not hit and change a true one. */
    method ResizeMemory(regs: Regs) returns (r: Regs)
      requires Valid() && regs.es < PARAGRAPHS && regs.bx < PARAGRAPHS
      modifies mem, `blocks
      ensures var at, was := Before(regs.es), old(mem[..]);
              if regs.es < 2 || was[at].kind == Other then
                mem[..] == was && blocks == old(blocks) && r == regs.(ax := BAD_BLOCK, cf := true)
              else
                && mem[..] == Resized(was, at, regs.bx)
                && r == if regs.bx <= was[at].size || regs.bx <= Most(was, at) then regs.(cf := false)
                        else regs.(ax := NO_MEMORY, bx := Most(was, at), cf := true)
      ensures var i := IndexAt(old(blocks), Before(regs.es));
              i < |old(blocks)| && regs.es >= 2 ==>
                && Valid() && blocks == AfterResize(old(blocks), i, regs.bx)
                && r == if regs.bx <= Span(old(blocks), i) then regs.(cf := false)
                        else regs.(ax := NO_MEMORY, bx := Span(old(blocks), i), cf := true)
      ensures var at, was := Before(regs.es), old(mem[..]);
              IndexAt(old(blocks), at) == |old(blocks)| ==>
                && blocks == old(blocks)
                && (Valid() <==> regs.es < 2 || was[at].kind == Other || Survives(was, old(blocks), at, regs.bx))
    {
      var at := Before(regs.es);
      ghost var was, i := mem[..], IndexAt(blocks, at);
      if i < |blocks| {
        ResizeTrue(was, root, top, blocks, i, regs.bx);
      }
      if regs.es < 2 || mem[at].kind == Other {
        return regs.(ax := BAD_BLOCK, cf := true);
      }
      r := regs.(cf := false);
      if regs.bx < mem[at].size {
        Shrink(at, regs.bx);
      } else if regs.bx > mem[at].size {
        var ok, most := Grow(at, regs.bx);
        if !ok {
          r := regs.(ax := NO_MEMORY, bx := most, cf := true);
        }
      }
      if i < |blocks| {
        blocks := AfterResize(blocks, i, regs.bx);
      } else {
        ForgedIff(was, root, top, blocks, at, regs.bx);
      }
    }

    /** The rest becomes a free block, taking in a free block that follows. */
    method Shrink(at: nat, size: nat)
      requires mem.Length == PARAGRAPHS && at < PARAGRAPHS && mem[at].kind != Other
      requires size < mem[at].size && size < PARAGRAPHS
      modifies mem
      ensures mem[..] == Resized(old(mem[..]), at, size)
    {
      ghost var was := mem[..];
      var h, rest := mem[at], Sum16(Sum16(at, 1), size);
      mem[at] := h.(size := size);
      if h.kind == Z {
        mem[at] := Mcb(M, h.owner, size);
        mem[rest] := Mcb(Z, 0, h.size - size - 1);
      } else {
        var next := mem[(at + 1 + h.size) % 0x1_0000];
        if next.owner == 0 {
          mem[rest] := Mcb(next.kind, 0, (h.size - size - 1 + 1 + next.size) % 0x1_0000);
        } else {
          mem[rest] := Mcb(M, 0, h.size - size - 1);
        }
      }
      assert mem[..] == was[at := Mcb(M, h.owner, size)][rest := mem[rest]];
    }

    /** Take in the free block that follows, if that is enough. */
    method Grow(at: nat, size: nat) returns (ok: bool, most: nat)
      requires mem.Length == PARAGRAPHS && at < PARAGRAPHS && mem[at].kind != Other && mem[at].size < size < PARAGRAPHS
      modifies mem
      ensures mem[..] == Resized(old(mem[..]), at, size)
      ensures (ok <==> size <= Most(old(mem[..]), at)) && (!ok ==> most == Most(old(mem[..]), at))
    {
      ghost var was := mem[..];
      var h, rest := mem[at], Sum16(Sum16(at, 1), size);
      if h.kind == Z {
        return false, h.size;
      }
      var next := mem[(at + 1 + h.size) % 0x1_0000];
      var total := (h.size + 1 + next.size) % 0x1_0000;
      if next.owner != 0 || total < size {
        return false, if next.owner == 0 then total else h.size;
      }
      mem[at] := h.(size := size);
      if size < total {
        mem[rest] := Mcb(next.kind, 0, total - size - 1);
        mem[at] := Mcb(M, h.owner, size);
        assert mem[..] == was[at := mem[at]][rest := mem[rest]];
      } else {
        mem[at] := Mcb(next.kind, h.owner, size);
        assert mem[..] == was[at := mem[at]];
      }
      ok, most := true, size;
    }

    // ----------------------------------------------------------------
    // EXEC and EXIT
    // ----------------------------------------------------------------

    /** The first of the largest free blocks. */
    method FindLargest() returns (seg: nat, size: nat)
      requires Valid()
      ensures size == LargestFree(blocks)
      ensures size > 0 ==> Largest(blocks) < |blocks| && seg == blocks[Largest(blocks)].start
    {
      ghost var k, b := 0, 0;
      var ms := root;
      seg, size := 0, 0;
      while true
        invariant 0 <= k < |blocks| && ms == blocks[k].start
        invariant IsLargest(blocks, k, size)
        invariant size > 0 ==> b < k && Fits(blocks[b], size) && seg == blocks[b].start
        invariant size > 0 ==> forall j | 0 <= j < b :: !Fits(blocks[j], size)
        decreases |blocks| - k
      {
        ChainStep(mem[..], root, top, blocks, k);
        var h := mem[ms];
        if h.owner == 0 && h.size > size {
          seg, size, b := ms, h.size, k;
        }
        assert IsLargest(blocks, k + 1, size);
        if h.kind == Z {
          break;
        }
        ms := ms + 1 + h.size;
        k := k + 1;
      }
      LargestIs(blocks, size);
      if size > 0 {
        FirstFitIs(blocks, size, b);
      }
    }

    /** INT 21h AH=4Bh. `file` is what the named file holds, if it exists. Nothing
        checks that what is copied fits the block it is meant for. */
    method Exec(regs: Regs, file: Option) returns (r: Regs)
      requires Valid() && (file.Some? ==> file.load.Wf())
      modifies this, mem
      ensures root == old(root) && top == old(top)
      ensures file.None? || LargestFree(old(blocks)) < MIN_EXEC ==>
                && Valid() && r == regs.(ax := if file.None? then NOT_FOUND else NO_MEMORY, cf := true)
                && blocks == old(blocks) && mem[..] == old(mem[..]) && parent == old(parent)
                && psp == old(psp) && dtaSeg == old(dtaSeg) && dtaOff == old(dtaOff) && nextAlloc == old(nextAlloc)
      ensures file.Some? && LargestFree(old(blocks)) >= MIN_EXEC ==>
                && r == regs.(cf := false)
                && blocks == AfterExec(old(blocks), file.load.program)
                && Executed(old(mem[..]), old(blocks), file.load, mem[..])
                && (Valid() <==> CopiesSpare(old(blocks), file.load))
                && psp == dtaSeg == ChildPsp(old(blocks)[Largest(old(blocks))]) && dtaOff == 0x80
                && nextAlloc == old(blocks)[Largest(old(blocks))].End(1)
                && parent == Parent(regs, old(psp), old(dtaSeg), old(dtaOff), old(nextAlloc))
    {
      if file.None? {
        return regs.(ax := NOT_FOUND, cf := true);
      }
      var bestSeg, bestSize := FindLargest();
      if bestSize < MIN_EXEC {
        return regs.(ax := NO_MEMORY, cf := true);
      }
      parent := Parent(regs, psp, dtaSeg, dtaOff, nextAlloc);
      psp, nextAlloc := LoadChild(bestSeg + 1, file.load);
      dtaSeg, dtaOff := psp, 0x80;
      r := regs.(cf := false);
    }

    /** The child's blocks and everything in them: its PSP, and what is behind them. */
    method LoadChild(envSeg: nat, l: Load) returns (childPsp: nat, behind: nat)
      requires Valid() && l.Wf() && LargestFree(blocks) >= MIN_EXEC && envSeg == blocks[Largest(blocks)].start + 1
      modifies mem, `blocks
      ensures blocks == AfterExec(old(blocks), l.program)
      ensures Executed(old(mem[..]), old(blocks), l, mem[..])
      ensures Valid() <==> CopiesSpare(old(blocks), l)
      ensures childPsp == ChildPsp(old(blocks)[Largest(old(blocks))])
      ensures behind == old(blocks)[Largest(old(blocks))].End(1)
    {
      ghost var i, was := Largest(blocks), mem[..];
      ghost var b := blocks[i];
      NextHeader(was, root, top, blocks, i);
      ExecChainIff(was, root, top, blocks, l);
      ExecLeaves(was, root, top, blocks, l);
      CopiedConcat(was, Carving(b, HeaderOf(blocks, i).kind, l), Copies(b, l));
      childPsp := envSeg + 0x10 + 1;
      var freeKind, room := mem[envSeg - 1].kind, mem[envSeg - 1].size - 0x11;
      var total := CarveForChild(envSeg, childPsp, room, freeKind, l, b);
      CopyProgram(childPsp, total, l, b);
      behind := childPsp + room;
      blocks := AfterExec(blocks, l.program);
    }

    /** Environment and headers; `total` paragraphs go to the program. */
    method CarveForChild(envSeg: nat, childPsp: nat, room: nat, freeKind: Kind, l: Load, ghost b: Block)
      returns (total: nat)
      requires mem.Length == PARAGRAPHS && b.End(1) < PARAGRAPHS && l.Wf() && b.size >= MIN_EXEC
      requires envSeg == b.start + 1 && childPsp == envSeg + 0x11 && room == b.size - 0x11
      modifies mem
      ensures mem[..] == Copied(old(mem[..]), Carving(b, freeKind, l))
      ensures total == ProgramBlocks(b, l.program)[0].size
    {
      ghost var was, hs := mem[..], ChildHeaders(b, freeKind, l.program);
      var env := Stretch(envSeg, l.env);
      mem[envSeg - 1] := Mcb(M, envSeg + 0x100, 0x100);
      assert mem[..] == was[envSeg - 1 := mem[envSeg - 1]];
      assert Carving(b, freeKind, l)[1..] == env + hs;
      CopiedConcat(mem[..], env, hs);
      Put(env);
      total := WriteHeaders(envSeg, childPsp, room, freeKind, l.program, b);
    }

    /** Headers of the environment, the program and what the program leaves. */
    method WriteHeaders(envSeg: nat, childPsp: nat, room: nat, freeKind: Kind, p: Program, ghost b: Block)
      returns (total: nat)
      requires mem.Length == PARAGRAPHS && b.End(1) < PARAGRAPHS && p.Sized() && b.size >= MIN_EXEC
      requires envSeg == b.start + 1 && childPsp == envSeg + 0x11 && room == b.size - 0x11
      modifies mem
      ensures mem[..] == Copied(old(mem[..]), ChildHeaders(b, freeKind, p))
      ensures total == ProgramBlocks(b, p)[0].size
    {
      ghost var was, hs := mem[..], ChildHeaders(b, freeKind, p);
      mem[envSeg - 1] := Mcb(M, childPsp, childPsp - 1 - envSeg);
      total := Granted(p, room);
      if total < room && room - total > 1 {
        mem[childPsp - 1] := Mcb(M, childPsp, total);
        mem[childPsp + total] := Mcb(freeKind, 0, room - total - 1);
        CopiedFew(was, hs[0], hs[1], hs[2]);
        assert hs == [hs[0], hs[1], hs[2]];
        assert mem[..] == was[hs[0].para := hs[0].value][hs[1].para := hs[1].value][hs[2].para := hs[2].value];
      } else {
        mem[childPsp - 1] := Mcb(freeKind, childPsp, room);
        total := room;
        CopiedFew(was, hs[0], hs[1], hs[1]);
        assert hs == [hs[0], hs[1]];
        assert mem[..] == was[hs[0].para := hs[0].value][hs[1].para := hs[1].value];
      }
    }

    /** PSP, image and relocations. */
    method CopyProgram(childPsp: nat, total: nat, l: Load, ghost b: Block)
      requires mem.Length == PARAGRAPHS && l.Wf() && b.size >= MIN_EXEC
      requires childPsp == ChildPsp(b) && total == ProgramBlocks(b, l.program)[0].size
      modifies mem
      ensures mem[..] == Copied(old(mem[..]), Copies(b, l))
    {
      var head, image := Stretch(childPsp, PspParas(childPsp + total, l.tail)), Stretch(childPsp + PSP, l.image);
      var fixed := Moved(childPsp + PSP, l.fixed);
      CopiedConcat(mem[..], head, image + fixed);
      CopiedConcat(Copied(mem[..], head), image, fixed);
      Put(head);
      Put(image);
      Put(fixed);
    }

    /** These writes, one after the other. */
    method Put(ws: seq<Copy>)
      requires mem.Length == PARAGRAPHS
      modifies mem
      ensures mem[..] == Copied(old(mem[..]), ws)
    {
      for k := 0 to |ws|
        invariant Copied(mem[..], ws[k..]) == Copied(old(mem[..]), ws)
      {
        ghost var was := mem[..];
        assert ws[k..][1..] == ws[k + 1..];
        if ws[k].para < mem.Length {
          mem[ws[k].para] := ws[k].value;
          assert mem[..] == was[ws[k].para := ws[k].value];
        }
      }
    }

    /** INT 21h AH=4Ch: the child's blocks become free, free neighbours are merged
        and the parent goes on where EXEC left it. Without a parent nothing of this
        happens. */
    method Exit(regs: Regs) returns (r: Regs, resumed: bool)
      requires Valid()
      modifies this, mem
      ensures Valid() && root == old(root) && top == old(top)
      ensures resumed <==> old(parent) != NoParent
      ensures !resumed ==>
                && r == regs && blocks == old(blocks) && mem[..] == old(mem[..])
                && psp == old(psp) && parent == NoParent
      ensures resumed ==>
                && blocks == AfterExit(old(blocks), old(psp))
                && parent == NoParent
                && psp == old(parent.psp) && dtaSeg == old(parent.dtaSeg) && dtaOff == old(parent.dtaOff)
                && nextAlloc == old(parent.nextAlloc)
                && r == old(parent.regs).(ax := 0, cf := false)
    {
      if parent == NoParent {
        return regs, false;
      }
      ReleaseBlocks();
      MergeNeighbours();
      r := parent.regs.(ax := 0, cf := false);
      psp, dtaSeg, dtaOff, nextAlloc := parent.psp, parent.dtaSeg, parent.dtaOff, parent.nextAlloc;
      parent := NoParent;
      resumed := true;
    }

    /** First pass of exit: free what psp owns, each merged once with a free block
        that follows. */
    method ReleaseBlocks()
      requires Valid()
      modifies mem, `blocks
      ensures Valid() && Coalesce(1, blocks) == Coalesce(1, Release(old(blocks), psp))
    {
      ghost var k := 0;
      var ms := root;
      while true
        invariant Valid() && 0 <= k < |blocks| && ms == blocks[k].start
        invariant Coalesce(1, Release(blocks, psp)) == Coalesce(1, Release(old(blocks), psp))
        invariant Released(blocks, k, psp)
        decreases |blocks| - k
      {
        NextHeader(mem[..], root, top, blocks, k);
        var h := mem[ms];
        if h.owner == psp {
          var merged := ReleaseOne(ms, k);
          if merged {
            continue;
          }
        }
        ChainStep(mem[..], root, top, blocks, k);
        assert Released(blocks, k + 1, psp);
        if h.kind == Z {
          break;
        }
        ms := ms + 1 + h.size;
        k := k + 1;
      }
      AllReleased(blocks, psp);
    }

    /** Free block k, whose header is ms; the others and what exit will leave stay. */
    method ReleaseOne(ms: nat, ghost k: nat) returns (merged: bool)
      requires Valid() && k < |blocks| && ms == blocks[k].start && ms < PARAGRAPHS
      requires blocks[k].owner == psp && Released(blocks, k, psp)
      modifies mem, `blocks
      ensures Valid() && |blocks| == (if merged then |old(blocks)| - 1 else |old(blocks)|) > k
      ensures blocks[k].start == ms && (!merged ==> blocks[k].size == old(blocks)[k].size)
      ensures Coalesce(1, Release(blocks, psp)) == Coalesce(1, Release(old(blocks), psp))
      ensures Released(blocks, if merged then k else k + 1, psp)
    {
      FreeThenRelease(root, top, blocks, k, psp);
      ReleasedFree(blocks, k, psp);
      AfterFreeAt(blocks, k);
      merged := FreeHere(ms, k);
    }

    /** Free block k, and take in a free block behind it. */
    method FreeHere(ms: nat, ghost k: nat) returns (merged: bool)
      requires Valid() && k < |blocks| && ms == blocks[k].start && ms < PARAGRAPHS
      modifies mem, `blocks
      ensures Valid() && blocks == AfterFree(old(blocks), k) && (merged <==> NextFree(old(blocks), k))
    {
      ghost var before := mem[..];
      NextHeader(before, root, top, blocks, k);
      FreeHeader(before, root, top, blocks, k);
      var h := mem[ms];
      mem[ms] := h.(owner := 0);
      merged := false;
      if h.kind == M {
        var next := mem[ms + 1 + h.size];
        if next.owner == 0 {
          mem[ms] := Mcb(next.kind, 0, h.size + 1 + next.size);
          merged := true;
        }
      }
      assert mem[..] == before[ms := mem[ms]];
      blocks := AfterFree(blocks, k);
    }

    /** Second pass of exit: merge until no two free blocks are neighbours. */
    method MergeNeighbours()
      requires Valid()
      modifies mem, `blocks
      ensures Valid() && blocks == Coalesce(1, old(blocks))
    {
      ghost var k := 0;
      var ms := root;
      while true
        invariant Valid() && 0 <= k < |blocks| && ms == blocks[k].start
        invariant Coalesce(1, blocks) == Coalesce(1, old(blocks))
        invariant Merged(blocks, k)
        decreases |blocks| - k
      {
        NextHeader(mem[..], root, top, blocks, k);
        var h := mem[ms];
        if h.kind == M && h.owner == 0 {
          var next := mem[ms + 1 + h.size];
          if next.owner == 0 {
            MergeHere(ms, k);
            continue;
          }
        }
        ChainStep(mem[..], root, top, blocks, k);
        MergedStep(blocks, k);
        if h.kind == Z {
          break;
        }
        ms := ms + 1 + h.size;
        k := k + 1;
      }
      assert NoFreeNeighbours(blocks);
      CoalesceFixed(1, blocks);
    }

    /** Free block k takes in the free block behind it. */
    method MergeHere(ms: nat, ghost k: nat)
      requires Valid() && k < |blocks| && ms == blocks[k].start && ms < PARAGRAPHS
      requires blocks[k].Free() && NextFree(blocks, k) && Merged(blocks, k)
      modifies mem, `blocks
      ensures Valid() && |blocks| == |old(blocks)| - 1 && k < |blocks| && blocks[k].start == ms
      ensures Coalesce(1, blocks) == Coalesce(1, old(blocks)) && Merged(blocks, k)
    {
      ghost var before := mem[..];
      NextHeader(before, root, top, blocks, k);
      FreeHeader(before, root, top, blocks, k);
      CoalesceAfterMerge(1, root, top, blocks, k);
      MergedAfterMerge(1, blocks, k);
      var h := mem[ms];
      var next := mem[ms + 1 + h.size];
      mem[ms] := h.(size := h.size + 1 + next.size);
      mem[ms] := mem[ms].(kind := next.kind);
      assert mem[..] == before[ms := mem[ms]];
      blocks := AfterFree(blocks, k);
    }

    // ----------------------------------------------------------------
    // A program's life
    // ----------------------------------------------------------------

    /** A program writing into its memory: any paragraph that is not a header. */
    method Store(p: nat, v: Mcb)
      requires Valid() && p < PARAGRAPHS && IndexAt(blocks, p) == |blocks|
      modifies mem
      ensures Valid() && mem[..] == old(mem[..])[p := v]
    {
      DataKeepsChain(mem[..], root, top, blocks, p, v);
      mem[p] := v;
      assert mem[..] == old(mem[..])[p := v];
    }

    /** One memory call of a program: any allocation, any free, and a resize that
        names a block or that the arena survives. */
    method Dispatch(regs: Regs, c: Call)
      requires Valid() && root > 0
      requires !c.Alloc? ==> c.header + 1 < PARAGRAPHS
      requires c.SetSize? ==> c.paras < PARAGRAPHS && (Named(blocks, c) || Survives(mem[..], blocks, c.header, c.paras))
      modifies mem, `blocks
      ensures Valid() && blocks == Step(old(blocks), psp, c)
    {
      var r;
      match c
      case Alloc(paras) => r := AllocateMemory(regs.(bx := paras));
      case Free(header) => r := FreeMemory(regs.(es := header + 1));
      case SetSize(header, paras) => DispatchResize(regs, header, paras);
    }

    method DispatchResize(regs: Regs, header: nat, paras: nat)
      requires Valid() && root > 0 && header + 1 < PARAGRAPHS && paras < PARAGRAPHS
      requires IndexAt(blocks, header) < |blocks| || Survives(mem[..], blocks, header, paras)
      modifies mem, `blocks
      ensures Valid() && blocks == Step(old(blocks), psp, SetSize(header, paras))
    {
      ghost var i := IndexAt(blocks, header);
      if i < |blocks| {
        ChainStep(mem[..], root, top, blocks, i);
      }
      var r := ResizeMemory(regs.(es := header + 1, bx := paras));
    }

    /** EXEC, whatever the child does on its own or free blocks and inside blocks,
        EXIT: when the copies spare the headers, the parent finds its registers, PSP,
        DTA and allocation pointer as they were, and the arena as it was with free
        neighbours merged, unless a block already carried the child's PSP. */
    method RunProgram(regs: Regs, load: Load, acts: seq<Act>) returns (r: Regs)
      requires Valid() && root > 0 && load.Wf() && LargestFree(blocks) >= MIN_EXEC && parent == NoParent
      requires CopiesSpare(blocks, load)
      requires OwnActs(AfterExec(blocks, load.program), ChildPsp(blocks[Largest(blocks)]), acts)
      modifies this, mem
      ensures Valid() && parent == NoParent && r == regs.(ax := 0, cf := false)
      ensures psp == old(psp) && dtaSeg == old(dtaSeg) && dtaOff == old(dtaOff) && nextAlloc == old(nextAlloc)
      ensures blocks == Coalesce(1, old(blocks)) <==> !Owns(old(blocks), ChildPsp(old(blocks)[Largest(old(blocks))]))
    {
      ghost var childPsp := ChildPsp(blocks[Largest(blocks)]);
      ghost var start := AfterExec(blocks, load.program);
      OwnCalls(start, childPsp, acts);
      ExecChainIff(mem[..], root, top, blocks, load);
      ExecRunExit(mem[..], root, top, blocks, load, Calls(acts));
      r := Exec(regs, Some(load));
      RunActs(r, acts);
      var resumed;
      r, resumed := Exit(r);
    }

    /** What the child does between EXEC and EXIT. */
    method RunActs(regs: Regs, acts: seq<Act>)
      requires Valid() && root > 0 && OwnActs(blocks, psp, acts)
      modifies mem, `blocks
      ensures Valid() && blocks == Run(old(blocks), psp, Calls(acts))
    {
      for n := 0 to |acts|
        invariant Valid() && OwnActs(blocks, psp, acts[n..])
        invariant Run(blocks, psp, Calls(acts[n..])) == Run(old(blocks), psp, Calls(acts))
      {
        assert acts[n..][1..] == acts[n + 1..];
        RunFirst(blocks, psp, acts[n..]);
        Perform(regs, acts[n]);
      }
      assert acts[|acts|..] == [];
    }

    method Perform(regs: Regs, a: Act)
      requires Valid() && root > 0 && OwnAct(blocks, psp, a)
      modifies mem, `blocks
      ensures Valid() && blocks == AfterAct(old(blocks), psp, a)
    {
      match a
      case Ask(call) => Dispatch(regs, call);
      case Write(para, value) => Store(para, value);
    }
  }

  /** A program's act on the arena: a memory call, or a write to a paragraph. */
  datatype Act = Ask(call: Call) | Write(para: nat, value: Mcb)

  function Calls(acts: seq<Act>): seq<Call> {
    if acts == [] then [] else (if acts[0].Ask? then [acts[0].call] else []) + Calls(acts[1..])
  }

  /** The acts touch no block of anyone else and no header. */
  predicate OwnAct(bs: seq<Block>, psp: nat, a: Act) {
    match a
    case Ask(c) => Own(bs, psp, c) && (!c.Alloc? ==> c.header + 1 < PARAGRAPHS) && (c.SetSize? ==> c.paras < PARAGRAPHS)
    case Write(p, _) => p < PARAGRAPHS && IndexAt(bs, p) == |bs|
  }

  function AfterAct(bs: seq<Block>, psp: nat, a: Act): seq<Block> {
    if a.Ask? then Step(bs, psp, a.call) else bs
  }

  lemma RunFirst(bs: seq<Block>, psp: nat, acts: seq<Act>)
    requires acts != []
    ensures Run(bs, psp, Calls(acts)) == Run(AfterAct(bs, psp, acts[0]), psp, Calls(acts[1..]))
  {
    if acts[0].Ask? {
      assert Calls(acts)[0] == acts[0].call && Calls(acts)[1..] == Calls(acts[1..]);
    } else {
      assert Calls(acts) == Calls(acts[1..]);
    }
  }

  predicate OwnActs(bs: seq<Block>, psp: nat, acts: seq<Act>)
    decreases |acts|
  {
    acts != [] ==>
      && OwnAct(bs, psp, acts[0])
      && OwnActs(AfterAct(bs, psp, acts[0]), psp, acts[1..])
  }

  lemma {:induction false} OwnCalls(bs: seq<Block>, psp: nat, acts: seq<Act>)
    requires OwnActs(bs, psp, acts)
    ensures OwnRun(bs, psp, Calls(acts))
    decreases |acts|
  {
    if acts != [] {
      OwnCalls(AfterAct(bs, psp, acts[0]), psp, acts[1..]);
      if acts[0].Ask? {
        assert Calls(acts)[0] == acts[0].call && Calls(acts)[1..] == Calls(acts[1..]);
      } else {
        assert Calls(acts) == Calls(acts[1..]);
      }
    }
  }

  /** AH=4Ah trusts any paragraph that starts with 'Z'. Here block 0 holds data that
      looks like a header of 100 paragraphs; shrinking it to 6 puts a header onto
      that of block 1, and afterwards no list of blocks describes the arena. */
  lemma ForgedHeaderBreaksChain(m: seq<Mcb>)
    requires Chain(m, 0x1000, 0x1016, [Block(0x1000, 10, 5), Block(0x100B, 10, 7)])
    requires m[0x1004] == Mcb(Z, 0, 100)
    ensures forall bs :: !Chain(Resized(m, 0x1004, 6), 0x1000, 0x1016, bs)
  {
    var m' := m[0x1004 := Mcb(M, 0, 6)][0x100B := Mcb(Z, 0, 93)];
    assert m' == Resized(m, 0x1004, 6);
    assert HeaderAt(m, [Block(0x1000, 10, 5), Block(0x100B, 10, 7)], 0);
    assert m'[0x1000] == Mcb(M, 5, 10);
    forall bs ensures !Chain(m', 0x1000, 0x1016, bs) {
      if Chain(m', 0x1000, 0x1016, bs) {
        ChainStep(m', 0x1000, 0x1016, bs, 0);
        ChainStep(m', 0x1000, 0x1016, bs, 1);
        assert false;
      }
    }
  }

  /** Nothing of psp is left among the first k blocks. */
  predicate Released(bs: seq<Block>, k: nat, psp: nat) {
    forall j | 0 <= j < k && j < |bs| :: bs[j].owner == psp ==> psp == 0
  }

  lemma ReleasedFree(bs: seq<Block>, k: nat, psp: nat)
    requires Released(bs, k, psp) && k < |bs|
    ensures Released(AfterFree(bs, k), if NextFree(bs, k) then k else k + 1, psp)
  {
  }

  lemma AfterFreeAt(bs: seq<Block>, k: nat)
    requires k < |bs|
    ensures var f, merged := AfterFree(bs, k), NextFree(bs, k);
            && |f| == (if merged then |bs| - 1 else |bs|) && k < |f|
            && f[k].start == bs[k].start && (!merged ==> f[k].size == bs[k].size)
  {
  }

  lemma AllReleased(bs: seq<Block>, psp: nat)
    requires Released(bs, |bs|, psp)
    ensures Release(bs, psp) == bs
  {
  }

  lemma ReleaseMerged(bs: seq<Block>, i: nat, psp: nat)
    requires NextFree(bs, i) && bs[i].owner == psp
    ensures var r := Release(bs, psp);
            && r[i].Free() && r[i + 1].Free()
            && Release(AfterFree(bs, i), psp) == Replace(r, i, 2, [Merge(1, r[i], r[i + 1])])
  {
    var r, f := Release(bs, psp), AfterFree(bs, i);
    var s := Replace(r, i, 2, [Merge(1, r[i], r[i + 1])]);
    ReplacedAt(bs, i, Merge(1, bs[i].(owner := 0), bs[i + 1]));
    ReplacedAt(r, i, Merge(1, r[i], r[i + 1]));
    forall j | 0 <= j < |f| ensures Release(f, psp)[j] == s[j] {
    }
  }

  lemma ReplacedAt(bs: seq<Block>, i: nat, b: Block)
    requires i + 1 < |bs|
    ensures var f := Replace(bs, i, 2, [b]);
            |f| == |bs| - 1
            && forall j {:trigger f[j]} | 0 <= j < |f| ::
                 f[j] == if j < i then bs[j] else if j == i then b else bs[j + 1]
  {
  }

  lemma ReleaseUnmerged(bs: seq<Block>, i: nat, psp: nat)
    requires i < |bs| && !NextFree(bs, i) && bs[i].owner == psp
    ensures Release(AfterFree(bs, i), psp) == Release(bs, psp)
  {
    var r, f := Release(bs, psp), AfterFree(bs, i);
    forall j | 0 <= j < |f| ensures Release(f, psp)[j] == r[j] {
      assert j != i ==> f[j] == bs[j];
    }
  }

  /** Freeing a block of psp early, merged or not, does not change what is left
      once everything of psp is free and merged. */
  lemma FreeThenRelease(root: nat, top: nat, bs: seq<Block>, i: nat, psp: nat)
    requires Tiled(1, root, top, bs) && i < |bs| && bs[i].owner == psp
    ensures Coalesce(1, Release(AfterFree(bs, i), psp)) == Coalesce(1, Release(bs, psp))
  {
    if NextFree(bs, i) {
      ReleaseMerged(bs, i, psp);
      ReleaseTiled(1, root, top, bs, psp);
      CoalesceAfterMerge(1, root, top, Release(bs, psp), i);
    } else {
      ReleaseUnmerged(bs, i, psp);
    }
  }

  /** The header behind block i, as the calls read it. */
  lemma NextHeader(m: seq<Mcb>, root: nat, top: nat, bs: seq<Block>, i: nat)
    requires Chain(m, root, top, bs) && i < |bs|
    ensures bs[i].start < PARAGRAPHS && var h := m[bs[i].start];
            && h == Mcb(if i + 1 == |bs| then Z else M, bs[i].owner, bs[i].size)
            && bs[i].start + 1 + Span(bs, i) == StartOf(top, bs, i + Reach(bs, i)) <= top
            && (i + 1 < |bs| ==>
                 && bs[i].start + 1 + h.size < PARAGRAPHS
                 && m[bs[i].start + 1 + h.size] == Mcb(if i + 2 == |bs| then Z else M, bs[i + 1].owner, bs[i + 1].size))
  {
    ChainStep(m, root, top, bs, i);
    SpanEnds(root, top, bs, i);
  }

  /** A resize is one header, or two when something is left over. */
  lemma {:induction false} ResizeHeaders(m: seq<Mcb>, root: nat, top: nat, bs: seq<Block>, i: nat, size: nat)
    requires Chain(m, root, top, bs) && i < |bs| && size <= Span(bs, i)
    ensures var at, last, n := bs[i].start, if i + Reach(bs, i) == |bs| then Z else M, Span(bs, i) - size;
            at + 1 + size <= top && at < |m| && top < |m| &&
            Chain(if n == 0 then m[at := Mcb(last, bs[i].owner, size)]
                  else m[at := Mcb(M, bs[i].owner, size)][at + 1 + size := Mcb(last, 0, n - 1)],
                  root, top, AfterResize(bs, i, size))
  {
    var at, last, n := bs[i].start, if i + Reach(bs, i) == |bs| then Z else M, Span(bs, i) - size;
    var new_ := Resize(bs, i, size);
    NextHeader(m, root, top, bs, i);
    ResizePieces(root, top, bs, i, size);
    if n == 0 {
      ChainReplace(m, m[at := Mcb(last, bs[i].owner, size)], root, top, bs, i, Reach(bs, i), new_);
    } else {
      assert new_[1] == Block(at + 1 + size, n - 1, 0);
      ChainReplace(m, m[at := Mcb(M, bs[i].owner, size)][at + 1 + size := Mcb(last, 0, n - 1)],
                   root, top, bs, i, Reach(bs, i), new_);
    }
  }

  /** What AH=4Ah finds behind the header at `at`, and the largest size it reports. */
  function Next(m: seq<Mcb>, at: nat): Mcb
    requires |m| == PARAGRAPHS && at < PARAGRAPHS
  {
    m[(at + 1 + m[at].size) % 0x1_0000]
  }

  function Most(m: seq<Mcb>, at: nat): nat
    requires |m| == PARAGRAPHS && at < PARAGRAPHS
  {
    if m[at].kind == Z || Next(m, at).owner != 0 then m[at].size
    else (m[at].size + 1 + Next(m, at).size) % 0x1_0000
  }

  /** Something is left over, for which a header is written. */
  predicate LeavesRest(m: seq<Mcb>, at: nat, size: nat)
    requires |m| == PARAGRAPHS && at < PARAGRAPHS
  {
    size < m[at].size || m[at].size < size < Most(m, at)
  }

  /** That header, taking in a free block that follows; a block of the largest size
      is followed by its own header, already shrunk. */
  function RestHeader(m: seq<Mcb>, at: nat, size: nat): Mcb
    requires |m| == PARAGRAPHS && at < PARAGRAPHS && LeavesRest(m, at, size)
  {
    var h := m[at];
    var next := m[at := h.(size := size)][(at + 1 + h.size) % 0x1_0000];
    if size > h.size then Mcb(next.kind, 0, Most(m, at) - size - 1)
    else if h.kind == Z then Mcb(Z, 0, h.size - size - 1)
    else if next.owner == 0 then Mcb(next.kind, 0, (h.size - size + next.size) % 0x1_0000)
    else Mcb(M, 0, h.size - size - 1)
  }

  /** Memory after AH=4Ah on the header at `at`. */
  function Resized(m: seq<Mcb>, at: nat, size: nat): seq<Mcb>
    requires |m| == PARAGRAPHS && at < PARAGRAPHS && size < PARAGRAPHS
  {
    var h := m[at];
    if LeavesRest(m, at, size) then
      m[at := Mcb(M, h.owner, size)][Sum16(Sum16(at, 1), size) := RestHeader(m, at, size)]
    else if h.size < size == Most(m, at) then m[at := Mcb(Next(m, at).kind, h.owner, size)]
    else m
  }

  /** What must hold before AH=4Ah on a paragraph that starts no block: it leaves no
      rest, or the rest's header goes inside a block or onto an equal header. */
  predicate Survives(m: seq<Mcb>, bs: seq<Block>, at: nat, size: nat)
    requires |m| == PARAGRAPHS && at < PARAGRAPHS && size < PARAGRAPHS
  {
    var rest := Sum16(Sum16(at, 1), size);
    LeavesRest(m, at, size) && IndexAt(bs, rest) < |bs| ==> RestHeader(m, at, size) == m[rest]
  }

  lemma ForgedIff(m: seq<Mcb>, root: nat, top: nat, bs: seq<Block>, at: nat, size: nat)
    requires Chain(m, root, top, bs) && at < PARAGRAPHS && size < PARAGRAPHS && IndexAt(bs, at) == |bs|
    ensures Chain(Resized(m, at, size), root, top, bs) <==> Survives(m, bs, at, size)
  {
    if LeavesRest(m, at, size) {
      TwoWritesIff(m, root, top, bs, at, Sum16(Sum16(at, 1), size), Resized(m, at, size));
    } else if m[at].size < size == Most(m, at) {
      DataKeepsChain(m, root, top, bs, at, Mcb(Next(m, at).kind, m[at].owner, size));
    }
  }

  lemma MostIsSpan(m: seq<Mcb>, root: nat, top: nat, bs: seq<Block>, i: nat)
    requires Chain(m, root, top, bs) && i < |bs|
    ensures bs[i].start < PARAGRAPHS && m[bs[i].start].kind != Other
    ensures m[bs[i].start].owner == bs[i].owner && m[bs[i].start].size == bs[i].size <= Span(bs, i)
    ensures Most(m, bs[i].start) == Span(bs, i)
  {
    NextHeader(m, root, top, bs, i);
  }

  lemma RestHeaderIs(m: seq<Mcb>, root: nat, top: nat, bs: seq<Block>, i: nat, size: nat)
    requires Chain(m, root, top, bs) && i < |bs| && bs[i].start < PARAGRAPHS && LeavesRest(m, bs[i].start, size)
    ensures bs[i].start + 1 + size < PARAGRAPHS && size < Span(bs, i)
    ensures var last := if i + Reach(bs, i) == |bs| then Z else M;
            RestHeader(m, bs[i].start, size) == Mcb(last, 0, Span(bs, i) - size - 1)
  {
    NextHeader(m, root, top, bs, i);
  }

  lemma ResizeWithRest(m: seq<Mcb>, root: nat, top: nat, bs: seq<Block>, i: nat, size: nat)
    requires Chain(m, root, top, bs) && i < |bs| && size < PARAGRAPHS
    requires bs[i].start < PARAGRAPHS && LeavesRest(m, bs[i].start, size)
    ensures Chain(Resized(m, bs[i].start, size), root, top, AfterResize(bs, i, size))
  {
    MostIsSpan(m, root, top, bs, i);
    RestHeaderIs(m, root, top, bs, i, size);
    ResizeHeaders(m, root, top, bs, i, size);
    var at := bs[i].start;
    assert Resized(m, at, size) == m[at := Mcb(M, bs[i].owner, size)][at + 1 + size := RestHeader(m, at, size)];
  }

  /** On a true header AH=4Ah is the resize of its block. */
  lemma ResizeTrue(m: seq<Mcb>, root: nat, top: nat, bs: seq<Block>, i: nat, size: nat)
    requires Chain(m, root, top, bs) && i < |bs| && size < PARAGRAPHS
    ensures var at := bs[i].start;
            && at < PARAGRAPHS && m[at].kind != Other && m[at].size <= Most(m, at) == Span(bs, i)
            && Chain(Resized(m, at, size), root, top, AfterResize(bs, i, size))
  {
    MostIsSpan(m, root, top, bs, i);
    if LeavesRest(m, bs[i].start, size) {
      ResizeWithRest(m, root, top, bs, i, size);
    } else if size == bs[i].size {
      ResizeToSame(m, root, top, bs, i);
    } else if size == Span(bs, i) {
      NextHeader(m, root, top, bs, i);
      ResizeHeaders(m, root, top, bs, i, size);
    }
  }

  lemma ResizeToSame(m: seq<Mcb>, root: nat, top: nat, bs: seq<Block>, i: nat)
    requires Chain(m, root, top, bs) && i < |bs|
    ensures AfterResize(bs, i, bs[i].size) == bs
  {
    NextHeader(m, root, top, bs, i);
    ChainStep(m, root, top, bs, i);
    var r := Resize(bs, i, bs[i].size);
    assert r == bs[i..i + Reach(bs, i)];
  }

  /** Two writes, the first inside a block, leave the chain alone exactly when the
      second one is inside a block too or changes nothing. */
  lemma TwoWritesIff(m: seq<Mcb>, root: nat, top: nat, bs: seq<Block>, p: nat, q: nat, m': seq<Mcb>)
    requires Chain(m, root, top, bs) && p < |m| && q < |m| && |m'| == |m| && IndexAt(bs, p) == |bs|
    requires forall x | 0 <= x < |m| && x != p && x != q :: m'[x] == m[x]
    ensures Chain(m', root, top, bs) <==> IndexAt(bs, q) == |bs| || m'[q] == m[q]
  {
    var n := m[p := m'[p]];
    var j := IndexAt(bs, q);
    assert m' == n[q := m'[q]];
    DataKeepsChain(m, root, top, bs, p, m'[p]);
    if j == |bs| {
      DataKeepsChain(n, root, top, bs, q, m'[q]);
    } else {
      assert HeaderAt(m, bs, j);
      assert HeaderAt(m', bs, j) <==> m'[q] == m[q];
      assert m'[q] == m[q] ==> m' == n;
    }
  }

  /** Freeing block i, and taking in a free block behind it, is one header. */
  lemma {:induction false} FreeHeader(m: seq<Mcb>, root: nat, top: nat, bs: seq<Block>, i: nat)
    requires Chain(m, root, top, bs) && i < |bs|
    ensures bs[i].start < |m|
    ensures var h := Mcb(if i + Reach(bs, i) == |bs| then Z else M, 0, Span(bs, i));
            Chain(m[bs[i].start := h], root, top, AfterFree(bs, i))
  {
    NextHeader(m, root, top, bs, i);
    var h := Mcb(if i + Reach(bs, i) == |bs| then Z else M, 0, Span(bs, i));
    var b := Block(bs[i].start, Span(bs, i), 0);
    TiledOne(1, b);
    ChainReplace(m, m[bs[i].start := h], root, top, bs, i, Reach(bs, i), [b]);
  }

  /** n is the largest size among the free blocks before k. */
  predicate IsLargest(bs: seq<Block>, k: nat, n: nat)
    requires k <= |bs|
  {
    && (forall j | 0 <= j < k && bs[j].Free() :: bs[j].size <= n)
    && (n == 0 || exists j :: 0 <= j < k && bs[j].Free() && bs[j].size == n)
  }

  lemma LargestIs(bs: seq<Block>, n: nat)
    requires IsLargest(bs, |bs|, n)
    ensures LargestFree(bs) == n
  {
  }
}
