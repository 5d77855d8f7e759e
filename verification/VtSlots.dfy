/** Virtual text terminals of a DPMI client (INT 31h AX=0A01h and 0A08h): each
    holds two screen buffers and a keyboard ring on the kernel heap, and a
    descriptor for each of them. */
module VtSlots {
  import opened Numbers
  import opened Tiles
  import opened KernelHeap
  import L = Ldt

  const MAX_VTS: nat := 4
  const COLS: nat := 80
  const ROWS: nat := 25
  const KBD_ENTRIES: nat := 32
  const KBD_BYTES: nat := 16 + 2 * KBD_ENTRIES

  const BAD_DIMENSIONS: nat := 0x0002
  const NO_FREE_VT: nat := 0x0001
  const NO_LDT: nat := 0x0008
  const BAD_HANDLE: nat := 0x0010
  const OUT_OF_MEMORY: nat := 0x0030

  /** Buffers are heap pointers, selectors name descriptors; 0 is none. */
  datatype Slot = Slot(used: bool, charBuf: nat, attrBuf: nat, kbdBuf: nat, charSel: nat, attrSel: nat, kbdSel: nat)

  const EMPTY := Slot(false, 0, 0, 0, 0, 0, 0)

  function Selector(idx: nat): nat { idx * 8 + 7 }
  function Index(sel: nat): nat { sel / 8 }

  function Ptrs(s: Slot): set<nat> { {s.charBuf, s.attrBuf, s.kbdBuf} }
  function Slots(s: Slot): set<nat> { {Index(s.charSel), Index(s.attrSel), Index(s.kbdSel)} }

  // ------------------------------------------------------------------
  // Heap blocks by pointer
  // ------------------------------------------------------------------

  /** The blocks of l whose pointers are not in ps. */
  function Without(l: set<Block>, ps: set<nat>): set<Block> { set b | b in l && Data(b) !in ps }

  predicate HasPtr(l: set<Block>, p: nat) { exists b :: b in l && Data(b) == p }

  predicate HasRoom(l: set<Block>, p: nat, n: nat) { exists b :: b in l && Data(b) == p && b.size >= n }

  /** l' is l with one more block, at p. */
  predicate Adds(l: set<Block>, l': set<Block>, p: nat) {
    p != 0 && Without(l', {p}) == l && HasPtr(l', p) && !HasPtr(l, p)
  }

  lemma AddsMalloc(root: nat, top: nat, bs: seq<Block>, size: nat)
    requires WfHeap(root, top, bs) && size <= 0xFFFF_FFFC && MallocResult(bs, size) != 0
    ensures var l, l', p := Live(bs), Live(AfterMalloc(bs, size)), MallocResult(bs, size);
            Adds(l, l', p) && HasRoom(l', p, size)
  {
    MallocLive(root, top, bs, size);
    LargeEnoughIff(root, top, bs, size);
    assert Granted(bs, size) in Live(AfterMalloc(bs, size));
  }

  lemma RemovesFree(root: nat, top: nat, bs: seq<Block>, i: nat, p: nat)
    requires WfHeap(root, top, bs) && LiveAt(bs, i, p)
    ensures Live(AfterFree(bs, i)) == Without(Live(bs), {p})
  {
    FreeLive(root, top, bs, i);
    StartsDiffer(root, top, bs);
    forall b ensures b in Live(bs) - {bs[i]} <==> b in Without(Live(bs), {p}) {
      if b in Live(bs) && b != bs[i] {
        var j :| 0 <= j < |bs| && bs[j] == b;
      }
    }
  }

  lemma PtrIndex(bs: seq<Block>, p: nat)
    requires HasPtr(Live(bs), p)
    ensures LiveIndex(bs, p) < |bs| && LiveAt(bs, LiveIndex(bs, p), p)
  {
  }

  /** Removing pointers one by one or at once is the same; the others stay. */
  lemma WithoutBoth(l: set<Block>, ps: set<nat>, qs: set<nat>)
    ensures Without(Without(l, ps), qs) == Without(l, ps + qs)
    ensures forall p | p !in ps && HasPtr(l, p) :: HasPtr(Without(l, ps), p)
  {
  }

  /** A pointer survives additions. */
  lemma AddsKeeps(l: set<Block>, l': set<Block>, p: nat)
    requires Adds(l, l', p)
    ensures l <= l' && forall q | HasPtr(l, q) :: HasPtr(l', q) && q != p
  {
  }

  // ------------------------------------------------------------------
  // What terminals hold
  // ------------------------------------------------------------------

  /** A used slot holds three live heap blocks and three descriptors in use. */
  predicate Holds(s: Slot, l: set<Block>, used: set<nat>) {
    if s.used then
      && |Ptrs(s)| == 3 && 0 !in Ptrs(s) && (forall p | p in Ptrs(s) :: HasPtr(l, p))
      && |Slots(s)| == 3 && Slots(s) <= used && (forall i | i in Slots(s) :: L.FIRST <= i < L.ENTRIES)
    else s == EMPTY
  }

  predicate Apart(s: Slot, t: Slot) {
    s.used && t.used ==> Ptrs(s) !! Ptrs(t) && Slots(s) !! Slots(t)
  }

  /** Every slot holds what it should and no two hold the same. Folded by `Shown`. */
  ghost predicate Owned(vs: seq<Slot>, l: set<Block>, used: set<nat>) {
    forall z {:trigger Shown(z)} | Shown(z) ::
      && (forall h | 0 <= h < |vs| :: Holds(vs[h], l, used))
      && forall g, h | 0 <= g < h < |vs| :: Apart(vs[g], vs[h])
  }

  lemma OwnedAt(vs: seq<Slot>, l: set<Block>, used: set<nat>, h: nat)
    requires Owned(vs, l, used) && h < |vs|
    ensures Holds(vs[h], l, used)
  {
    assert Shown(0);
  }

  lemma UnusedEmpty(vs: seq<Slot>, l: set<Block>, used: set<nat>)
    requires Owned(vs, l, used)
    ensures forall h | 0 <= h < |vs| && !vs[h].used :: vs[h] == EMPTY
  {
    assert Shown(0);
  }

  /** Losing what slot h holds, and marking it unused, keeps the others. */
  lemma OwnedDrop(vs: seq<Slot>, l: set<Block>, used: set<nat>, h: nat)
    requires Owned(vs, l, used) && h < |vs| && vs[h].used
    ensures Owned(vs[h := EMPTY], Without(l, Ptrs(vs[h])), used - Slots(vs[h]))
  {
  }

  /** A slot filled with new blocks and descriptors joins the others. */
  lemma OwnedAdd(vs: seq<Slot>, l: set<Block>, used: set<nat>, h: nat, s: Slot, l': set<Block>, used': set<nat>)
    requires Owned(vs, l, used) && h < |vs| && !vs[h].used && s.used && Holds(s, l', used')
    requires Without(l', Ptrs(s)) == l && used <= used'
    requires (forall p | p in Ptrs(s) :: !HasPtr(l, p)) && Slots(s) !! used
    ensures Owned(vs[h := s], l', used')
  {
  }

  // ------------------------------------------------------------------
  // The terminals of a client
  // ------------------------------------------------------------------

  class Terminals {
    const heap: Heap
    const ldt: L.Table
    const vts: array<Slot>

    ghost predicate Base()
      reads this, heap, ldt
    {
      heap.Valid() && ldt.entries.Length == L.ENTRIES && vts.Length == MAX_VTS
    }

    ghost function LiveNow(): set<Block>
      reads heap
    {
      Live(heap.blocks)
    }

    ghost function UsedNow(): set<nat>
      reads ldt, ldt.entries
    {
      L.Used(ldt.entries[..])
    }

    ghost predicate Valid()
      reads this, heap, ldt, ldt.entries, vts
    {
      Base() && Owned(vts[..], LiveNow(), UsedNow())
    }

    constructor (h: Heap, t: L.Table)
      requires h.Valid() && t.entries.Length == L.ENTRIES
      ensures Valid() && fresh(vts) && heap == h && ldt == t && forall i | 0 <= i < MAX_VTS :: !vts[i].used
    {
      heap, ldt := h, t;
      vts := new Slot[MAX_VTS](_ => EMPTY);
    }

    /** Heap memory, or 0. */
    method Take(n: nat) returns (p: nat)
      requires Base() && 0 < n <= 0xFFFF_FFFC
      modifies heap
      ensures Base() && heap.heapStart == old(heap.heapStart) && heap.top == old(heap.top)
      ensures if p == 0 then heap.blocks == old(heap.blocks)
              else Adds(old(LiveNow()), LiveNow(), p) && HasRoom(LiveNow(), p, n)
    {
      p := heap.Kmalloc(n);
      if p != 0 {
        AddsMalloc(heap.heapStart, heap.top, old(heap.blocks), n);
      } else {
        MallocFails(heap.heapStart, heap.top, old(heap.blocks), n);
      }
    }

    /** Give heap memory back. */
    method Give(p: nat)
      requires Base() && p != 0 && HasPtr(LiveNow(), p)
      modifies heap
      ensures Base() && heap.heapStart == old(heap.heapStart) && heap.top == old(heap.top)
      ensures LiveNow() == Without(old(LiveNow()), {p})
    {
      ghost var i := LiveIndex(heap.blocks, p);
      PtrIndex(heap.blocks, p);
      RemovesFree(heap.heapStart, heap.top, heap.blocks, i, p);
      heap.Kfree(p, i);
    }

    /** The two screen buffers and the keyboard ring; if one cannot be had the
        others are given back. */
    method TakeBuffers(n: nat) returns (cb: nat, ab: nat, kb: nat)
      requires Base() && 0 < n <= 0xFFFF_FFFC
      modifies heap
      ensures Base() && heap.heapStart == old(heap.heapStart) && heap.top == old(heap.top)
      ensures cb == 0 ==> heap.blocks == old(heap.blocks)
      ensures cb != 0 ==>
                && ab != 0 && kb != 0 && cb != ab && cb != kb && ab != kb
                && Without(LiveNow(), {cb, ab, kb}) == old(LiveNow())
                && (forall p | p in {cb, ab, kb} :: HasPtr(LiveNow(), p) && !HasPtr(old(LiveNow()), p))
                && HasRoom(LiveNow(), cb, n) && HasRoom(LiveNow(), ab, n) && HasRoom(LiveNow(), kb, KBD_BYTES)
    {
      cb, ab := TakePair(n);
      if cb == 0 {
        return 0, 0, 0;
      }
      ghost var two := LiveNow();
      kb := Take(KBD_BYTES);
      if kb == 0 {
        GivePair(cb, ab);
        LiveDetermines(heap.heapStart, heap.top, heap.blocks, old(heap.blocks));
        return 0, 0, 0;
      }
      AddsKeeps(two, LiveNow(), kb);
      WithoutBoth(LiveNow(), {kb}, {cb, ab});
      assert {kb} + {cb, ab} == {cb, ab, kb};
    }

    method TakePair(n: nat) returns (cb: nat, ab: nat)
      requires Base() && 0 < n <= 0xFFFF_FFFC
      modifies heap
      ensures Base() && heap.heapStart == old(heap.heapStart) && heap.top == old(heap.top)
      ensures cb == 0 ==> heap.blocks == old(heap.blocks)
      ensures cb != 0 ==>
                && ab != 0 && cb != ab
                && Without(LiveNow(), {cb, ab}) == old(LiveNow())
                && (forall p | p in {cb, ab} :: HasPtr(LiveNow(), p) && !HasPtr(old(LiveNow()), p))
                && HasRoom(LiveNow(), cb, n) && HasRoom(LiveNow(), ab, n)
    {
      cb := Take(n);
      ghost var one := LiveNow();
      ab := Take(n);
      if cb == 0 || ab == 0 {
        if cb != 0 {
          Give(cb);
        }
        if ab != 0 {
          Give(ab);
        }
        LiveDetermines(heap.heapStart, heap.top, heap.blocks, old(heap.blocks));
        return 0, 0;
      }
      AddsKeeps(one, LiveNow(), ab);
      WithoutBoth(LiveNow(), {ab}, {cb});
      assert {ab} + {cb} == {cb, ab};
    }

    method GivePair(cb: nat, ab: nat)
      requires Base() && cb != 0 && ab != 0 && cb != ab && HasPtr(LiveNow(), cb) && HasPtr(LiveNow(), ab)
      modifies heap
      ensures Base() && heap.heapStart == old(heap.heapStart) && heap.top == old(heap.top)
      ensures LiveNow() == Without(old(LiveNow()), {cb, ab})
    {
      WithoutBoth(LiveNow(), {cb}, {ab});
      Give(cb);
      Give(ab);
      assert {cb} + {ab} == {cb, ab};
    }

    /** A descriptor for each buffer; if one cannot be had the others are freed. */
    method TakeDescriptors() returns (ci: nat, ai: nat, ki: nat)
      requires ldt.entries.Length == L.ENTRIES
      modifies ldt.entries
      ensures ci == 0 ==> UsedNow() == old(UsedNow())
      ensures ci != 0 ==>
                && L.FIRST <= ci < L.ENTRIES && L.FIRST <= ai < L.ENTRIES && L.FIRST <= ki < L.ENTRIES
                && ci != ai && ci != ki && ai != ki && {ci, ai, ki} !! old(UsedNow())
                && UsedNow() == old(UsedNow()) + {ci, ai, ki}
                && ldt.entries[..] == old(ldt.entries[..])[ci := L.DATA][ai := L.DATA][ki := L.DATA]
    {
      ci := TakeOne();
      ai := TakeOne();
      ki := TakeOne();
      if ci == 0 || ai == 0 || ki == 0 {
        if ci != 0 {
          FreeOne(ci);
        }
        if ai != 0 {
          FreeOne(ai);
        }
        if ki != 0 {
          FreeOne(ki);
        }
        return 0, 0, 0;
      }
    }

    method TakeOne() returns (i: nat)
      requires ldt.entries.Length == L.ENTRIES
      modifies ldt.entries
      ensures i == 0 ==> ldt.entries[..] == old(ldt.entries[..])
      ensures i != 0 ==> L.FIRST <= i < L.ENTRIES && i !in old(UsedNow()) && UsedNow() == old(UsedNow()) + {i}
                         && ldt.entries[..] == old(ldt.entries[..])[i := L.DATA]
    {
      i := ldt.Alloc(1);
      if i != 0 {
        L.TakenUsed(old(ldt.entries[..]), i, 1);
        assert L.Slots(i, 1) == {i};
      }
    }

    method FreeOne(i: nat)
      requires ldt.entries.Length == L.ENTRIES && L.FIRST <= i < L.ENTRIES
      modifies ldt.entries
      ensures UsedNow() == old(UsedNow()) - {i}
    {
      L.FreedUsed(ldt.entries[..], i);
      ldt.Free(i);
    }

    /** Descriptors that map the three buffers, or none. */
    method Describe(cb: nat, ab: nat, kb: nat, n: nat) returns (ci: nat, ai: nat, ki: nat)
      requires ldt.entries.Length == L.ENTRIES && 0 < n <= 0x10_0000
      requires cb < WORD32 && ab < WORD32 && kb < WORD32
      modifies ldt.entries
      ensures ci == 0 ==> UsedNow() == old(UsedNow())
      ensures ci != 0 ==>
                && L.FIRST <= ci < L.ENTRIES && L.FIRST <= ai < L.ENTRIES && L.FIRST <= ki < L.ENTRIES
                && ci != ai && ci != ki && ai != ki && {ci, ai, ki} !! old(UsedNow())
                && UsedNow() == old(UsedNow()) + {ci, ai, ki}
                && Maps(ldt.entries[..], Selector(ci), cb, n, 0xF0) && Maps(ldt.entries[..], Selector(ai), ab, n, 0xF0)
                && Maps(ldt.entries[..], Selector(ki), kb, KBD_BYTES, 0xF2)
    {
      ci, ai, ki := TakeDescriptors();
      if ci != 0 {
        SetUp(ci, cb, n, 0xF0);
        SetUp(ai, ab, n, 0xF0);
        SetUp(ki, kb, KBD_BYTES, 0xF2);
      }
    }

    /** Buffers and descriptors for one terminal, or nothing. */
    method Populate(n: nat) returns (error: nat, s: Slot)
      requires Base() && 0 < n <= 0x10_0000
      modifies heap, ldt.entries
      ensures Base() && heap.heapStart == old(heap.heapStart) && heap.top == old(heap.top)
      ensures error in {0, OUT_OF_MEMORY, NO_LDT}
      ensures error != 0 ==> heap.blocks == old(heap.blocks) && UsedNow() == old(UsedNow())
      ensures error == 0 ==>
                && s.used && Holds(s, LiveNow(), UsedNow()) && Equipped(s, n, LiveNow(), ldt.entries[..])
                && Without(LiveNow(), Ptrs(s)) == old(LiveNow())
                && (forall p | p in Ptrs(s) :: !HasPtr(old(LiveNow()), p))
                && UsedNow() == old(UsedNow()) + Slots(s) && Slots(s) !! old(UsedNow())
    {
      var cb, ab, kb := TakeBuffers(n);
      if cb == 0 {
        return OUT_OF_MEMORY, EMPTY;
      }
      PtrsFit(heap.heapStart, heap.top, heap.blocks, cb);
      PtrsFit(heap.heapStart, heap.top, heap.blocks, ab);
      PtrsFit(heap.heapStart, heap.top, heap.blocks, kb);
      var ci, ai, ki := Describe(cb, ab, kb, n);
      if ci == 0 {
        ThreeIff(cb, ab, kb);
        GiveThree(cb, ab, kb);
        LiveDetermines(heap.heapStart, heap.top, heap.blocks, old(heap.blocks));
        return NO_LDT, EMPTY;
      }
      s := Slot(true, cb, ab, kb, Selector(ci), Selector(ai), Selector(ki));
      SlotHolds(s, cb, ab, kb, ci, ai, ki, LiveNow(), UsedNow());
      error := 0;
    }

    /** INT 31h AX=0A01h. All or nothing: on every failure the heap, the used
        descriptors and the terminals are as before. */
    method Alloc(cols: nat, rows: nat) returns (error: nat, handle: nat)
      requires Valid()
      modifies heap, ldt.entries, vts
      ensures Valid() && heap.heapStart == old(heap.heapStart) && heap.top == old(heap.top)
      ensures error == 0 <==> handle != 0
      ensures error != 0 ==> heap.blocks == old(heap.blocks) && UsedNow() == old(UsedNow()) && vts[..] == old(vts[..])
      ensures error == BAD_DIMENSIONS <==> cols != COLS || rows != ROWS
      ensures error == NO_FREE_VT <==> cols == COLS && rows == ROWS && forall h | 0 <= h < MAX_VTS :: old(vts[h].used)
      ensures error == 0 ==>
                var h := handle - 1;
                && h < MAX_VTS && !old(vts[h].used) && (forall g | 0 <= g < h :: old(vts[g].used))
                && vts[h].used && vts[..] == old(vts[..])[h := vts[h]]
                && Equipped(vts[h], 2000, LiveNow(), ldt.entries[..])
                && Without(LiveNow(), Ptrs(vts[h])) == old(LiveNow()) && UsedNow() - Slots(vts[h]) == old(UsedNow())
    {
      if cols != COLS || rows != ROWS {
        return BAD_DIMENSIONS, 0;
      }
      var h := 0;
      while h < MAX_VTS && vts[h].used
        invariant 0 <= h <= MAX_VTS && forall g | 0 <= g < h :: vts[g].used
      {
        h := h + 1;
      }
      if h == MAX_VTS {
        return NO_FREE_VT, 0;
      }
      assert cols * rows == 2000;
      var s;
      error, s := Populate(cols * rows);
      if error != 0 {
        return error, 0;
      }
      OwnedAdd(vts[..], old(LiveNow()), old(UsedNow()), h, s, LiveNow(), UsedNow());
      vts[h] := s;
      assert vts[..] == old(vts[..])[h := s];
      handle := h + 1;
    }

    method SetUp(i: nat, base: nat, size: nat, access: Byte)
      requires ldt.entries.Length == L.ENTRIES && i in UsedNow() && access != 0
      requires base < WORD32 && 0 < size <= 0x10_0000
      modifies ldt.entries
      ensures UsedNow() == old(UsedNow())
      ensures ldt.entries[..] == old(ldt.entries[..])[i := ldt.entries[i]]
              && Maps(ldt.entries[..], Selector(i), base, size, access)
    {
      L.SetupReads(ldt.entries[i], base, size - 1, access, true);
      ldt.Set(i, base, size - 1, access, true);
    }

    method GiveThree(cb: nat, ab: nat, kb: nat)
      requires Base() && |{cb, ab, kb}| == 3 && 0 !in {cb, ab, kb}
               && forall p | p in {cb, ab, kb} :: HasPtr(LiveNow(), p)
      modifies heap
      ensures Base() && heap.heapStart == old(heap.heapStart) && heap.top == old(heap.top)
      ensures LiveNow() == Without(old(LiveNow()), {cb, ab, kb})
    {
      ThreeIff(cb, ab, kb);
      WithoutBoth(LiveNow(), {cb, ab}, {kb});
      GivePair(cb, ab);
      Give(kb);
      assert {cb, ab} + {kb} == {cb, ab, kb};
    }

    /** INT 31h AX=0A08h: exactly what the terminal held goes back. */
    method Free(handle: nat) returns (error: nat)
      requires Valid()
      modifies heap, ldt.entries, vts
      ensures Valid() && heap.heapStart == old(heap.heapStart) && heap.top == old(heap.top)
      ensures error == if 1 <= handle <= MAX_VTS && old(vts[handle - 1].used) then 0 else BAD_HANDLE
      ensures error != 0 ==> heap.blocks == old(heap.blocks) && UsedNow() == old(UsedNow()) && vts[..] == old(vts[..])
      ensures error == 0 ==>
                var h := handle - 1;
                && vts[..] == old(vts[..])[h := EMPTY]
                && LiveNow() == Without(old(LiveNow()), Ptrs(old(vts[h])))
                && UsedNow() == old(UsedNow()) - Slots(old(vts[h]))
    {
      if handle < 1 || handle > MAX_VTS || !vts[handle - 1].used {
        return BAD_HANDLE;
      }
      Drop(handle - 1);
      error := 0;
    }

    method Drop(h: nat)
      requires Valid() && h < MAX_VTS && vts[h].used
      modifies heap, ldt.entries, vts
      ensures Valid() && heap.heapStart == old(heap.heapStart) && heap.top == old(heap.top)
      ensures vts[..] == old(vts[..])[h := EMPTY]
      ensures LiveNow() == Without(old(LiveNow()), Ptrs(old(vts[h])))
      ensures UsedNow() == old(UsedNow()) - Slots(old(vts[h]))
    {
      var v := vts[h];
      OwnedAt(vts[..], LiveNow(), UsedNow(), h);
      OwnedDrop(vts[..], LiveNow(), UsedNow(), h);
      assert |Ptrs(v)| == 3 && Ptrs(v) == {v.charBuf, v.attrBuf, v.kbdBuf};
      FreeThree(Index(v.charSel), Index(v.attrSel), Index(v.kbdSel));
      GiveThree(v.charBuf, v.attrBuf, v.kbdBuf);
      vts[h] := EMPTY;
      assert vts[..] == old(vts[..])[h := EMPTY];
      assert UsedNow() == old(UsedNow()) - Slots(v) && LiveNow() == Without(old(LiveNow()), Ptrs(v));
    }

    method FreeThree(ci: nat, ai: nat, ki: nat)
      requires ldt.entries.Length == L.ENTRIES
      requires L.FIRST <= ci < L.ENTRIES && L.FIRST <= ai < L.ENTRIES && L.FIRST <= ki < L.ENTRIES
      modifies ldt.entries
      ensures UsedNow() == old(UsedNow()) - {ci, ai, ki}
    {
      FreeOne(ci);
      FreeOne(ai);
      FreeOne(ki);
    }

    /** The end of the client: everything its terminals held goes back, nothing
        else. */
    method ReleaseAll()
      requires Valid()
      modifies heap, ldt.entries, vts
      ensures Valid() && forall h | 0 <= h < MAX_VTS :: !vts[h].used
      ensures LiveNow() == Without(old(LiveNow()), AllPtrs(old(vts[..])))
      ensures UsedNow() == old(UsedNow()) - AllSlots(old(vts[..]))
      ensures forall b :: b in LiveNow() <==>
                b in old(LiveNow()) && forall h | 0 <= h < MAX_VTS && old(vts[h].used) :: Data(b) !in old(Ptrs(vts[h]))
      ensures forall i :: i in UsedNow() <==>
                i in old(UsedNow()) && forall h | 0 <= h < MAX_VTS && old(vts[h].used) :: i !in old(Slots(vts[h]))
    {
      ghost var vs := vts[..];
      HeldByAll(vs);
      var j := 0;
      while j < MAX_VTS
        invariant 0 <= j <= MAX_VTS && Valid()
        invariant forall h | 0 <= h < MAX_VTS :: if h < j then !vts[h].used else vts[h] == vs[h]
        invariant LiveNow() == Without(old(LiveNow()), AllPtrs(vs[..j]))
        invariant UsedNow() == old(UsedNow()) - AllSlots(vs[..j])
      {
        assert vs[..j + 1][..j] == vs[..j];
        if vts[j].used {
          WithoutBoth(old(LiveNow()), AllPtrs(vs[..j]), Ptrs(vs[j]));
          Drop(j);
        }
        j := j + 1;
      }
      assert vs[..MAX_VTS] == vs;
    }

    /** Allocating a terminal and freeing it again changes nothing. */
    method AllocThenFree(cols: nat, rows: nat)
      requires Valid()
      modifies heap, ldt.entries, vts
      ensures Valid() && heap.blocks == old(heap.blocks) && UsedNow() == old(UsedNow()) && vts[..] == old(vts[..])
    {
      UnusedEmpty(vts[..], LiveNow(), UsedNow());
      var error, handle := Alloc(cols, rows);
      if error == 0 {
        assert old(vts[..][handle - 1]) == EMPTY;
        error := Free(handle);
        LiveDetermines(heap.heapStart, heap.top, heap.blocks, old(heap.blocks));
      }
    }
  }

  /** Selector sel names an LDT descriptor with privilege 3, and that maps exactly the
      size bytes from base on, with these rights. */
  predicate Maps(es: seq<L.Descriptor>, sel: nat, base: nat, size: nat, access: nat) {
    var i := sel / 8;
    && i < |es| && sel % 4 == 3 && sel / 4 % 2 == 1
    && es[i].baseLo + 0x1_0000 * es[i].baseMid + 0x100_0000 * es[i].baseHi == base
    && !es[i].hi.g && es[i].limitLo + 0x1_0000 * es[i].hi.nibble + 1 == size
    && es[i].access == access && !es[i].hi.avl
  }

  /** Buffers large enough for n cells and a ring of 80 bytes, and selectors that map
      exactly these: the screen read-only, the ring writable. */
  predicate Equipped(s: Slot, n: nat, l: set<Block>, es: seq<L.Descriptor>) {
    && HasRoom(l, s.charBuf, n) && HasRoom(l, s.attrBuf, n) && HasRoom(l, s.kbdBuf, 80)
    && Maps(es, s.charSel, s.charBuf, n, 0xF0) && Maps(es, s.attrSel, s.attrBuf, n, 0xF0)
    && Maps(es, s.kbdSel, s.kbdBuf, 80, 0xF2)
  }

  /** Everything the used slots hold. */
  function AllPtrs(vs: seq<Slot>): set<nat> {
    if vs == [] then {}
    else AllPtrs(vs[..|vs| - 1]) + if vs[|vs| - 1].used then Ptrs(vs[|vs| - 1]) else {}
  }

  function AllSlots(vs: seq<Slot>): set<nat> {
    if vs == [] then {}
    else AllSlots(vs[..|vs| - 1]) + if vs[|vs| - 1].used then Slots(vs[|vs| - 1]) else {}
  }

  lemma {:induction false} HeldByAll(vs: seq<Slot>)
    ensures forall p :: p in AllPtrs(vs) <==> exists h :: 0 <= h < |vs| && vs[h].used && p in Ptrs(vs[h])
    ensures forall i :: i in AllSlots(vs) <==> exists h :: 0 <= h < |vs| && vs[h].used && i in Slots(vs[h])
  {
    if vs != [] {
      HeldByAll(vs[..|vs| - 1]);
    }
  }

  lemma ThreeIff(a: nat, b: nat, c: nat)
    ensures |{a, b, c}| == 3 <==> a != b && a != c && b != c
  {
  }

  lemma SlotHolds(s: Slot, cb: nat, ab: nat, kb: nat, ci: nat, ai: nat, ki: nat, l: set<Block>, used: set<nat>)
    requires s == Slot(true, cb, ab, kb, Selector(ci), Selector(ai), Selector(ki))
    requires 0 !in {cb, ab, kb} && cb != ab && cb != kb && ab != kb && (forall p | p in {cb, ab, kb} :: HasPtr(l, p))
    requires ci != ai && ci != ki && ai != ki && {ci, ai, ki} <= used
    requires L.FIRST <= ci < L.ENTRIES && L.FIRST <= ai < L.ENTRIES && L.FIRST <= ki < L.ENTRIES
    ensures Ptrs(s) == {cb, ab, kb} && Slots(s) == {ci, ai, ki} && Holds(s, l, used)
  {
    ThreeIff(cb, ab, kb);
    ThreeIff(ci, ai, ki);
    assert Ptrs(s) == {cb, ab, kb} && Slots(s) == {ci, ai, ki};
    assert |Ptrs(s)| == 3 && |Slots(s)| == 3;
  }

  lemma PtrsFit(root: nat, top: nat, bs: seq<Block>, p: nat)
    requires WfHeap(root, top, bs) && HasPtr(Live(bs), p)
    ensures p < WORD32
  {
    var b :| b in Live(bs) && Data(b) == p;
    var j :| 0 <= j < |bs| && bs[j] == b;
    TiledAt(HEADER, root, top, bs, j);
  }

  lemma MallocFails(root: nat, top: nat, bs: seq<Block>, size: nat)
    requires WfHeap(root, top, bs) && 0 < size < WORD32 && MallocResult(bs, size) == 0
    ensures AfterMalloc(bs, size) == bs
  {
  }
}
