/** The local descriptor table of a DPMI client: descriptors are handed out as the
    lowest run of free slots, and a freed one stays loadable. */
module Ldt {
  import opened Numbers

  const ENTRIES: nat := 2048
  const FIRST: nat := 16

  /** The flag byte of a descriptor: G, D/B, L and AVL bits and limit bits 16-19. */
  datatype LimitHi = LimitHi(g: bool, big: bool, long: bool, avl: bool, nibble: nat)

  datatype Descriptor = Descriptor(limitLo: U16, baseLo: U16, baseMid: Byte, access: Byte, hi: LimitHi, baseHi: Byte)

  /** Never allocated, or freed: the AVL bit marks a slot as free while leaving the
      rest of the descriptor valid. */
  predicate IsFree(d: Descriptor) { d.access == 0 || d.hi.avl }

  // ------------------------------------------------------------------
  // Descriptor fields
  // ------------------------------------------------------------------

  function SetBase(d: Descriptor, base: U32): Descriptor {
    d.(baseLo := base % 0x1_0000, baseMid := base / 0x1_0000 % 0x100, baseHi := base / 0x100_0000)
  }

  function GetBase(d: Descriptor): U32 {
    d.baseLo + 0x1_0000 * d.baseMid + 0x100_0000 * d.baseHi
  }

  function SetLimit(d: Descriptor, limit: U32): Descriptor {
    if limit > 0xF_FFFF then
      var pages := limit / 0x1000;
      d.(hi := d.hi.(g := true, nibble := pages / 0x1_0000), limitLo := pages % 0x1_0000)
    else d.(hi := d.hi.(g := false, nibble := limit / 0x1_0000), limitLo := limit % 0x1_0000)
  }

  /** Highest offset the processor lets through. */
  function Reach(d: Descriptor): nat {
    var limit := d.limitLo + 0x1_0000 * d.hi.nibble;
    if d.hi.g then 0x1000 * limit + 0xFFF else limit
  }

  function Setup(d: Descriptor, base: U32, limit: U32, access: Byte, big: bool): Descriptor {
    var e := SetLimit(SetBase(d, base), limit).(access := access);
    e.(hi := e.hi.(big := big))
  }

  /** A descriptor gives back the base it was set up with and lets through exactly
      the limit, rounded up to whole pages above 1 MB. */
  lemma SetupReads(d: Descriptor, base: U32, limit: U32, access: Byte, big: bool)
    ensures var e := Setup(d, base, limit, access, big);
            && GetBase(e) == base && e.access == access && e.hi.big == big && e.hi.avl == d.hi.avl
            && e.baseLo + 0x1_0000 * e.baseMid + 0x100_0000 * e.baseHi == base
            && e.limitLo + 0x1_0000 * e.hi.nibble == (if e.hi.g then limit / 0x1000 else limit)
            && (e.hi.g <==> limit >= 0x10_0000) && e.hi.long == d.hi.long
            && e.hi.nibble < 16
            && Reach(e) == (if limit <= 0xF_FFFF then limit else limit / 0x1000 * 0x1000 + 0xFFF)
  {
  }

  // ------------------------------------------------------------------
  // Allocation
  // ------------------------------------------------------------------

  predicate FreeRun(es: seq<Descriptor>, i: nat, count: nat) {
    i + count <= |es| && forall j | i <= j < i + count :: IsFree(es[j])
  }

  /** Lowest index from `from` on with `count` free slots in a row, or 0. */
  function LowestRun(es: seq<Descriptor>, from: nat, count: nat): (i: nat)
    requires 0 < from
    ensures i != 0 ==> from <= i && FreeRun(es, i, count) && forall k | from <= k < i :: !FreeRun(es, k, count)
    ensures i == 0 ==> forall k | from <= k :: !FreeRun(es, k, count)
    decreases |es| - from
  {
    if from + count > |es| then 0
    else if FreeRun(es, from, count) then from
    else LowestRun(es, from + 1, count)
  }

  /** A new data descriptor: present, ring 3, read/write, 32-bit. */
  const DATA := Descriptor(0, 0, 0, 0xF2, LimitHi(false, true, false, false, 0), 0)

  /** es with [i, i + count) newly allocated. */
  function Taken(es: seq<Descriptor>, i: nat, count: nat): (r: seq<Descriptor>)
    requires i + count <= |es|
    ensures |r| == |es| && forall j | 0 <= j < |es| :: r[j] == if i <= j < i + count then DATA else es[j]
  {
    es[..i] + seq(count, _ => DATA) + es[i + count..]
  }

  function Freed(es: seq<Descriptor>, i: nat): seq<Descriptor> {
    if FIRST <= i < |es| then es[i := es[i].(hi := es[i].hi.(avl := true))] else es
  }

  /** Slots in use. */
  function Used(es: seq<Descriptor>): set<nat> { set i | 0 <= i < |es| && !IsFree(es[i]) }

  function Slots(i: nat, count: nat): (s: set<nat>)
    ensures forall j :: j in s <==> i <= j < i + count
  {
    if count == 0 then {} else Slots(i, count - 1) + {i + count - 1}
  }

  lemma TakenUsed(es: seq<Descriptor>, i: nat, count: nat)
    requires FreeRun(es, i, count)
    ensures Used(Taken(es, i, count)) == Used(es) + Slots(i, count)
    ensures Used(es) !! Slots(i, count)
  {
  }

  lemma FreedUsed(es: seq<Descriptor>, i: nat)
    requires FIRST <= i < |es|
    ensures Used(Freed(es, i)) == Used(es) - {i}
  {
  }

  class Table {
    const entries: array<Descriptor>

    constructor ()
      ensures entries.Length == ENTRIES && fresh(entries) && Used(entries[..]) == {}
    {
      entries := new Descriptor[ENTRIES](_ => Descriptor(0, 0, 0, 0, LimitHi(false, false, false, false, 0), 0));
    }

    /** The lowest run of `count` free slots from FIRST on; 0 when there is none.
        Slots in use are not touched. */
    method Alloc(count: nat) returns (idx: nat)
      requires entries.Length == ENTRIES
      modifies entries
      ensures idx == LowestRun(old(entries[..]), FIRST, count)
      ensures idx == 0 ==> entries[..] == old(entries[..])
      ensures idx != 0 ==> idx + count <= ENTRIES && entries[..] == Taken(old(entries[..]), idx, count)
      ensures idx != 0 ==> 16 <= idx && forall j | idx <= j < idx + count ::
                && (old(entries[j]).access == 0 || old(entries[j]).hi.avl)
                && entries[j].access == 0xF2 && entries[j].hi == LimitHi(false, true, false, false, 0)
                && entries[j].limitLo == entries[j].baseLo == entries[j].baseMid == entries[j].baseHi == 0
    {
      var i := FIRST;
      while i + count <= ENTRIES
        invariant FIRST <= i && entries[..] == old(entries[..])
        invariant LowestRun(entries[..], i, count) == LowestRun(entries[..], FIRST, count)
        decreases ENTRIES - i
      {
        var j := 0;
        while j < count && IsFree(entries[i + j])
          invariant 0 <= j <= count && forall k | i <= k < i + j :: IsFree(entries[k])
        {
          j := j + 1;
        }
        if j >= count {
          assert FreeRun(entries[..], i, count);
          ghost var was := entries[..];
          j := 0;
          while j < count
            invariant 0 <= j <= count && entries[..] == Taken(was, i, j)
          {
            entries[i + j] := DATA;
            j := j + 1;
          }
          return i;
        }
        assert !FreeRun(entries[..], i, count) by { assert !IsFree(entries[..][i + j]); }
        i := i + 1;
      }
      idx := 0;
    }

    /** Free one slot. Its descriptor keeps base, limit and access byte. */
    method Free(idx: nat)
      requires entries.Length == ENTRIES
      modifies entries
      ensures entries[..] == Freed(old(entries[..]), idx)
    {
      if idx < FIRST || idx >= ENTRIES {
        return;
      }
      entries[idx] := entries[idx].(hi := entries[idx].hi.(avl := true));
    }

    method Set(idx: nat, base: U32, limit: U32, access: Byte, big: bool)
      requires entries.Length == ENTRIES && idx < ENTRIES
      modifies entries
      ensures entries[..] == old(entries[..])[idx := Setup(old(entries[idx]), base, limit, access, big)]
    {
      entries[idx] := SetBase(entries[idx], base);
      entries[idx] := SetLimit(entries[idx], limit);
      entries[idx] := entries[idx].(access := access);
      entries[idx] := entries[idx].(hi := entries[idx].hi.(big := big));
    }
  }

  // ------------------------------------------------------------------
  // Runs
  // ------------------------------------------------------------------

  datatype Op =
    | AllocOp(count: nat)
    | FreeOp(idx: nat)
    | SetOp(idx: nat, base: U32, limit: U32, access: Byte, big: bool)

  /** The client sets slot i up itself. */
  predicate SetsUp(ops: seq<Op>, i: nat) {
    exists op :: op in ops && op.SetOp? && op.idx == i
  }

  function Step(es: seq<Descriptor>, op: Op): (r: seq<Descriptor>)
    ensures |r| == |es|
  {
    match op
    case AllocOp(n) => var i := LowestRun(es, FIRST, n); if i == 0 then es else Taken(es, i, n)
    case FreeOp(i) => Freed(es, i)
    case SetOp(i, base, limit, access, big) =>
      if i < |es| then es[i := Setup(es[i], base, limit, access, big)] else es
  }

  function Run(es: seq<Descriptor>, ops: seq<Op>): (r: seq<Descriptor>)
    ensures |r| == |es|
    decreases |ops|
  {
    if ops == [] then es else Run(Step(es, ops[0]), ops[1..])
  }

  /** Some allocation of the run hands out slot i. */
  predicate HandsOut(es: seq<Descriptor>, ops: seq<Op>, i: nat)
    decreases |ops|
  {
    ops != [] &&
    (|| (ops[0].AllocOp? && var k := LowestRun(es, FIRST, ops[0].count); k != 0 && k <= i < k + ops[0].count)
     || HandsOut(Step(es, ops[0]), ops[1..], i))
  }

  /** Until a slot is handed out again or set up, freed or not, it keeps its base,
      limit and access byte, whatever happens to other slots: a selector of it still
      loads. */
  lemma {:induction false} KeptUntilHandedOut(es: seq<Descriptor>, ops: seq<Op>, i: nat)
    requires i < |es| && !HandsOut(es, ops, i) && !SetsUp(ops, i)
    ensures var d, e := es[i], Run(es, ops)[i]; e == d || e == d.(hi := d.hi.(avl := true))
    decreases |ops|
  {
    if ops != [] {
      assert ops[0] in ops && forall op | op in ops[1..] :: op in ops;
      KeptUntilHandedOut(Step(es, ops[0]), ops[1..], i);
    }
  }

  /** A slot in use is never handed out before it was freed. */
  lemma {:induction false} UsedIsSafe(es: seq<Descriptor>, ops: seq<Op>, i: nat)
    requires i < |es| && !IsFree(es[i]) && !SetsUp(ops, i) && forall op | op in ops :: op != FreeOp(i)
    ensures !HandsOut(es, ops, i) && Run(es, ops)[i] == es[i]
    decreases |ops|
  {
    if ops != [] {
      var es' := Step(es, ops[0]);
      assert es'[i] == es[i] by {
        assert ops[0] in ops;
      }
      forall op | op in ops[1..] ensures op != FreeOp(i) {
        assert op in ops;
      }
      UsedIsSafe(es', ops[1..], i);
    }
  }
}
