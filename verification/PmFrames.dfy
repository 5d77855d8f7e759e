/** Frames the DPMI host pushes on a protected-mode client's stack: exceptions,
    hardware interrupts and software interrupts, and the two ways back, INT F3h
    and IRET. */
module PmFrames {
  import opened Numbers

  const LDT_ENTRIES: nat := 2048

  // ------------------------------------------------------------------
  // Memory
  // ------------------------------------------------------------------

  function Load16(m: seq<Byte>, a: nat): U32
    requires a + 2 <= |m|
  {
    var low: nat, high: nat := m[a], m[a + 1];
    low + 0x100 * high
  }

  function Load32(m: seq<Byte>, a: nat): U32
    requires a + 4 <= |m|
  {
    Load16(m, a) + 0x1_0000 * Load16(m, a + 2)
  }

  predicate SameOutside(m: seq<Byte>, m': seq<Byte>, lo: nat, hi: nat) {
    |m| == |m'| && forall p {:trigger m[p]} {:trigger m'[p]} | 0 <= p < |m| && !(lo <= p < hi) :: m'[p] == m[p]
  }

  predicate SameInside(m: seq<Byte>, m': seq<Byte>, lo: nat, hi: nat) {
    |m| == |m'| && hi <= |m| && forall p {:trigger m[p]} {:trigger m'[p]} | lo <= p < hi :: m'[p] == m[p]
  }

  method Store16(mem: array<Byte>, a: nat, v: U32)
    requires a + 2 <= mem.Length && v < 0x1_0000
    modifies mem
    ensures Load16(mem[..], a) == v && SameOutside(old(mem[..]), mem[..], a, a + 2)
  {
    mem[a], mem[a + 1] := v % 0x100, v / 0x100;
  }

  method Store32(mem: array<Byte>, a: nat, v: U32)
    requires a + 4 <= mem.Length
    modifies mem
    ensures Load32(mem[..], a) == v && SameOutside(old(mem[..]), mem[..], a, a + 4)
  {
    Store16(mem, a, v % 0x1_0000);
    ghost var m := mem[..];
    Store16(mem, a + 2, v / 0x1_0000);
    assert Load16(mem[..], a) == Load16(m, a);
  }

  method Read16(mem: array<Byte>, a: nat) returns (v: U32)
    requires a + 2 <= mem.Length
    ensures v == Load16(mem[..], a)
  {
    var low: nat, high: nat := mem[a], mem[a + 1];
    v := low + 0x100 * high;
  }

  method Read32(mem: array<Byte>, a: nat) returns (v: U32)
    requires a + 4 <= mem.Length
    ensures v == Load32(mem[..], a)
  {
    var low := Read16(mem, a);
    var high := Read16(mem, a + 2);
    v := low + 0x1_0000 * high;
  }

  // ------------------------------------------------------------------
  // Registers and descriptors
  // ------------------------------------------------------------------

  datatype Regs = Regs(eip: U32, cs: U32, eflags: U32, esp: U32, ss: U32, ds: U32, es: U32)

  /** What the host uses of a descriptor: its base, the B bit of a stack segment
      and whether the slot is in use. */
  datatype Desc = Desc(base: U32, big: bool, used: bool)

  datatype Vector = Vector(selector: U32, offset: U32)

  /** Bits 8 (TF) and 9 (IF) of the flags. */
  function Tf(e: U32): nat { e / 0x100 % 2 }
  function If(e: U32): nat { e / 0x200 % 2 }
  function ClearTf(e: U32): U32 { e - 0x100 * Tf(e) }
  function ClearTfIf(e: U32): U32 { ClearTf(e) - 0x200 * If(e) }

  lemma FlagParts(low: nat, t: nat, i: nat, high: nat)
    requires low < 0x100 && t < 2 && i < 2 && low + 0x100 * t + 0x200 * i + 0x400 * high < WORD32
    ensures var e: U32 := low + 0x100 * t + 0x200 * i + 0x400 * high;
            e % 0x100 == low && Tf(e) == t && If(e) == i && e / 0x400 == high
  {
    var e: U32 := low + 0x100 * t + 0x200 * i + 0x400 * high;
    DivModUnique(e, 0x100, t + 2 * i + 4 * high, low);
    DivModUnique(e, 0x200, i + 2 * high, low + 0x100 * t);
    DivModUnique(e, 0x400, high, low + 0x100 * t + 0x200 * i);
  }

  lemma FlagSplit(e: U32)
    ensures e == e % 0x100 + 0x100 * Tf(e) + 0x200 * If(e) + 0x400 * (e / 0x400)
  {
    var rest := e / 0x100;
    assert e == 0x100 * rest + e % 0x100;
    assert e / 0x200 == rest / 2 && e / 0x400 == rest / 4;
    assert rest == rest % 2 + 2 * (rest / 2 % 2) + 4 * (rest / 4);
  }

  /** A handler starts with TF clear, one for an exception or a hardware interrupt
      with IF clear too; every other bit is the interrupted program's. */
  lemma HandlerFlags(e: U32)
    ensures Tf(ClearTf(e)) == 0 && If(ClearTf(e)) == If(e)
    ensures Tf(ClearTfIf(e)) == 0 && If(ClearTfIf(e)) == 0
    ensures ClearTfIf(e) % 0x100 == ClearTf(e) % 0x100 == e % 0x100
    ensures ClearTfIf(e) / 0x400 == ClearTf(e) / 0x400 == e / 0x400
  {
    var low, high := e % 0x100, e / 0x400;
    FlagSplit(e);
    FlagParts(low, 0, If(e), high);
    FlagParts(low, 0, 0, high);
  }

  /** The stack pointer after pushing n bytes: on a stack with B clear only its
      low half moves. */
  function Drop(esp: U32, n: nat, big: bool): U32
    requires n <= 32
  {
    if big then (if esp >= n then esp - n else esp + WORD32 - n)
    else
      var sp := esp % 0x1_0000;
      esp - sp + if sp >= n then sp - n else sp + 0x1_0000 - n
  }

  /** The stack pointer after popping n bytes. */
  function Raise(esp: U32, n: nat, big: bool): U32
    requires n <= 32
  {
    if big then (if esp + n < WORD32 then esp + n else esp + n - WORD32)
    else
      var sp := esp % 0x1_0000;
      esp - sp + if sp + n < 0x1_0000 then sp + n else sp + n - 0x1_0000
  }

  function Offset(esp: U32, big: bool): U32 { if big then esp else esp % 0x1_0000 }

  lemma DropRaise(esp: U32, n: nat, big: bool)
    requires n <= 32
    ensures Raise(Drop(esp, n, big), n, big) == esp
  {
  }

  /** Pushing and popping n bytes subtracts and adds n in 32 bits on a stack with B set;
      with B clear it does so in the low 16 bits and leaves the high ones alone. */
  lemma StackMoves(esp: U32, n: nat, big: bool)
    requires n <= 32
    ensures big ==> Drop(esp, n, big) == (esp - n) % WORD32 && Raise(esp, n, big) == (esp + n) % WORD32
    ensures !big ==>
              && Drop(esp, n, big) % 0x1_0000 == (esp - n) % 0x1_0000
              && Raise(esp, n, big) % 0x1_0000 == (esp + n) % 0x1_0000
              && Drop(esp, n, big) / 0x1_0000 == Raise(esp, n, big) / 0x1_0000 == esp / 0x1_0000
    ensures Offset(esp, big) == if big then esp else esp % 0x1_0000
  {
    var sp, high := esp % 0x1_0000, esp / 0x1_0000;
    assert esp == 0x1_0000 * high + sp;
    DivModUnique(Drop(esp, n, false), 0x1_0000, high, if sp >= n then sp - n else sp + 0x1_0000 - n);
    DivModUnique(Raise(esp, n, false), 0x1_0000, high, if sp + n < 0x1_0000 then sp + n else sp + n - 0x1_0000);
  }

  // ------------------------------------------------------------------
  // State
  // ------------------------------------------------------------------

  /** The record of the exception being handled. */
  datatype Save = Save(active: bool, is32: bool, frameBase: nat, eip: U32, cs: U32, eflags: U32, esp: U32, ss: U32)

  datatype State = State(is32: bool, retSel: U32, dataSel: U32, ldt: seq<Desc>, regs: Regs, mem: seq<Byte>, save: Save)
  {
    predicate Wf() {
      |mem| == WORD32 && |ldt| == LDT_ENTRIES && regs.ss % 0x1_0000 / 8 < LDT_ENTRIES && retSel < 0x1_0000
    }

    /** The descriptor SS selects. */
    function Stack(): Desc
      requires Wf()
    {
      ldt[regs.ss % 0x1_0000 / 8]
    }

    /** Where a frame of n bytes goes. */
    function FrameAt(n: nat): nat
      requires Wf() && n <= 32
    {
      Stack().base + Offset(Drop(regs.esp, n, Stack().big), Stack().big)
    }

    /** The frame lies inside linear memory. */
    predicate Room(n: nat)
      requires Wf() && n <= 32
    {
      FrameAt(n) + n <= WORD32
    }
  }

  function ExcSize(is32: bool): nat { if is32 then 32 else 16 }
  function IntSize(is32: bool): nat { if is32 then 12 else 6 }

  /** The frame of an exception behind its return address and error code. */
  predicate HoldsExc(m: seq<Byte>, a: nat, is32: bool, r: Regs) {
    a + ExcSize(is32) <= |m| &&
    if is32 then
      Load32(m, a + 12) == r.eip && Load32(m, a + 16) == r.cs && Load32(m, a + 20) == r.eflags
      && Load32(m, a + 24) == r.esp && Load32(m, a + 28) == r.ss
    else
      Load16(m, a + 6) == r.eip % 0x1_0000 && Load16(m, a + 8) == r.cs % 0x1_0000
      && Load16(m, a + 10) == r.eflags % 0x1_0000
      && Load16(m, a + 12) == r.esp % 0x1_0000 && Load16(m, a + 14) == r.ss % 0x1_0000
  }

  predicate HoldsInt(m: seq<Byte>, a: nat, is32: bool, r: Regs) {
    a + IntSize(is32) <= |m| &&
    if is32 then
      Load32(m, a) == r.eip && Load32(m, a + 4) == r.cs && Load32(m, a + 8) == r.eflags
    else
      && Load16(m, a) == r.eip % 0x1_0000 && Load16(m, a + 2) == r.cs % 0x1_0000
      && Load16(m, a + 4) == r.eflags % 0x1_0000
  }

  // ------------------------------------------------------------------
  // What the host and the processor do
  // ------------------------------------------------------------------

  /** An exception delivered to the client's handler. */
  predicate ExcDelivered(s: State, v: Vector, err: U32, s': State)
    requires s.Wf() && s.Room(ExcSize(s.is32))
  {
    var n, a := ExcSize(s.is32), s.FrameAt(ExcSize(s.is32));
    && SameOutside(s.mem, s'.mem, a, a + n)
    && HoldsExc(s'.mem, a, s.is32, s.regs)
    && (if s.is32 then Load32(s'.mem, a) == 0 && Load32(s'.mem, a + 4) == s.retSel && Load32(s'.mem, a + 8) == err
        else Load16(s'.mem, a) == 0 && Load16(s'.mem, a + 2) == s.retSel && Load16(s'.mem, a + 4) == err % 0x1_0000)
    && s' == s.(mem := s'.mem,
                regs := Regs(v.offset, v.selector, ClearTfIf(s.regs.eflags), Drop(s.regs.esp, n, s.Stack().big),
                             s.regs.ss, s.dataSel, s.dataSel),
                save := Save(true, s.is32, a, s.regs.eip, s.regs.cs, s.regs.eflags, s.regs.esp, s.regs.ss))
  }

  /** A hardware (`irq`) or software interrupt delivered to the client's handler. */
  predicate IntDelivered(s: State, v: Vector, irq: bool, s': State)
    requires s.Wf() && s.Room(IntSize(s.is32))
  {
    var n, a := IntSize(s.is32), s.FrameAt(IntSize(s.is32));
    && SameOutside(s.mem, s'.mem, a, a + n)
    && HoldsInt(s'.mem, a, s.is32, s.regs)
    && s' == s.(mem := s'.mem,
                regs := s.regs.(eip := v.offset, cs := v.selector, esp := Drop(s.regs.esp, n, s.Stack().big),
                                eflags := if irq then ClearTfIf(s.regs.eflags) else ClearTf(s.regs.eflags)))
  }

  /** Doubleword k of the stack a handler starts with, or word k of a 16-bit client's. */
  function StackSlot(s: State, k: nat): nat
    requires s.Wf() && k < 8
  {
    var d := s.ldt[s.regs.ss % 0x1_0000 / 8];
    d.base + (if d.big then s.regs.esp else s.regs.esp % 0x1_0000) + if s.is32 then 4 * k else 2 * k
  }

  predicate SlotHolds(s: State, k: nat, v: U32)
    requires s.Wf() && k < 8
  {
    if s.is32 then StackSlot(s, k) + 4 <= WORD32 && Load32(s.mem, StackSlot(s, k)) == v
    else StackSlot(s, k) + 2 <= WORD32 && Load16(s.mem, StackSlot(s, k)) == v % 0x1_0000
  }

  lemma SlotAtFrame(s: State, n: nat, s': State, k: nat)
    requires s.Wf() && n <= 32 && k < 8 && s'.is32 == s.is32 && s'.ldt == s.ldt && |s'.mem| == |s.mem|
    requires s'.regs.ss == s.regs.ss && s'.regs.esp == Drop(s.regs.esp, n, s.Stack().big) && s'.retSel == s.retSel
    ensures s'.Wf() && StackSlot(s', k) == s.FrameAt(n) + if s.is32 then 4 * k else 2 * k
  {
  }

  /** What is in slot k of an exception frame. */
  function ExcSlot(r: Regs, retSel: U32, err: U32, k: nat): U32 {
    if k == 0 then 0 else if k == 1 then retSel else if k == 2 then err
    else if k == 3 then r.eip else if k == 4 then r.cs else if k == 5 then r.eflags
    else if k == 6 then r.esp else r.ss
  }

  lemma ExcFrame32(m: seq<Byte>, a: nat, r: Regs, retSel: U32, err: U32, k: nat)
    requires HoldsExc(m, a, true, r) && k < 8
    requires Load32(m, a) == 0 && Load32(m, a + 4) == retSel && Load32(m, a + 8) == err
    ensures a + 4 * k + 4 <= |m| && Load32(m, a + 4 * k) == ExcSlot(r, retSel, err, k)
  {
  }

  lemma ExcFrame16(m: seq<Byte>, a: nat, r: Regs, retSel: U32, err: U32, k: nat)
    requires HoldsExc(m, a, false, r) && k < 8 && retSel < 0x1_0000
    requires Load16(m, a) == 0 && Load16(m, a + 2) == retSel && Load16(m, a + 4) == err % 0x1_0000
    ensures a + 2 * k + 2 <= |m| && Load16(m, a + 2 * k) == ExcSlot(r, retSel, err, k) % 0x1_0000
  {
  }

  /** What an exception handler finds on its stack: a far return address to the host,
      the error code, then EIP, CS, EFLAGS, ESP and SS of the interrupted program. */
  lemma HandlerSees(s: State, v: Vector, err: U32, s': State, k: nat)
    requires s.Wf() && s.Room(ExcSize(s.is32)) && ExcDelivered(s, v, err, s') && k < 8
    ensures s'.Wf() && s'.is32 == s.is32
    ensures SlotHolds(s', k, ExcSlot(s.regs, s.retSel, err, k))
    ensures s'.regs.eip == v.offset && s'.regs.cs == v.selector && s'.regs.ss == s.regs.ss
    ensures s'.regs.ds == s'.regs.es == s.dataSel
  {
    SlotAtFrame(s, ExcSize(s.is32), s', k);
    if s.is32 {
      ExcFrame32(s'.mem, s.FrameAt(32), s.regs, s.retSel, err, k);
    } else {
      ExcFrame16(s'.mem, s.FrameAt(16), s.regs, s.retSel, err, k);
    }
  }

  /** An interrupt handler finds EIP, CS and EFLAGS. */
  lemma InterruptSees(s: State, v: Vector, irq: bool, s': State, k: nat)
    requires s.Wf() && s.Room(IntSize(s.is32)) && IntDelivered(s, v, irq, s') && k < 3
    ensures s'.Wf() && s'.is32 == s.is32
    ensures SlotHolds(s', k, if k == 0 then s.regs.eip else if k == 1 then s.regs.cs else s.regs.eflags)
    ensures s'.regs.eip == v.offset && s'.regs.cs == v.selector && s'.regs.ss == s.regs.ss
    ensures s'.regs.ds == s.regs.ds && s'.regs.es == s.regs.es
  {
    SlotAtFrame(s, IntSize(s.is32), s', k);
  }

  /** High half of x, low half of y. */
  function Mix(x: U32, y: U32): U32 { x - x % 0x1_0000 + y % 0x1_0000 }

  /** Where INT F3h looks for the frame: where the host recorded it or, without a
      record, at the stack pointer, taken to be the error code of a 32-bit frame. */
  function ReturnFrame(s: State): int
    requires s.Wf()
  {
    if s.save.active then s.save.frameBase else s.Stack().base + s.regs.esp - 8
  }

  function ReturnWidth(s: State): bool { if s.save.active then s.save.is32 else true }

  predicate CanReturn(s: State)
    requires s.Wf()
  {
    0 <= ReturnFrame(s) && ReturnFrame(s) + ExcSize(ReturnWidth(s)) <= WORD32
  }

  /** The registers INT F3h resumes with. */
  function Resumed(s: State): Regs
    requires s.Wf() && CanReturn(s)
  {
    var a, m, r := ReturnFrame(s), s.mem, s.regs;
    if ReturnWidth(s) then
      r.(eip := Load32(m, a + 12), cs := Load32(m, a + 16), eflags := Load32(m, a + 20),
         esp := Load32(m, a + 24), ss := Load32(m, a + 28))
    else
      r.(eip := Mix(r.eip, Load16(m, a + 6)), cs := Mix(r.cs, Load16(m, a + 8)),
         eflags := Mix(r.eflags, Load16(m, a + 10)), esp := s.save.esp, ss := s.save.ss)
  }

  function SavedCs(s: State): U32
    requires s.Wf() && CanReturn(s)
  {
    if ReturnWidth(s) then Load32(s.mem, ReturnFrame(s) + 16) else Load16(s.mem, ReturnFrame(s) + 8)
  }

  /** CS as found in the frame is an LDT selector in use. */
  predicate GoodCs(s: State, cs: U32)
    requires s.Wf()
  {
    cs / 4 % 2 == 1 && cs / 8 < LDT_ENTRIES && s.ldt[cs / 8].used
  }

  /** IRET by the handler, of the client's width. A stack with B clear is popped
      with a 16-bit stack pointer, slot by slot. */
  function SlotAt(s: State, k: nat): nat
    requires s.Wf() && k <= 32
  {
    s.Stack().base + Offset(Raise(s.regs.esp, k, s.Stack().big), s.Stack().big)
  }

  predicate CanIret(s: State)
    requires s.Wf()
  {
    if s.is32 then SlotAt(s, 0) + 4 <= WORD32 && SlotAt(s, 4) + 4 <= WORD32 && SlotAt(s, 8) + 4 <= WORD32
    else SlotAt(s, 0) + 2 <= WORD32 && SlotAt(s, 2) + 2 <= WORD32 && SlotAt(s, 4) + 2 <= WORD32
  }

  function Irets(s: State): Regs
    requires s.Wf() && CanIret(s)
  {
    var r, m := s.regs, s.mem;
    if s.is32 then
      r.(eip := Load32(m, SlotAt(s, 0)), cs := Load32(m, SlotAt(s, 4)) % 0x1_0000, eflags := Load32(m, SlotAt(s, 8)),
         esp := Raise(r.esp, 12, s.Stack().big))
    else
      r.(eip := Load16(m, SlotAt(s, 0)), cs := Load16(m, SlotAt(s, 2)),
          eflags := Mix(r.eflags, Load16(m, SlotAt(s, 4))),
         esp := Raise(r.esp, 6, s.Stack().big))
  }

  // ------------------------------------------------------------------
  // Runs
  // ------------------------------------------------------------------

  /** A delivery not yet returned from: its frame, the registers interrupted, and
      the stack segment and pointer the handler started with. */
  datatype Entry = Entry(exc: bool, addr: nat, regs: Regs, stack: Desc, esp: U32)

  function SizeOf(e: Entry, is32: bool): nat { if e.exc then ExcSize(is32) else IntSize(is32) }

  datatype Sys = Sys(s: State, pending: seq<Entry>)

  /** Index of the innermost pending exception, or -1. */
  function LastExc(p: seq<Entry>): (i: int)
    ensures -1 <= i < |p| && (i >= 0 ==> p[i].exc)
    ensures forall j | i < j < |p| :: !p[j].exc
  {
    if p == [] then -1 else if p[|p| - 1].exc then |p| - 1 else LastExc(p[..|p| - 1])
  }

  predicate Holds(m: seq<Byte>, is32: bool, e: Entry) {
    if e.exc then HoldsExc(m, e.addr, is32, e.regs) else HoldsInt(m, e.addr, is32, e.regs)
  }

  /** A frame is in memory, an interrupt frame where the handler's stack pointer
      says. */
  predicate Placed(is32: bool, e: Entry) {
    var n := IntSize(is32);
    && e.addr + SizeOf(e, is32) <= WORD32
    && (e.exc || (&& e.esp == Drop(e.regs.esp, n, e.stack.big)
                  && e.addr == e.stack.base + Offset(e.esp, e.stack.big)
                  && Whole(e.regs.esp, n, e.stack.big)))
  }

  /** A record kept by the host is that of the innermost pending exception. */
  predicate Inv(y: Sys) {
    && y.s.Wf()
    && (forall i | 0 <= i < |y.pending| :: Placed(y.s.is32, y.pending[i]))
    && (y.s.save.active ==>
          var i := LastExc(y.pending);
          i >= 0 && y.s.save.frameBase == y.pending[i].addr && y.s.save.is32 == y.s.is32
          && y.s.save.esp == y.pending[i].regs.esp && y.s.save.ss == y.pending[i].regs.ss)
  }

  /** A frame of n bytes pushed at esp does not wrap around the segment. */
  predicate Whole(esp: U32, n: nat, big: bool) {
    big || esp % 0x1_0000 == 0 || esp % 0x1_0000 >= n
  }

  predicate Delivery(y: Sys, y': Sys, exc: bool) {
    y.s.Wf() && y'.s.Wf() &&
    var n := if exc then ExcSize(y.s.is32) else IntSize(y.s.is32);
    && y.s.Room(n)
    && (exc || Whole(y.s.regs.esp, n, y.s.Stack().big))
    && y'.pending == y.pending + [Entry(exc, y.s.FrameAt(n), y.s.regs, y.s.Stack(), y'.s.regs.esp)]
  }

  /** What the client does between deliveries and returns: anything to its
      registers, its descriptors and its memory, pending frames included. */
  predicate ClientStep(y: Sys, y': Sys) {
    y' == y.(s := y.s.(regs := y'.s.regs, ldt := y'.s.ldt, mem := y'.s.mem))
  }

  /** One step: a delivery; the client's own work; a return by INT F3h, with ESP at
      the frame when the host keeps no record; or an IRET with the stack pointer as
      the handler found it. */
  ghost predicate Step(y: Sys, y': Sys) {
    y.s.Wf() && y'.s.Wf() &&
    (|| (Delivery(y, y', true) && exists v, err :: ExcDelivered(y.s, v, err, y'.s))
     || (Delivery(y, y', false) && exists v, irq :: IntDelivered(y.s, v, irq, y'.s))
     || ClientStep(y, y')
     || (ExcReturn(y) && y'.pending == y.pending[..|y.pending| - 1]
         && y'.s == y.s.(regs := Resumed(y.s), save := y.s.save.(active := false)))
     || (IntReturn(y) && y'.pending == y.pending[..|y.pending| - 1]
         && y'.s == y.s.(regs := Irets(y.s))))
  }

  predicate ExcReturn(y: Sys) {
    y.s.Wf() && y.pending != [] &&
    var e := y.pending[|y.pending| - 1];
    && e.exc && CanReturn(y.s) && GoodCs(y.s, SavedCs(y.s))
    && (y.s.save.active || (y.s.is32 && y.s.Stack().base + y.s.regs.esp == e.addr + 8))
  }

  predicate IntReturn(y: Sys) {
    y.s.Wf() && y.pending != [] &&
    var e := y.pending[|y.pending| - 1];
    && !e.exc && CanIret(y.s)
    && y.s.regs.ss == e.regs.ss && y.s.Stack() == e.stack && y.s.regs.esp == e.esp
  }

  /** What the frame of a delivery holds, as a return that starts with registers r
      takes it: a 16-bit one keeps the high halves it finds, and only a 32-bit
      exception frame decides ESP and SS. */
  function FrameContext(m: seq<Byte>, is32: bool, e: Entry, r: Regs): Regs
    requires e.addr + SizeOf(e, is32) <= |m|
  {
    var a := e.addr;
    if e.exc && is32 then
      r.(eip := Load32(m, a + 12), cs := Load32(m, a + 16), eflags := Load32(m, a + 20),
         esp := Load32(m, a + 24), ss := Load32(m, a + 28))
    else if e.exc then
      r.(eip := Mix(r.eip, Load16(m, a + 6)), cs := Mix(r.cs, Load16(m, a + 8)),
         eflags := Mix(r.eflags, Load16(m, a + 10)), esp := e.regs.esp, ss := e.regs.ss)
    else if is32 then
      r.(eip := Load32(m, a), cs := Load32(m, a + 4) % 0x1_0000, eflags := Load32(m, a + 8),
         esp := e.regs.esp, ss := e.regs.ss)
    else
      r.(eip := Load16(m, a), cs := Load16(m, a + 2), eflags := Mix(r.eflags, Load16(m, a + 4)),
         esp := e.regs.esp, ss := e.regs.ss)
  }

  /** INT F3h reads the frame of the innermost pending exception, recorded or not,
      whatever its handler has written there. */
  lemma ExcReturnReadsOwnFrame(y: Sys)
    requires Inv(y) && ExcReturn(y)
    ensures var e := y.pending[|y.pending| - 1];
            ReturnFrame(y.s) == e.addr && Resumed(y.s) == FrameContext(y.s.mem, y.s.is32, e, y.s.regs)
  {
    assert LastExc(y.pending) == |y.pending| - 1;
    assert Placed(y.s.is32, y.pending[|y.pending| - 1]);
  }

  /** Slot k of a frame is popped from where it was pushed. */
  lemma SlotExact(esp: U32, base: nat, n: nat, k: nat, big: bool)
    requires k < n <= 32 && Whole(esp, n, big) && base + Offset(Drop(esp, n, big), big) + n <= WORD32
    ensures Offset(Raise(Drop(esp, n, big), k, big), big) == Offset(Drop(esp, n, big), big) + k
  {
    if !big {
      var sp, high := esp % 0x1_0000, esp / 0x1_0000;
      var sp' := if sp >= n then sp - n else sp + 0x1_0000 - n;
      assert esp == high * 0x1_0000 + sp;
      assert Drop(esp, n, big) == high * 0x1_0000 + sp';
      assert Drop(esp, n, big) % 0x1_0000 == sp';
      assert Raise(Drop(esp, n, big), k, big) == high * 0x1_0000 + sp' + k;
      assert Raise(Drop(esp, n, big), k, big) % 0x1_0000 == sp' + k;
    }
  }

  /** On a stack with B clear the processor pops the last byte of a frame from
      where the host pushed it exactly when the frame does not wrap. */
  lemma NoWrapIff(esp: U32, n: nat)
    requires 1 <= n <= 32
    ensures Offset(Raise(Drop(esp, n, false), n - 1, false), false) == Offset(Drop(esp, n, false), false) + (n - 1)
            <==> Whole(esp, n, false)
  {
  }

  lemma IretSlots(y: Sys)
    requires Inv(y) && IntReturn(y)
    ensures var e := y.pending[|y.pending| - 1];
            && SlotAt(y.s, 0) == e.addr && SlotAt(y.s, 2) == e.addr + 2 && SlotAt(y.s, 4) == e.addr + 4
            && (y.s.is32 ==> SlotAt(y.s, 8) == e.addr + 8)
  {
    var e := y.pending[|y.pending| - 1];
    var n := IntSize(y.s.is32);
    assert Placed(y.s.is32, e);
    SlotExact(e.regs.esp, e.stack.base, n, 0, e.stack.big);
    SlotExact(e.regs.esp, e.stack.base, n, 2, e.stack.big);
    SlotExact(e.regs.esp, e.stack.base, n, 4, e.stack.big);
    if y.s.is32 {
      SlotExact(e.regs.esp, e.stack.base, n, 8, e.stack.big);
    }
  }

  /** IRET reads the frame of the innermost interrupt. */
  lemma IntReturnReadsOwnFrame(y: Sys)
    requires Inv(y) && IntReturn(y)
    ensures Irets(y.s) == FrameContext(y.s.mem, y.s.is32, y.pending[|y.pending| - 1], y.s.regs)
  {
    var e := y.pending[|y.pending| - 1];
    IretSlots(y);
    assert Placed(y.s.is32, e);
    DropRaise(e.regs.esp, IntSize(y.s.is32), e.stack.big);
  }

  /** Same place, flags and stack. */
  predicate SameContext(r: Regs, e: Regs) {
    r.eip == e.eip && r.cs == e.cs && r.eflags == e.eflags && r.esp == e.esp && r.ss == e.ss
  }

  /** The interrupted registers fit the frame: a 32-bit exception frame takes all of
      them; otherwise CS, and in a 16-bit interrupt frame EIP, are below 64K, and
      a 16-bit return finds the other high halves as they were. */
  predicate Fits(is32: bool, e: Entry, r: Regs) {
    if e.exc then
      is32 || (r.eip / 0x1_0000 == e.regs.eip / 0x1_0000 && r.cs / 0x1_0000 == e.regs.cs / 0x1_0000
               && r.eflags / 0x1_0000 == e.regs.eflags / 0x1_0000)
    else
      e.regs.cs < 0x1_0000
      && (is32 || (e.regs.eip < 0x1_0000 && r.eflags / 0x1_0000 == e.regs.eflags / 0x1_0000))
  }

  lemma MixIff(x: U32, y: U32)
    ensures Mix(x, y % 0x1_0000) == y <==> x / 0x1_0000 == y / 0x1_0000
  {
  }

  /** An untouched frame gives back what was interrupted exactly when that fits. */
  lemma UntouchedRestoresIff(m: seq<Byte>, is32: bool, e: Entry, r: Regs)
    requires Holds(m, is32, e)
    ensures SameContext(FrameContext(m, is32, e, r), e.regs) <==> Fits(is32, e, r)
  {
    MixIff(r.eip, e.regs.eip);
    MixIff(r.cs, e.regs.cs);
    MixIff(r.eflags, e.regs.eflags);
  }

  lemma LastExcPush(p: seq<Entry>, e: Entry)
    ensures LastExc(p + [e]) == if e.exc then |p| else LastExc(p)
  {
  }

  lemma ExcKeepsInv(y: Sys, y': Sys, v: Vector, err: U32)
    requires Inv(y) && Delivery(y, y', true) && ExcDelivered(y.s, v, err, y'.s)
    ensures Inv(y')
  {
    LastExcPush(y.pending, y'.pending[|y.pending|]);
  }

  lemma IntKeepsInv(y: Sys, y': Sys, v: Vector, irq: bool)
    requires Inv(y) && Delivery(y, y', false) && IntDelivered(y.s, v, irq, y'.s)
    ensures Inv(y')
  {
    LastExcPush(y.pending, y'.pending[|y.pending|]);
  }

  lemma PopKeepsInv(y: Sys, y': Sys)
    requires Inv(y) && y'.s.Wf() && y.pending != [] && y'.pending == y.pending[..|y.pending| - 1]
    requires y'.s == y.s.(regs := y'.s.regs, save := y'.s.save)
    requires y'.s.save == if y.pending[|y.pending| - 1].exc then y.s.save.(active := false) else y.s.save
    ensures Inv(y')
  {
  }

  /** Every step keeps the invariant. */
  lemma StepKeepsInv(y: Sys, y': Sys)
    requires Inv(y) && Step(y, y')
    ensures Inv(y')
  {
    if v, err :| Delivery(y, y', true) && ExcDelivered(y.s, v, err, y'.s) {
      ExcKeepsInv(y, y', v, err);
    } else if v, irq :| Delivery(y, y', false) && IntDelivered(y.s, v, irq, y'.s) {
      IntKeepsInv(y, y', v, irq);
    } else if !ClientStep(y, y') {
      PopKeepsInv(y, y');
    }
  }

  ghost predicate Trace(t: seq<Sys>) {
    t != [] && forall i {:trigger Linked(t, i)} | 0 <= i < |t| - 1 :: Linked(t, i)
  }

  ghost predicate Linked(t: seq<Sys>, i: nat)
    requires i + 1 < |t|
  {
    Step(t[i], t[i + 1])
  }

  lemma {:induction false} TraceInv(t: seq<Sys>, i: nat)
    requires Trace(t) && Inv(t[0]) && i < |t|
    ensures Inv(t[i])
    decreases i
  {
    if i > 0 {
      TraceInv(t, i - 1);
      assert Linked(t, i - 1);
      StepKeepsInv(t[i - 1], t[i]);
    }
  }

  lemma StepPending(y: Sys, y': Sys)
    requires Step(y, y')
    ensures var p, p' := y.pending, y'.pending;
            y'.s.is32 == y.s.is32 && (p' == p || (p != [] && p' == p[..|p| - 1]) || (|p'| == |p| + 1 && p'[..|p|] == p))
  {
  }

  /** While more than n deliveries are pending the first n + 1 stay the same. */
  lemma {:induction false} PendingStays(t: seq<Sys>, i: nat, k: nat, n: nat)
    requires Trace(t) && i <= k < |t| && forall x | i <= x <= k :: |t[x].pending| > n
    ensures t[k].pending[..n + 1] == t[i].pending[..n + 1] && t[k].s.is32 == t[i].s.is32
    decreases k
  {
    if i < k {
      PendingStays(t, i, k - 1, n);
      assert Linked(t, k - 1);
      StepPending(t[k - 1], t[k]);
      var p, p' := t[k - 1].pending, t[k].pending;
      assert p'[..n + 1] == p[..n + 1];
    }
  }

  /** The step that ends a delivery takes what the frame of that delivery holds. */
  lemma PopReadsOwnFrame(y: Sys, y': Sys)
    requires Inv(y) && Step(y, y') && |y'.pending| < |y.pending|
    ensures var last := |y.pending| - 1;
            && y'.pending == y.pending[..last] && Placed(y.s.is32, y.pending[last]) && y'.s.Wf()
            && y'.s == y.s.(save := y'.s.save, regs := FrameContext(y.s.mem, y.s.is32, y.pending[last], y.s.regs))
  {
    assert Placed(y.s.is32, y.pending[|y.pending| - 1]);
    if ExcReturn(y) {
      ExcReturnReadsOwnFrame(y);
    } else {
      IntReturnReadsOwnFrame(y);
    }
  }

  /** The step from t[i] is a delivery, and t[j] is the first state after it with as
      few pending as before. */
  ghost predicate Matched(t: seq<Sys>, i: nat, j: nat) {
    && Trace(t) && Inv(t[0]) && i + 1 < j < |t| && |t[j].pending| == |t[i].pending|
    && forall k | i < k < j :: |t[k].pending| > |t[i].pending|
  }

  /** A delivery of a run, its frame where the stack was and its registers those
      interrupted, stays pending unchanged to its return. */
  lemma StaysPending(t: seq<Sys>, i: nat, k: nat, j: nat)
    requires Matched(t, i, j) && i < k < j
    ensures var n, y := |t[i].pending|, t[k];
            && Inv(t[i]) && Inv(y) && y.pending[..n] == t[i].pending && y.s.is32 == t[i].s.is32
            && y.pending[n].regs == t[i].s.regs && Placed(y.s.is32, y.pending[n])
            && y.pending[n].addr == t[i].s.FrameAt(SizeOf(y.pending[n], y.s.is32))
            && y.pending[n] == t[i + 1].pending[n]
  {
    var n := |t[i].pending|;
    TraceInv(t, i);
    TraceInv(t, k);
    PendingStays(t, i + 1, k, n);
    assert Linked(t, i);
    StepPending(t[i], t[i + 1]);
    assert t[i + 1].pending[..n + 1][..n] == t[i].pending;
    assert t[k].pending[n] == t[k].pending[..n + 1][n];
  }

  /** Deliveries nest to any depth and in any mixture, and handlers may write any
      memory, their own frames included: in every run a return takes what the frame
      of its own delivery holds at that moment, at the address where that delivery
      put it, and leaves the outer deliveries pending. */
  lemma ReturnsReadOwnFrame(t: seq<Sys>, i: nat, j: nat)
    requires Matched(t, i, j)
    ensures var n, y := |t[i].pending|, t[j - 1];
            && |y.pending| == n + 1 && y.pending[n].regs == t[i].s.regs && Inv(t[i]) && Placed(y.s.is32, y.pending[n])
            && y.pending[n].addr == t[i].s.FrameAt(SizeOf(y.pending[n], y.s.is32))
            && y.s.Wf() && t[j].s.regs == FrameContext(y.s.mem, y.s.is32, y.pending[n], y.s.regs)
            && t[j].pending == t[i].pending
  {
    StaysPending(t, i, j - 1, j);
    assert Linked(t, j - 1);
    StepPending(t[j - 1], t[j]);
    PopReadsOwnFrame(t[j - 1], t[j]);
  }

  /** The step does not write the frame of delivery n: the client leaves it alone, and
      a new frame does not meet it. */
  predicate Spares(y: Sys, y': Sys, n: nat)
    requires n < |y.pending|
  {
    var lo, hi := y.pending[n].addr, y.pending[n].addr + SizeOf(y.pending[n], y.s.is32);
    && (ClientStep(y, y') ==> SameInside(y.s.mem, y'.s.mem, lo, hi))
    && (|y'.pending| > |y.pending| ==>
          var f := y'.pending[|y.pending|];
          f.addr + SizeOf(f, y.s.is32) <= lo || hi <= f.addr)
  }

  lemma HoldsSame(m: seq<Byte>, m': seq<Byte>, is32: bool, e: Entry)
    requires Holds(m, is32, e) && SameInside(m, m', e.addr, e.addr + SizeOf(e, is32))
    ensures Holds(m', is32, e)
  {
  }

  lemma SparedSame(y: Sys, y': Sys, n: nat)
    requires Inv(y) && Step(y, y') && n < |y.pending| && Spares(y, y', n)
    ensures SameInside(y.s.mem, y'.s.mem, y.pending[n].addr, y.pending[n].addr + SizeOf(y.pending[n], y.s.is32))
  {
    assert Placed(y.s.is32, y.pending[n]);
  }

  lemma DeliveredHolds(y: Sys, y': Sys)
    requires Step(y, y') && |y'.pending| == |y.pending| + 1
    ensures Holds(y'.s.mem, y.s.is32, y'.pending[|y.pending|])
  {
  }

  lemma FirstHolds(t: seq<Sys>, i: nat, j: nat)
    requires Matched(t, i, j)
    ensures Holds(t[i + 1].s.mem, t[i].s.is32, t[i + 1].pending[|t[i].pending|])
  {
    assert Linked(t, i);
    StepPending(t[i], t[i + 1]);
    DeliveredHolds(t[i], t[i + 1]);
  }

  lemma NextHolds(t: seq<Sys>, i: nat, k: nat, j: nat)
    requires Matched(t, i, j) && i + 1 < k < j && Spares(t[k - 1], t[k], |t[i].pending|)
    requires Holds(t[k - 1].s.mem, t[i].s.is32, t[i + 1].pending[|t[i].pending|])
    ensures Holds(t[k].s.mem, t[i].s.is32, t[i + 1].pending[|t[i].pending|])
  {
    var n := |t[i].pending|;
    StaysPending(t, i, k - 1, j);
    assert Linked(t, k - 1);
    SparedSame(t[k - 1], t[k], n);
    HoldsSame(t[k - 1].s.mem, t[k].s.mem, t[i].s.is32, t[i + 1].pending[n]);
  }

  lemma {:induction false} SparedUntouched(t: seq<Sys>, i: nat, k: nat, j: nat)
    requires Matched(t, i, j) && i < k < j
    requires forall x | i < x < j - 1 :: Spares(t[x], t[x + 1], |t[i].pending|)
    ensures Holds(t[k].s.mem, t[i].s.is32, t[i + 1].pending[|t[i].pending|])
    decreases k
  {
    if k == i + 1 {
      FirstHolds(t, i, j);
    } else {
      SparedUntouched(t, i, k - 1, j);
      assert Spares(t[k - 1], t[k - 1 + 1], |t[i].pending|);
      NextHolds(t, i, k, j);
    }
  }

  /** If nothing writes a frame while its delivery is pending, the return restores
      the interrupted EIP, CS, EFLAGS, ESP and SS exactly when these fit the frame. */
  lemma ReturnsMatch(t: seq<Sys>, i: nat, j: nat)
    requires Matched(t, i, j)
    requires forall x | i < x < j - 1 :: Spares(t[x], t[x + 1], |t[i].pending|)
    ensures var y := t[j - 1];
            |y.pending| > |t[i].pending| &&
            (SameContext(t[j].s.regs, t[i].s.regs) <==> Fits(y.s.is32, y.pending[|t[i].pending|], y.s.regs))
  {
    ReturnsReadOwnFrame(t, i, j);
    StaysPending(t, i, j - 1, j);
    SparedUntouched(t, i, j - 1, j);
    UntouchedRestoresIff(t[j - 1].s.mem, t[j - 1].s.is32, t[j - 1].pending[|t[i].pending|], t[j - 1].s.regs);
  }

  /** Without a record INT F3h takes ESP for the address of the frame. After a
      far return by the handler that is right exactly when the stack pointer is a
      full 32-bit one or its high half is zero. */
  lemma FallbackFindsFrameIff(stack: Desc, esp: U32)
    requires Offset(esp, stack.big) + 32 <= if stack.big then WORD32 else 0x1_0000
    ensures stack.base + Raise(esp, 8, stack.big) == stack.base + Offset(esp, stack.big) + 8
            <==> stack.big || esp < 0x1_0000
  {
  }

  /** For a 16-bit client the record is the only way back: without it, after an
      exception nested in its handler returned, INT F3h reads the 16-byte frame as
      a 32-byte one and resumes at an EIP made of the interrupted CS and FLAGS. */
  lemma Outer16Misread(y: Sys, e: Entry)
    requires y.s.Wf() && !y.s.is32 && !y.s.save.active && Holds(y.s.mem, false, e) && e.exc && 4 <= e.addr
             && e.addr + 28 <= WORD32
    requires y.s.Stack().base + y.s.regs.esp == e.addr + 4
    ensures CanReturn(y.s)
    ensures Resumed(y.s).eip == e.regs.cs % 0x1_0000 + 0x1_0000 * (e.regs.eflags % 0x1_0000)
    ensures Resumed(y.s).eip == e.regs.eip && e.regs.eip < 0x1_0000 <==>
            e.regs.eflags % 0x1_0000 == 0 && e.regs.cs % 0x1_0000 == e.regs.eip
  {
  }

  // ------------------------------------------------------------------
  // The host
  // ------------------------------------------------------------------

  class Host {
    const mem: array<Byte>
    const ldt: array<Desc>
    const excVectors: array<Vector>
    const vectors: array<Vector>
    var is32: bool
    var retSel: U32
    var dataSel: U32
    var chainSel: U32
    var regs: Regs
    var save: Save

    ghost function Now(): State
      reads this, mem, ldt
    {
      State(is32, retSel, dataSel, ldt[..], regs, mem[..], save)
    }

    ghost predicate Valid()
      reads this, mem, ldt
    {
      Now().Wf() && excVectors.Length == 32 && vectors.Length == 256
    }

    constructor (client32: bool, ret: U32, data: U32, start: Regs)
      requires start.ss % 0x1_0000 / 8 < LDT_ENTRIES && ret < 0x1_0000
      ensures Valid() && fresh(mem) && fresh(ldt) && !save.active && regs == start && is32 == client32
    {
      mem := new Byte[WORD32](_ => 0);
      ldt := new Desc[LDT_ENTRIES](_ => Desc(0, false, false));
      excVectors := new Vector[32](_ => Vector(0, 0));
      vectors := new Vector[256](_ => Vector(0, 0));
      is32, retSel, dataSel, chainSel, regs := client32, ret, data, 0, start;
      save := Save(false, false, 0, 0, 0, 0, 0, 0);
    }

    /** Room for n bytes on the client's stack. */
    method Reserve(n: nat) returns (esp: U32, at: nat)
      requires Valid() && n <= 32
      ensures esp == Drop(regs.esp, n, Now().Stack().big) && at == Now().FrameAt(n)
    {
      var d := ldt[regs.ss % 0x1_0000 / 8];
      esp := Drop(regs.esp, n, d.big);
      at := d.base + Offset(esp, d.big);
    }

    method PushExc32(at: nat, err: U32)
      requires at + 32 <= mem.Length
      modifies mem
      ensures SameOutside(old(mem[..]), mem[..], at, at + 32) && HoldsExc(mem[..], at, true, regs)
      ensures Load32(mem[..], at) == 0 && Load32(mem[..], at + 4) == retSel && Load32(mem[..], at + 8) == err
    {
      Store32(mem, at, 0);
      Store32(mem, at + 4, retSel);
      Store32(mem, at + 8, err);
      Store32(mem, at + 12, regs.eip);
      Store32(mem, at + 16, regs.cs);
      Store32(mem, at + 20, regs.eflags);
      Store32(mem, at + 24, regs.esp);
      Store32(mem, at + 28, regs.ss);
    }

    method PushExc16(at: nat, err: U32)
      requires at + 16 <= mem.Length && retSel < 0x1_0000
      modifies mem
      ensures SameOutside(old(mem[..]), mem[..], at, at + 16) && HoldsExc(mem[..], at, false, regs)
      ensures Load16(mem[..], at) == 0 && Load16(mem[..], at + 2) == retSel && Load16(mem[..], at + 4) == err % 0x1_0000
    {
      Store16(mem, at, 0);
      Store16(mem, at + 2, retSel);
      Store16(mem, at + 4, err % 0x1_0000);
      Store16(mem, at + 6, regs.eip % 0x1_0000);
      Store16(mem, at + 8, regs.cs % 0x1_0000);
      Store16(mem, at + 10, regs.eflags % 0x1_0000);
      Store16(mem, at + 12, regs.esp % 0x1_0000);
      Store16(mem, at + 14, regs.ss % 0x1_0000);
    }

    method PushExc(at: nat, err: U32)
      requires at + ExcSize(is32) <= mem.Length && retSel < 0x1_0000
      modifies mem
      ensures SameOutside(old(mem[..]), mem[..], at, at + ExcSize(is32)) && HoldsExc(mem[..], at, is32, regs)
      ensures if is32 then Load32(mem[..], at) == 0 && Load32(mem[..], at + 4) == retSel
              && Load32(mem[..], at + 8) == err
              else Load16(mem[..], at) == 0 && Load16(mem[..], at + 2) == retSel
                   && Load16(mem[..], at + 4) == err % 0x1_0000
    {
      if is32 {
        PushExc32(at, err);
      } else {
        PushExc16(at, err);
      }
    }

    /** Redirect an exception to the client's handler, if it has one. */
    method DeliverException(exc: nat, err: U32) returns (delivered: bool)
      requires Valid() && Now().Room(ExcSize(is32))
      modifies this, mem
      ensures delivered <==> exc < 32 && excVectors[exc].selector != 0
      ensures !delivered ==> Now() == old(Now())
      ensures delivered ==> ExcDelivered(old(Now()), excVectors[exc], err, Now())
    {
      if exc >= 32 || excVectors[exc].selector == 0 {
        return false;
      }
      var esp, at := Reserve(if is32 then 32 else 16);
      save := Save(true, is32, at, regs.eip, regs.cs, regs.eflags, regs.esp, regs.ss);
      PushExc(at, err);
      regs := regs.(esp := esp);
      regs := regs.(eip := excVectors[exc].offset, cs := excVectors[exc].selector);
      regs := regs.(ds := dataSel, es := dataSel);
      regs := regs.(eflags := ClearTfIf(regs.eflags));
      delivered := true;
    }

    method PushInt(at: nat)
      requires at + IntSize(is32) <= mem.Length
      modifies mem
      ensures SameOutside(old(mem[..]), mem[..], at, at + IntSize(is32)) && HoldsInt(mem[..], at, is32, regs)
    {
      if is32 {
        Store32(mem, at, regs.eip);
        Store32(mem, at + 4, regs.cs);
        Store32(mem, at + 8, regs.eflags);
      } else {
        Store16(mem, at, regs.eip % 0x1_0000);
        Store16(mem, at + 2, regs.cs % 0x1_0000);
        Store16(mem, at + 4, regs.eflags % 0x1_0000);
      }
    }

    /** A hardware interrupt goes to the client's handler in every case. */
    method DeliverIrq(v: nat)
      requires Valid() && Now().Room(IntSize(is32)) && v < 256
      modifies this, mem
      ensures IntDelivered(old(Now()), vectors[v], true, Now())
    {
      var esp, at := Reserve(if is32 then 12 else 6);
      PushInt(at);
      regs := regs.(esp := esp, eip := vectors[v].offset, cs := vectors[v].selector);
      regs := regs.(eflags := ClearTfIf(regs.eflags));
    }

    /** INT 21h goes to the client's own handler unless the host's chain stub
        issued it. */
    method DeliverInt21() returns (delivered: bool)
      requires Valid() && Now().Room(IntSize(is32))
      modifies this, mem
      ensures var h := vectors[0x21].selector;
              delivered <==> h != 0 && h != old(chainSel) && old(regs.cs) % 0x1_0000 != old(chainSel)
      ensures if delivered then IntDelivered(old(Now()), vectors[0x21], false, Now()) else Now() == old(Now())
    {
      var h := vectors[0x21].selector;
      if h != 0 && h != chainSel && regs.cs % 0x1_0000 != chainSel {
        DeliverSoft(0x21);
        return true;
      }
      delivered := false;
    }

    /** Any other software interrupt goes to the client's handler unless that has
        offset 0; the chain stub may. */
    method DeliverInt(v: nat) returns (delivered: bool)
      requires Valid() && Now().Room(IntSize(is32)) && v < 256
      modifies this, mem
      ensures var h := vectors[v];
              delivered <==> h.selector != 0 && (h.offset != 0 || h.selector == old(chainSel))
      ensures if delivered then IntDelivered(old(Now()), vectors[v], false, Now()) else Now() == old(Now())
    {
      var h := vectors[v];
      if h.selector != 0 && (h.offset != 0 || h.selector == chainSel) {
        DeliverSoft(v);
        return true;
      }
      delivered := false;
    }

    method DeliverSoft(v: nat)
      requires Valid() && Now().Room(IntSize(is32)) && v < 256
      modifies this, mem
      ensures IntDelivered(old(Now()), vectors[v], false, Now()) && chainSel == old(chainSel)
    {
      var esp, at := Reserve(if is32 then 12 else 6);
      PushInt(at);
      regs := regs.(esp := esp, eip := vectors[v].offset, cs := vectors[v].selector);
      regs := regs.(eflags := ClearTf(regs.eflags));
    }

    method ReadFrame(at: nat, wide: bool) returns (eip: U32, cs: U32, eflags: U32, esp: U32, ss: U32)
      requires at + ExcSize(wide) <= mem.Length
      ensures wide ==> eip == Load32(mem[..], at + 12) && cs == Load32(mem[..], at + 16)
                       && eflags == Load32(mem[..], at + 20)
                       && esp == Load32(mem[..], at + 24) && ss == Load32(mem[..], at + 28)
      ensures !wide ==> eip == Load16(mem[..], at + 6) && cs == Load16(mem[..], at + 8)
                        && eflags == Load16(mem[..], at + 10)
                        && esp == Load16(mem[..], at + 12) && ss == Load16(mem[..], at + 14)
    {
      if wide {
        eip := Read32(mem, at + 12);
        cs := Read32(mem, at + 16);
        eflags := Read32(mem, at + 20);
        esp := Read32(mem, at + 24);
        ss := Read32(mem, at + 28);
      } else {
        eip := Read16(mem, at + 6);
        cs := Read16(mem, at + 8);
        eflags := Read16(mem, at + 10);
        esp := Read16(mem, at + 12);
        ss := Read16(mem, at + 14);
      }
    }

    /** INT F3h. A frame whose CS is no LDT selector in use is not resumed. */
    method ReturnFromException() returns (ok: bool)
      requires Valid() && CanReturn(Now())
      modifies this
      ensures ok <==> GoodCs(old(Now()), SavedCs(old(Now())))
      ensures ok ==> var cs := SavedCs(old(Now())); cs / 4 % 2 == 1 && cs / 8 < 2048 && old(ldt[..])[cs / 8].used
      ensures Now() == if ok then old(Now()).(regs := Resumed(old(Now())), save := old(save).(active := false))
              else old(Now())
    {
      var wide := if save.active then save.is32 else true;
      var at := if save.active then save.frameBase else ldt[regs.ss % 0x1_0000 / 8].base + regs.esp - 8;
      assert at == ReturnFrame(Now());
      var eip, cs, eflags, esp, ss := ReadFrame(at, wide);
      if !(cs / 4 % 2 == 1 && cs / 8 < LDT_ENTRIES && ldt[cs / 8].used) {
        return false;
      }
      if wide {
        regs := regs.(eip := eip, cs := cs, eflags := eflags, esp := esp, ss := ss);
      } else {
        regs := regs.(eip := Mix(regs.eip, eip), cs := Mix(regs.cs, cs), eflags := Mix(regs.eflags, eflags));
        regs := regs.(esp := save.esp, ss := save.ss);
      }
      save := save.(active := false);
      ok := true;
    }
  }
}
