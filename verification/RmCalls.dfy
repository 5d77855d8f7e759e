/** Real-mode calls by protected-mode clients (INT 31h AX=0301h/0302h): the switch
    to V86 mode with a return address that leads to a sentinel, and the unwinding
    when the sentinel is reached. */
module RmCalls {
  import opened Numbers
  import opened PmFrames

  const SENTINEL_SEG: U32 := 0
  const SENTINEL_OFF: U32 := 0x050C
  const CARRY_AND_AX: U32 := 0x8001

  /** The interrupted task's registers; the last four are loaded on the way to V86
      mode only. */
  datatype Frame = Frame(eax: U32, ebx: U32, ecx: U32, edx: U32, esi: U32, edi: U32, ebp: U32,
                         eip: U32, cs: U32, eflags: U32, esp: U32, ss: U32,
                         ds: U32, es: U32, fs: U32, gs: U32,
                         v86es: U32, v86ds: U32, v86fs: U32, v86gs: U32)

  /** The client's real-mode call structure. */
  datatype CallRegs = CallRegs(eax: U32, ebx: U32, ecx: U32, edx: U32, esi: U32, edi: U32, ebp: U32, flags: U16,
                               es: U16, ds: U16, fs: U16, gs: U16, ip: U16, cs: U16, sp: U16, ss: U16)

  /** What the host keeps of the client while the call runs: CS and SS in 16 bits. */
  datatype Pending = Pending(active: bool, eax: U32, ebx: U32, ecx: U32, edx: U32, esi: U32, edi: U32, ebp: U32,
                             eip: U32, cs: U16, eflags: U32, esp: U32, ss: U16,
                             ds: U32, es: U32, fs: U32, gs: U32)

  function Low(x: U32): U16 { x % 0x1_0000 }

  /** x with bit 0 set to b. */
  function WithCarry(x: U32, b: bool): U32 { x - x % 2 + if b then 1 else 0 }

  /** The flags a call may set in real mode: CF, PF, AF, ZF, SF, DF and OF. */
  function CallFlags(f: U16): U32 {
    f % 2 + 4 * (f / 4 % 2) + 16 * (f / 16 % 2) + 64 * (f / 64 % 2) + 128 * (f / 128 % 2)
    + 1024 * (f / 1024 % 2) + 2048 * (f / 2048 % 2)
  }

  /** Bit k of n. */
  function Bit(n: nat, k: nat): nat {
    if k == 0 then n % 2 else Bit(n / 2, k - 1)
  }

  /** The flags a procedure starts with, bit by bit: seven are the caller's, interrupts
      are enabled, the processor is in V86 mode and every other flag is clear. */
  lemma EntryFlagBits(f: U16, k: nat)
    requires k < 32
    ensures Bit(0x2_0202 + CallFlags(f), k) ==
            if k in {0, 2, 4, 6, 7, 10, 11} then Bit(f, k) else if k in {1, 9, 17} then 1 else 0
  {
    BitOf(f, k);
    var h12 := 0x20;
    var h11 := f / 2048 % 2 + 2 * h12;
    var h10 := f / 1024 % 2 + 2 * h11;
    var h8 := 2 * (1 + 2 * h10);
    var h7 := f / 128 % 2 + 2 * h8;
    var h6 := f / 64 % 2 + 2 * h7;
    var h4 := f / 16 % 2 + 2 * (2 * h6);
    var h2 := f / 4 % 2 + 2 * (2 * h4);
    var h0 := f % 2 + 2 * (1 + 2 * h2);
    assert h0 == 0x2_0202 + CallFlags(f);
    FourBits(f % 2, 1, h2, h0, k);
    FourBits(f / 4 % 2, 0, h4, h2, k - 2);
    FourBits(f / 16 % 2, 0, h6, h4, k - 4);
    FourBits(f / 64 % 2, f / 128 % 2, h8, h6, k - 6);
    FourBits(0, 1, h10, h8, k - 8);
    FourBits(f / 1024 % 2, f / 2048 % 2, h12, h10, k - 10);
    if k >= 12 {
      SmallBits(k - 12);
    }
  }

  lemma FourBits(b0: nat, b1: nat, rest: nat, n: nat, k: int)
    requires b0 < 2 && b1 < 2 && n == b0 + 2 * (b1 + 2 * rest)
    ensures k >= 0 ==> Bit(n, k) == if k == 0 then b0 else if k == 1 then b1 else Bit(rest, k - 2)
  {
    DivModUnique(n, 2, b1 + 2 * rest, b0);
    DivModUnique(b1 + 2 * rest, 2, rest, b1);
    if k >= 1 {
      assert Bit(n, k) == Bit(b1 + 2 * rest, k - 1);
    }
  }

  lemma SmallBits(k: nat)
    requires k < 20
    ensures Bit(0x20, k) == if k == 5 then 1 else 0
  {
    FourBits(0, 0, 8, 0x20, k);
    FourBits(0, 0, 2, 8, k - 2);
    FourBits(0, 1, 0, 2, k - 4);
    if k >= 6 {
      ZeroBits(k - 6);
    }
  }

  lemma {:induction false} ZeroBits(k: nat)
    ensures Bit(0, k) == 0
  {
    if k > 0 {
      ZeroBits(k - 1);
    }
  }

  lemma BitOf(f: U16, k: nat)
    ensures k == 0 ==> Bit(f, k) == f % 2
    ensures k == 2 ==> Bit(f, k) == f / 4 % 2
    ensures k == 4 ==> Bit(f, k) == f / 16 % 2
    ensures k == 6 ==> Bit(f, k) == f / 64 % 2
    ensures k == 7 ==> Bit(f, k) == f / 128 % 2
    ensures k == 10 ==> Bit(f, k) == f / 1024 % 2
    ensures k == 11 ==> Bit(f, k) == f / 2048 % 2
  {
    assert f / 2 / 2 == f / 4 && f / 4 / 2 == f / 8 && f / 8 / 2 == f / 16 && f / 16 / 2 == f / 32;
    assert f / 32 / 2 == f / 64 && f / 64 / 2 == f / 128 && f / 128 / 2 == f / 256 && f / 256 / 2 == f / 512;
    assert f / 512 / 2 == f / 1024 && f / 1024 / 2 == f / 2048;
    if k >= 2 { assert Bit(f, k) == Bit(f / 4, k - 2); }
    if k >= 4 { assert Bit(f / 4, k - 2) == Bit(f / 16, k - 4); }
    if k >= 6 { assert Bit(f / 16, k - 4) == Bit(f / 64, k - 6); }
    if k >= 8 { assert Bit(f / 64, k - 6) == Bit(f / 256, k - 8); }
    if k >= 10 { assert Bit(f / 256, k - 8) == Bit(f / 1024, k - 10); }
  }

  // ------------------------------------------------------------------
  // Specification
  // ------------------------------------------------------------------

  function SaveOf(f: Frame): Pending {
    Pending(true, f.eax, f.ebx, f.ecx, f.edx, f.esi, f.edi, f.ebp, f.eip, Low(f.cs), f.eflags, f.esp, Low(f.ss),
            f.ds, f.es, f.fs, f.gs)
  }

  /** Everything a return from INT 31h owes the client but the carry flag. */
  predicate SameClient(f: Frame, g: Frame) {
    && f.eax == g.eax && f.ebx == g.ebx && f.ecx == g.ecx && f.edx == g.edx
    && f.esi == g.esi && f.edi == g.edi && f.ebp == g.ebp
    && f.eip == g.eip && f.cs == g.cs && f.esp == g.esp && f.ss == g.ss
    && f.ds == g.ds && f.es == g.es && f.fs == g.fs && f.gs == g.gs
    && f.eflags / 2 == g.eflags / 2
  }

  /** The call structure shows the real-mode registers. */
  predicate Reports(c: CallRegs, f: Frame) {
    && c.eax == f.eax && c.ebx == f.ebx && c.ecx == f.ecx && c.edx == f.edx
    && c.esi == f.esi && c.edi == f.edi && c.ebp == f.ebp
    && c.ds == Low(f.v86ds) && c.es == Low(f.v86es) && c.fs == Low(f.v86fs) && c.gs == Low(f.v86gs)
    && c.cs == Low(f.cs) && c.ip == Low(f.eip) && c.ss == Low(f.ss) && c.sp == Low(f.esp) && c.flags == Low(f.eflags)
  }

  /** The client now runs the procedure the call structure names. */
  predicate Enters(c: CallRegs, f: Frame) {
    && f.eax == c.eax && f.ebx == c.ebx && f.ecx == c.ecx && f.edx == c.edx
    && f.esi == c.esi && f.edi == c.edi && f.ebp == c.ebp
    && f.cs == c.cs && f.eip == c.ip
    && f.v86es == c.es && f.v86ds == c.ds && f.v86fs == c.fs && f.v86gs == c.gs
    && f.ds == f.es == 0x10 && f.fs == f.gs == 0
    && f.eflags == 0x2_0202 + CallFlags(c.flags)
  }

  /** A far return, or an IRET, from ss:sp leads to the sentinel. */
  predicate LeadsToSentinel(m: seq<Byte>, ss: U16, sp: U16, iret: bool, flags: U16) {
    && 16 * ss + 0x1_0008 <= |m|
    && Load16(m, 16 * ss + sp) == SENTINEL_OFF
    && Load16(m, 16 * ss + Up(sp, 2)) == SENTINEL_SEG
    && (iret ==> Load16(m, 16 * ss + Up(sp, 4)) == if flags != 0 then flags else 0x0202)
  }

  /** Byte a belongs to the word at ss:sp, with sp in 16-bit arithmetic. */
  predicate InWord(a: nat, ss: U16, sp: int) {
    var w := 16 * ss + sp % 0x1_0000;
    a == w || a == w + 1
  }

  /** Only the two or three words below ss:sp were written. */
  predicate OnlyPushed(m: seq<Byte>, m': seq<Byte>, ss: U16, sp: U16, three: bool) {
    && |m'| == |m|
    && forall a {:trigger m'[a]} | 0 <= a < |m| ::
         !InWord(a, ss, sp - 2) && !InWord(a, ss, sp - 4) && !(three && InWord(a, ss, sp - 6)) ==> m'[a] == m[a]
  }

  function Up(sp: U16, n: nat): U16
    requires n <= 6
  {
    if sp + n < 0x1_0000 then sp + n else sp + n - 0x1_0000
  }

  lemma WrapTwice(sp: int, n: int)
    ensures ((sp - 2) % 0x1_0000 - n) % 0x1_0000 == (sp - 2 - n) % 0x1_0000
  {
  }

  /** The words of a far return pushed below the flags, and where the flags are. */
  lemma IretWords(ss: U16, sp0: U16)
    ensures var s1: U16 := (sp0 - 2) % 0x1_0000;
            && (s1 - 4) % 0x1_0000 == (sp0 - 6) % 0x1_0000 && Up((sp0 - 6) % 0x1_0000, 4) == s1
            && (forall a {:trigger InWord(a, ss, s1 - 2)} :: InWord(a, ss, s1 - 2) == InWord(a, ss, sp0 - 4))
            && (forall a {:trigger InWord(a, ss, s1 - 4)} :: InWord(a, ss, s1 - 4) == InWord(a, ss, sp0 - 6))
            && !InWord(16 * ss + s1, ss, s1 - 2) && !InWord(16 * ss + s1 + 1, ss, s1 - 2)
            && !InWord(16 * ss + s1, ss, s1 - 4) && !InWord(16 * ss + s1 + 1, ss, s1 - 4)
  {
    WrapTwice(sp0, 2);
    WrapTwice(sp0, 4);
  }

  /** Lowest client with a call pending, or the number of clients. */
  function FirstPending(s: seq<Pending>): (i: nat)
    ensures i <= |s| && (i < |s| ==> s[i].active) && forall j | 0 <= j < i :: !s[j].active
  {
    if s == [] then 0
    else if s[0].active then 0
    else
      var r := FirstPending(s[1..]);
      assert forall j | 1 <= j < 1 + r :: s[j] == s[1..][j - 1];
      1 + r
  }

  // ------------------------------------------------------------------
  // Host
  // ------------------------------------------------------------------

  class Trampoline {
    const mem: array<Byte>
    const saves: array<Pending>
    const structs: array<CallRegs>
    var frame: Frame

    predicate Valid()
      reads this
    {
      mem.Length == WORD32 && saves.Length == structs.Length
    }

    constructor (clients: nat, f: Frame)
      ensures Valid() && saves.Length == clients && frame == f
      ensures forall i | 0 <= i < clients :: !saves[i].active
    {
      mem := new Byte[WORD32](_ => 0);
      saves := new Pending[clients](_ => Pending(false, 0, 0, 0, 0, 0, 0, 0, 0, 0, 0, 0, 0, 0, 0, 0, 0));
      structs := new CallRegs[clients](_ => CallRegs(0, 0, 0, 0, 0, 0, 0, 0, 0, 0, 0, 0, 0, 0, 0, 0));
      frame := f;
    }

    /** INT 31h AX=0301h (far return) or 0302h (IRET) by client c. A client with a
        call pending gets an error instead. */
    method Call(c: nat, iret: bool) returns (switched: bool)
      requires Valid() && c < saves.Length
      modifies this, mem, saves
      ensures switched <==> !old(saves[c].active)
      ensures !switched ==> saves[..] == old(saves[..]) && mem[..] == old(mem[..])
                            && frame == old(frame).(eax := frame.eax, eflags := WithCarry(old(frame.eflags), true))
                            && Low(frame.eax) == CARRY_AND_AX && frame.eax / 0x1_0000 == old(frame.eax) / 0x1_0000
      ensures switched ==> saves[..] == old(saves[..])[c := SaveOf(old(frame))]
                           && Enters(structs[c], frame)
                           && frame.ss == (if structs[c].ss != 0 then structs[c].ss else 0x70)
                           && frame.esp < 0x1_0000
                           && LeadsToSentinel(mem[..], frame.ss, frame.esp, iret, structs[c].flags)
      ensures switched ==>
                var sp, n := if structs[c].ss != 0 then structs[c].sp else 0x0F00, if iret then 6 else 4;
                && frame.esp == (sp - n) % 0x1_0000
                && OnlyPushed(old(mem[..]), mem[..], frame.ss, sp, iret)
    {
      if saves[c].active {
        frame := frame.(eax := frame.eax - Low(frame.eax) + CARRY_AND_AX);
        frame := frame.(eflags := WithCarry(frame.eflags, true));
        return false;
      }
      var rm, f := structs[c], frame;
      var save := saves[c].(eax := f.eax, ebx := f.ebx, ecx := f.ecx, edx := f.edx, esi := f.esi, edi := f.edi,
                            ebp := f.ebp, eip := f.eip, cs := Low(f.cs), eflags := f.eflags, esp := f.esp,
                            ss := Low(f.ss), ds := f.ds, es := f.es, fs := f.fs, gs := f.gs);
      var ss: U16 := if rm.ss != 0 then rm.ss else 0x0070;
      var sp: U16 := if rm.ss != 0 then rm.sp else 0x0F00;
      sp := PushReturn(ss, sp, iret, rm.flags);
      frame := frame.(cs := rm.cs, eip := rm.ip, ss := ss, esp := sp);
      frame := frame.(ds := 0x10, es := 0x10, fs := 0, gs := 0);
      frame := frame.(v86es := rm.es, v86ds := rm.ds, v86fs := rm.fs, v86gs := rm.gs);
      frame := frame.(eax := rm.eax, ebx := rm.ebx, ecx := rm.ecx, edx := rm.edx, esi := rm.esi, edi := rm.edi,
                      ebp := rm.ebp);
      frame := frame.(eflags := 0x2_0002 + CallFlags(rm.flags) + 0x200);
      saves[c] := save.(active := true);
      switched := true;
    }

    method PushReturn(ss: U16, sp0: U16, iret: bool, flags: U16) returns (sp: U16)
      requires Valid()
      modifies mem
      ensures sp == (sp0 - if iret then 6 else 4) % 0x1_0000
      ensures LeadsToSentinel(mem[..], ss, sp, iret, flags)
      ensures OnlyPushed(old(mem[..]), mem[..], ss, sp0, iret)
    {
      if iret {
        sp := PushIret(ss, sp0, if flags != 0 then flags else 0x0202);
      } else {
        sp := PushFar(ss, sp0);
      }
    }

    method PushIret(ss: U16, sp0: U16, flags: U16) returns (sp: U16)
      requires Valid()
      modifies mem
      ensures sp == (sp0 - 6) % 0x1_0000 && Load16(mem[..], 16 * ss + Up(sp, 4)) == flags
      ensures Load16(mem[..], 16 * ss + sp) == SENTINEL_OFF && Load16(mem[..], 16 * ss + Up(sp, 2)) == SENTINEL_SEG
      ensures OnlyPushed(old(mem[..]), mem[..], ss, sp0, true)
    {
      sp := Push(ss, sp0, flags);
      IretWords(ss, sp0);
      ghost var was, at := mem[..], 16 * ss + sp;
      sp := PushFar(ss, sp);
      assert mem[..][at] == was[at] && mem[..][at + 1] == was[at + 1];
    }

    method PushFar(ss: U16, sp0: U16) returns (sp: U16)
      requires Valid()
      modifies mem
      ensures sp == (sp0 - 4) % 0x1_0000
      ensures Load16(mem[..], 16 * ss + sp) == SENTINEL_OFF && Load16(mem[..], 16 * ss + Up(sp, 2)) == SENTINEL_SEG
      ensures forall a | 0 <= a < WORD32 && !InWord(a, ss, sp0 - 2) && !InWord(a, ss, sp0 - 4) :: mem[a] == old(mem[a])
    {
      sp := Push(ss, sp0, SENTINEL_SEG);
      ghost var was, at := mem[..], 16 * ss + sp;
      sp := Push(ss, sp, SENTINEL_OFF);
      assert mem[..][at] == was[at] && mem[..][at + 1] == was[at + 1];
    }

    method Push(ss: U16, sp0: U16, v: U16) returns (sp: U16)
      requires Valid()
      modifies mem
      ensures sp == (sp0 - 2) % 0x1_0000 && Load16(mem[..], 16 * ss + sp) == v
      ensures forall a | 0 <= a < WORD32 && !InWord(a, ss, sp0 - 2) :: mem[a] == old(mem[a])
    {
      sp := if sp0 >= 2 then sp0 - 2 else sp0 + 0x1_0000 - 2;
      ghost var was := mem[..];
      Store16(mem, 16 * ss + sp, v);
      forall a | 0 <= a < WORD32 && !InWord(a, ss, sp0 - 2) ensures mem[a] == was[a] {
        assert mem[..][a] == was[a];
      }
    }

    /** The sentinel: report the real-mode registers to the first client with a call
        pending and resume it. */
    method Unwind() returns (c: nat)
      requires Valid()
      modifies this, saves, structs
      ensures c == FirstPending(old(saves[..]))
      ensures c == saves.Length ==>
                frame == old(frame) && saves[..] == old(saves[..]) && structs[..] == old(structs[..])
      ensures c < saves.Length ==>
                && structs[..] == old(structs[..])[c := structs[c]] && Reports(structs[c], old(frame))
                && saves[..] == old(saves[..])[c := old(saves[c]).(active := false)]
                && Resumes(old(saves[c]), old(frame), frame)
    {
      c := 0;
      while c < saves.Length && !saves[c].active
        invariant 0 <= c <= saves.Length && forall j | 0 <= j < c :: !saves[j].active
      {
        c := c + 1;
      }
      if c == saves.Length {
        return;
      }
      var f, s := frame, saves[c];
      structs[c] := CallRegs(f.eax, f.ebx, f.ecx, f.edx, f.esi, f.edi, f.ebp, Low(f.eflags),
                             Low(f.v86es), Low(f.v86ds), Low(f.v86fs), Low(f.v86gs),
                             Low(f.eip), Low(f.cs), Low(f.esp), Low(f.ss));
      frame := frame.(eax := s.eax, ebx := s.ebx, ecx := s.ecx, edx := s.edx, esi := s.esi, edi := s.edi, ebp := s.ebp);
      frame := frame.(eip := s.eip, cs := s.cs, eflags := s.eflags, esp := s.esp, ss := s.ss);
      frame := frame.(ds := s.ds, es := s.es, fs := s.fs, gs := s.gs);
      frame := frame.(eflags := WithCarry(frame.eflags, structs[c].flags % 2 == 1));
      saves[c] := s.(active := false);
    }
  }

  /** The frame f' is the one saved in s, its carry flag that of the real-mode
      frame f. */
  predicate Resumes(s: Pending, f: Frame, f': Frame) {
    SaveOf(f').(active := s.active, eflags := 0, cs := 0, ss := 0) == s.(eflags := 0, cs := 0, ss := 0)
    && f'.cs == s.cs && f'.ss == s.ss
    && f'.eflags == WithCarry(s.eflags, f.eflags % 2 == 1)
  }

  /** What a procedure finds in the general and segment registers is what the call
      structure named, and what it leaves there is what the structure shows: one that
      changes nothing gives the structure back, with its stack and flags as entered. */
  lemma EnteredIsReported(c: CallRegs, f: Frame, r: CallRegs)
    requires Enters(c, f) && Reports(r, f)
    ensures r == c.(ss := r.ss, sp := r.sp, flags := r.flags)
    ensures r.flags == (0x2_0202 + CallFlags(c.flags)) % 0x1_0000
  {
  }

  // ------------------------------------------------------------------
  // Runs
  // ------------------------------------------------------------------

  datatype Sys = Sys(saves: seq<Pending>, frame: Frame)

  /** Client c starts a call. */
  predicate Starts(y: Sys, y': Sys, c: nat) {
    c < |y.saves| && !y.saves[c].active && y'.saves == y.saves[c := SaveOf(y.frame)]
  }

  /** The sentinel resumes client c. */
  predicate Ends(y: Sys, y': Sys, c: nat) {
    && c < |y.saves| && c == FirstPending(y.saves)
    && y'.saves == y.saves[c := y.saves[c].(active := false)]
    && Resumes(y.saves[c], y.frame, y'.frame)
  }

  function Released(s: seq<Pending>, c: nat): seq<Pending>
    requires c < |s|
  {
    s[c := s[c].(active := false)]
  }

  /** A call, accepted or refused; the sentinel; a client's release; or any code of
      any task, which may change every register. */
  ghost predicate Step(y: Sys, y': Sys) {
    || (exists c: nat :: Starts(y, y', c))
    || (exists c: nat :: Ends(y, y', c))
    || (exists c | 0 <= c < |y.saves| :: y'.saves == Released(y.saves, c))
    || y'.saves == y.saves
  }

  ghost predicate Linked(t: seq<Sys>, i: nat)
    requires i + 1 < |t|
  {
    Step(t[i], t[i + 1])
  }

  ghost predicate Trace(t: seq<Sys>) {
    forall i {:trigger Linked(t, i)} | 0 <= i < |t| - 1 :: Linked(t, i)
  }

  /** While a call of client c is pending nothing replaces what was saved of it. */
  lemma {:induction false} SaveStays(t: seq<Sys>, c: nat, i: nat, k: nat)
    requires Trace(t) && i <= k < |t| && forall x | i <= x <= k :: c < |t[x].saves| && t[x].saves[c].active
    ensures t[k].saves[c] == t[i].saves[c]
    decreases k
  {
    if i < k {
      SaveStays(t, c, i, k - 1);
      assert Linked(t, k - 1);
    }
  }

  /** The round trip. Client c starts a call at step i; it stays pending until step
      j resumes c. Whatever ran in between, the client then finds every register
      and flag as it left them, except CF, which is the real-mode one, exactly when
      its CS and SS fit in 16 bits. */
  lemma RoundTripIff(t: seq<Sys>, c: nat, i: nat, j: nat)
    requires Trace(t) && i < j && j + 1 < |t| && Starts(t[i], t[i + 1], c) && Ends(t[j], t[j + 1], c)
    requires forall k | i < k <= j :: c < |t[k].saves| && t[k].saves[c].active
    ensures t[j + 1].frame.eflags % 2 == t[j].frame.eflags % 2
    ensures SameClient(t[j + 1].frame, t[i].frame) <==> t[i].frame.cs < 0x1_0000 && t[i].frame.ss < 0x1_0000
  {
    SaveStays(t, c, i + 1, j);
  }

  /** A call and its return when the saved CS has a bit above its low 16 set, and no
      other client is inside a call: the client resumes with the low half alone. */
  method HighHalfLost(t: Trampoline, c: nat)
    requires t.Valid() && c < t.saves.Length && t.frame.cs == 0x1_000F
    requires forall d | 0 <= d < t.saves.Length :: !t.saves[d].active
    modifies t, t.mem, t.saves, t.structs
    ensures t.frame.cs == 0x000F && !SameClient(t.frame, old(t.frame))
  {
    ghost var before := t.saves[..];
    var switched := t.Call(c, false);
    assert t.saves[c] == t.saves[..][c];
    ghost var during := t.saves[..];
    OnlyPending(before, c, during[c]);
    var resumed := t.Unwind();
  }

  lemma OnlyPending(s: seq<Pending>, c: nat, p: Pending)
    requires c < |s| && p.active && forall d | 0 <= d < |s| :: !s[d].active
    ensures FirstPending(s[c := p]) == c
  {
    assert s[c := p][c].active;
  }

  /** With several clients inside calls the sentinel resumes the lowest one, which
      need not be the one whose procedure returned. */
  lemma ResumesLowest(y: Sys, c: nat, d: nat)
    requires c < d < |y.saves| && y.saves[c].active
    ensures forall y' :: !Ends(y, y', d)
  {
  }
}
