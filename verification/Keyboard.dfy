/** The keyboard's modifier state, kept by two separately written byte processors:
    the interrupt handler, one byte at a time, and the injection of whole scancode
    sequences. */
module Keyboard {
  import opened Numbers

  const EXTENDED: Byte := 0xE0
  const LSHIFT: Byte := 0x2A
  const RSHIFT: Byte := 0x36
  const CTRL: Byte := 0x1D
  const ALT: Byte := 0x38
  const CAPS: Byte := 0x3A
  const NUM: Byte := 0x45
  const SCROLL: Byte := 0x46
  const INS: Byte := 0x52

  /** The two modifier bytes of the BIOS data area, bit by bit. */
  datatype Mods = Mods(rshift: bool, lshift: bool, ctrl: bool, alt: bool, scroll: bool, num: bool, caps: bool,
                       ins: bool)
  datatype Ext = Ext(lctrl: bool, lalt: bool, rctrl: bool, ralt: bool)

  /** Key states by scancode, and the modifiers. */
  datatype State = State(down: seq<bool>, mods: Mods, ext: Ext)
  {
    predicate Wf() { |down| == 256 }
  }

  /** A key going down or up; `ext` if an extension prefix came before. */
  datatype Key = Key(sc: Byte, pressed: bool, ext: bool)

  function KeyOf(b: Byte, ext: bool): Key { Key(b % 128, b < 128, ext) }

  // ------------------------------------------------------------------
  // Specification
  // ------------------------------------------------------------------

  /** Effect of one key on the modifiers. */
  function Modify(s: State, k: Key): State {
    if k.sc == LSHIFT then s.(mods := s.mods.(lshift := k.pressed))
    else if k.sc == RSHIFT then s.(mods := s.mods.(rshift := k.pressed))
    else if k.sc == CTRL then
      var e := if k.ext then s.ext.(rctrl := k.pressed) else s.ext.(lctrl := k.pressed);
      s.(ext := e, mods := s.mods.(ctrl := e.lctrl || e.rctrl))
    else if k.sc == ALT then
      var e := if k.ext then s.ext.(ralt := k.pressed) else s.ext.(lalt := k.pressed);
      s.(ext := e, mods := s.mods.(alt := e.lalt || e.ralt))
    else if !k.pressed then s
    else if k.sc == CAPS then s.(mods := s.mods.(caps := !s.mods.caps))
    else if k.sc == NUM then s.(mods := s.mods.(num := !s.mods.num))
    else if k.sc == SCROLL then s.(mods := s.mods.(scroll := !s.mods.scroll))
    else if k.sc == INS then s.(mods := s.mods.(ins := !s.mods.ins))
    else s
  }

  function Press(s: State, k: Key): State
    requires s.Wf()
  {
    Modify(s.(down := s.down[k.sc := k.pressed]), k)
  }

  function PressAll(s: State, ks: seq<Key>): (r: State)
    requires s.Wf()
    ensures r.Wf()
  {
    if ks == [] then s else Press(PressAll(s, ks[..|ks| - 1]), ks[|ks| - 1])
  }

  /** The keys of a byte stream: a prefix marks the next key, repeated ones count
      once. */
  function Decode(bytes: seq<Byte>): seq<Key> {
    if bytes == [] then []
    else
      var n := |bytes| - 1;
      if bytes[n] == EXTENDED then Decode(bytes[..n])
      else Decode(bytes[..n]) + [KeyOf(bytes[n], Prefixed(bytes[..n]))]
  }

  /** A prefix awaits its key at the end of the stream. */
  predicate Prefixed(bytes: seq<Byte>) { bytes != [] && bytes[|bytes| - 1] == EXTENDED }

  const RELEASED := State(seq(256, _ => false), Mods(false, false, false, false, false, false, false, false),
                          Ext(false, false, false, false))

  // ------------------------------------------------------------------
  // The driver
  // ------------------------------------------------------------------

  class Driver {
    const keyState: array<bool>
    var mods: Mods
    var ext: Ext
    var prefix: bool
    var bdaMods: Mods
    var bdaExt: Ext

    /** The copies in the BIOS data area match. */
    ghost predicate Valid()
      reads this, keyState
    {
      Now().Wf() && bdaMods == mods && bdaExt == ext
    }

    ghost function Now(): State
      reads this, keyState
    {
      State(keyState[..], mods, ext)
    }

    constructor ()
      ensures Valid() && fresh(keyState) && !prefix && Now() == RELEASED
    {
      keyState := new bool[256](_ => false);
      mods := Mods(false, false, false, false, false, false, false, false);
      ext := Ext(false, false, false, false);
      bdaMods := Mods(false, false, false, false, false, false, false, false);
      bdaExt := Ext(false, false, false, false);
      prefix := false;
      new;
      assert keyState[..] == seq(256, _ => false);
    }

    method UpdateModifiers(sc: Byte, pressed: bool, isExtended: bool)
      requires Now().Wf()
      modifies `mods, `ext, `bdaMods, `bdaExt
      ensures Valid() && Now() == Modify(old(Now()), Key(sc, pressed, isExtended))
    {
      if sc == LSHIFT {
        mods := mods.(lshift := pressed);
      } else if sc == RSHIFT {
        mods := mods.(rshift := pressed);
      } else if sc == CTRL {
        if isExtended {
          ext := ext.(rctrl := pressed);
        } else {
          ext := ext.(lctrl := pressed);
        }
        mods := mods.(ctrl := ext.lctrl || ext.rctrl);
      } else if sc == ALT {
        if isExtended {
          ext := ext.(ralt := pressed);
        } else {
          ext := ext.(lalt := pressed);
        }
        mods := mods.(alt := ext.lalt || ext.ralt);
      } else if sc == CAPS {
        if pressed { mods := mods.(caps := !mods.caps); }
      } else if sc == NUM {
        if pressed { mods := mods.(num := !mods.num); }
      } else if sc == SCROLL {
        if pressed { mods := mods.(scroll := !mods.scroll); }
      } else if sc == INS {
        if pressed { mods := mods.(ins := !mods.ins); }
      }
      bdaMods, bdaExt := mods, ext;
    }

    /** One byte from the keyboard controller. */
    method Isr(scancode: Byte)
      requires Valid()
      modifies this, keyState
      ensures Valid()
      ensures if scancode == EXTENDED then prefix && Now() == old(Now())
              else !prefix && Now() == Press(old(Now()), KeyOf(scancode, old(prefix)))
    {
      if scancode == EXTENDED {
        prefix := true;
        return;
      }
      var pressed := scancode < 128;
      var sc := scancode % 128;
      var isExtended := prefix;
      prefix := false;
      keyState[sc] := pressed;
      UpdateModifiers(sc, pressed, isExtended);
    }

    /** A whole sequence at once; its prefixes are its own. */
    method Inject(bytes: seq<Byte>)
      requires Valid()
      modifies this, keyState
      ensures Valid() && Now() == PressAll(old(Now()), Decode(bytes)) && prefix == old(prefix)
    {
      var isExtended := false;
      for i := 0 to |bytes|
        invariant Valid() && prefix == old(prefix)
        invariant Now() == PressAll(old(Now()), Decode(bytes[..i])) && isExtended == Prefixed(bytes[..i])
      {
        assert bytes[..i + 1][..i] == bytes[..i];
        if bytes[i] == EXTENDED {
          isExtended := true;
          continue;
        }
        ghost var ks := Decode(bytes[..i]);
        assert (ks + [KeyOf(bytes[i], isExtended)])[..|ks|] == ks;
        var pressed := bytes[i] < 128;
        var sc := bytes[i] % 128;
        keyState[sc] := pressed;
        UpdateModifiers(sc, pressed, isExtended);
        isExtended := false;
      }
      assert bytes[..|bytes|] == bytes;
    }
  }

  // ------------------------------------------------------------------
  // The two paths agree
  // ------------------------------------------------------------------

  /** State and prefix flag after the interrupt handler saw the bytes. */
  function IrqRun(s: State, prefix: bool, bytes: seq<Byte>): (State, bool)
    requires s.Wf()
    decreases |bytes|
  {
    if bytes == [] then (s, prefix)
    else if bytes[0] == EXTENDED then IrqRun(s, true, bytes[1..])
    else IrqRun(Press(s, KeyOf(bytes[0], prefix)), false, bytes[1..])
  }

  /** Appending one byte to a run. */
  lemma {:induction false} IrqRunLast(s: State, prefix: bool, bytes: seq<Byte>, b: Byte)
    requires s.Wf()
    ensures IrqRun(s, prefix, bytes).0.Wf()
    ensures var (t, p) := IrqRun(s, prefix, bytes);
            IrqRun(s, prefix, bytes + [b]) == if b == EXTENDED then (t, true) else (Press(t, KeyOf(b, p)), false)
    decreases |bytes|
  {
    var all := bytes + [b];
    if bytes == [] {
      assert all[1..] == [];
    } else {
      assert all[1..] == bytes[1..] + [b];
      if bytes[0] == EXTENDED {
        IrqRunLast(s, true, bytes[1..], b);
      } else {
        IrqRunLast(Press(s, KeyOf(bytes[0], prefix)), false, bytes[1..], b);
      }
    }
  }

  /** Whatever the bytes, the interrupt path from no pending prefix ends in the
      state that injecting them as one sequence ends in. */
  lemma {:induction false} PathsAgree(s: State, bytes: seq<Byte>)
    requires s.Wf()
    ensures IrqRun(s, false, bytes) == (PressAll(s, Decode(bytes)), Prefixed(bytes))
  {
    if bytes != [] {
      var n := |bytes| - 1;
      var front, b := bytes[..n], bytes[n];
      PathsAgree(s, front);
      IrqRunLast(s, false, front, b);
      assert bytes == front + [b];
      var ks := Decode(front);
      assert (ks + [KeyOf(b, Prefixed(front))])[..|ks|] == ks;
    }
  }

  /** The keys of a stream that is read with or without a pending prefix. */
  function From(prefix: bool, bytes: seq<Byte>): seq<Key>
    decreases |bytes|
  {
    if bytes == [] then []
    else if bytes[0] == EXTENDED then From(true, bytes[1..])
    else [KeyOf(bytes[0], prefix)] + From(false, bytes[1..])
  }

  lemma {:induction false} DecodeJoin(a: seq<Byte>, b: seq<Byte>)
    ensures Decode(a + b) == Decode(a) + From(Prefixed(a), b)
    decreases |b|
  {
    if b == [] {
      assert a + b == a;
    } else {
      var a' := a + [b[0]];
      assert a'[..|a|] == a && a + b == a' + b[1..];
      DecodeJoin(a', b[1..]);
    }
  }

  lemma PrefixMatters(b: seq<Byte>)
    ensures From(true, b) == From(false, b) <==> b == [] || b[0] == EXTENDED
  {
    if b != [] && b[0] != EXTENDED {
      assert From(true, b)[0].ext && !From(false, b)[0].ext;
    }
  }

  lemma SameTail(d: seq<Key>, e: seq<Key>, f: seq<Key>)
    ensures d + e == d + f <==> e == f
  {
    assert (d + e)[|d|..] == e && (d + f)[|d|..] == f;
  }

  lemma DecodeIsFrom(b: seq<Byte>)
    ensures Decode(b) == From(false, b)
  {
    DecodeJoin([], b);
    assert [] + b == b;
  }

  /** Injecting a stream in two pieces decodes as the whole exactly when the cut does
      not part a prefix from its key. */
  lemma CutIff(a: seq<Byte>, b: seq<Byte>)
    ensures Decode(a + b) == Decode(a) + Decode(b) <==> !Prefixed(a) || b == [] || b[0] == EXTENDED
  {
    DecodeJoin(a, b);
    DecodeIsFrom(b);
    PrefixMatters(b);
    SameTail(Decode(a), From(Prefixed(a), b), From(false, b));
  }

  // ------------------------------------------------------------------
  // What the modifiers mean
  // ------------------------------------------------------------------

  /** The last of the keys with this code (and, if `side`, this prefix) is a make. */
  predicate LastDown(ks: seq<Key>, sc: Byte, side: bool, ext: bool) {
    ks != [] &&
    var k := ks[|ks| - 1];
    if k.sc == sc && (side ==> k.ext == ext) then k.pressed else LastDown(ks[..|ks| - 1], sc, side, ext)
  }

  /** Number of makes of a code. */
  function Makes(ks: seq<Key>, sc: Byte): nat {
    if ks == [] then 0
    else Makes(ks[..|ks| - 1], sc) + if ks[|ks| - 1].sc == sc && ks[|ks| - 1].pressed then 1 else 0
  }

  lemma MakesPush(ks: seq<Key>, k: Key, sc: Byte)
    ensures Makes(ks + [k], sc) == Makes(ks, sc) + if k.sc == sc && k.pressed then 1 else 0
  {
  }

  /** A shift bit is set exactly when that key's last event is a make. */
  predicate ShiftBits(m: Mods, ks: seq<Key>) {
    m.lshift == LastDown(ks, LSHIFT, false, false) && m.rshift == LastDown(ks, RSHIFT, false, false)
  }

  /** A left or right Ctrl bit is set exactly when that key's last event is a make;
      the combined bit exactly when one of the two is. */
  predicate CtrlBits(s: State, ks: seq<Key>) {
    && s.ext.lctrl == LastDown(ks, CTRL, true, false) && s.ext.rctrl == LastDown(ks, CTRL, true, true)
    && s.mods.ctrl == (s.ext.lctrl || s.ext.rctrl)
  }

  predicate AltBits(s: State, ks: seq<Key>) {
    && s.ext.lalt == LastDown(ks, ALT, true, false) && s.ext.ralt == LastDown(ks, ALT, true, true)
    && s.mods.alt == (s.ext.lalt || s.ext.ralt)
  }

  predicate Odd(n: nat) { n % 2 == 1 }

  /** The lock bits are the parity of their makes. */
  predicate LockBits(m: Mods, ks: seq<Key>) {
    && m.caps == Odd(Makes(ks, CAPS)) && m.num == Odd(Makes(ks, NUM))
    && m.scroll == Odd(Makes(ks, SCROLL)) && m.ins == Odd(Makes(ks, INS))
  }

  /** What one key does to each bit. */
  predicate ShiftMoves(m: Mods, k: Key, m': Mods) {
    && m'.lshift == (if k.sc == LSHIFT then k.pressed else m.lshift)
    && m'.rshift == (if k.sc == RSHIFT then k.pressed else m.rshift)
  }

  predicate CtrlMoves(s: State, k: Key, s': State) {
    && s'.ext.lctrl == (if k.sc == CTRL && !k.ext then k.pressed else s.ext.lctrl)
    && s'.ext.rctrl == (if k.sc == CTRL && k.ext then k.pressed else s.ext.rctrl)
    && (s.mods.ctrl == (s.ext.lctrl || s.ext.rctrl) ==> s'.mods.ctrl == (s'.ext.lctrl || s'.ext.rctrl))
  }

  predicate AltMoves(s: State, k: Key, s': State) {
    && s'.ext.lalt == (if k.sc == ALT && !k.ext then k.pressed else s.ext.lalt)
    && s'.ext.ralt == (if k.sc == ALT && k.ext then k.pressed else s.ext.ralt)
    && (s.mods.alt == (s.ext.lalt || s.ext.ralt) ==> s'.mods.alt == (s'.ext.lalt || s'.ext.ralt))
  }

  predicate LockMoves(m: Mods, k: Key, m': Mods) {
    && m'.caps == (if k.sc == CAPS && k.pressed then !m.caps else m.caps)
    && m'.num == (if k.sc == NUM && k.pressed then !m.num else m.num)
    && m'.scroll == (if k.sc == SCROLL && k.pressed then !m.scroll else m.scroll)
    && m'.ins == (if k.sc == INS && k.pressed then !m.ins else m.ins)
  }

  lemma ModifyMoves(s: State, k: Key)
    ensures var s' := Modify(s, k);
            && ShiftMoves(s.mods, k, s'.mods) && CtrlMoves(s, k, s') && AltMoves(s, k, s')
               && LockMoves(s.mods, k, s'.mods)
            && s'.down == s.down
  {
  }

  lemma ShiftStep(m: Mods, m': Mods, ks: seq<Key>, k: Key)
    requires ShiftBits(m, ks) && ShiftMoves(m, k, m')
    ensures ShiftBits(m', ks + [k])
  {
  }

  lemma CtrlStep(s: State, s': State, ks: seq<Key>, k: Key)
    requires CtrlBits(s, ks) && CtrlMoves(s, k, s')
    ensures CtrlBits(s', ks + [k])
  {
  }

  lemma AltStep(s: State, s': State, ks: seq<Key>, k: Key)
    requires AltBits(s, ks) && AltMoves(s, k, s')
    ensures AltBits(s', ks + [k])
  {
  }

  lemma OddStep(n: nat)
    ensures Odd(n + 1) == !Odd(n)
  {
  }

  lemma LockStep(m: Mods, m': Mods, ks: seq<Key>, k: Key)
    requires LockBits(m, ks) && LockMoves(m, k, m')
    ensures LockBits(m', ks + [k])
  {
    MakesPush(ks, k, CAPS);
    MakesPush(ks, k, NUM);
    MakesPush(ks, k, SCROLL);
    MakesPush(ks, k, INS);
    OddStep(Makes(ks, CAPS));
    OddStep(Makes(ks, NUM));
    OddStep(Makes(ks, SCROLL));
    OddStep(Makes(ks, INS));
  }

  predicate KeysDown(down: seq<bool>, ks: seq<Key>)
    requires |down| == 256
  {
    forall c: Byte {:trigger down[c]} :: down[c] == LastDown(ks, c, false, false)
  }

  lemma DownStep(down: seq<bool>, ks: seq<Key>, k: Key)
    requires |down| == 256 && KeysDown(down, ks)
    ensures KeysDown(down[k.sc := k.pressed], ks + [k])
  {
  }

  predicate Means(s: State, ks: seq<Key>)
    requires s.Wf()
  {
    && ShiftBits(s.mods, ks) && CtrlBits(s, ks) && AltBits(s, ks) && LockBits(s.mods, ks)
    && KeysDown(s.down, ks)
  }

  lemma PressMeans(s: State, ks: seq<Key>, k: Key)
    requires s.Wf() && Means(s, ks)
    ensures Means(Press(s, k), ks + [k])
  {
    var t := s.(down := s.down[k.sc := k.pressed]);
    var u := Press(s, k);
    ModifyMoves(t, k);
    ShiftStep(t.mods, u.mods, ks, k);
    CtrlStep(t, u, ks, k);
    AltStep(t, u, ks, k);
    LockStep(t.mods, u.mods, ks, k);
    DownStep(s.down, ks, k);
  }

  /** From all keys released the modifiers mean what their names say, and a key is
      down exactly when its last event is a make. */
  lemma {:induction false} ModifiersMean(ks: seq<Key>)
    ensures Means(PressAll(RELEASED, ks), ks)
  {
    if ks != [] {
      var front, k := ks[..|ks| - 1], ks[|ks| - 1];
      ModifiersMean(front);
      PressMeans(PressAll(RELEASED, front), front, k);
      assert front + [k] == ks;
    }
  }

  // ------------------------------------------------------------------
  // What the bytes mean
  // ------------------------------------------------------------------

  /** Byte j comes behind an extension prefix. */
  predicate Behind(bytes: seq<Byte>, j: nat)
    requires j < |bytes|
  {
    j > 0 && bytes[j - 1] == 0xE0
  }

  /** Byte j is a make of code c, on one side of the keyboard. */
  predicate MakeAt(bytes: seq<Byte>, j: nat, c: nat, right: bool)
    requires j < |bytes|
  {
    bytes[j] == c && Behind(bytes, j) == right
  }

  /** Byte j is a break of code c; the byte that would break 60h is the prefix. */
  predicate BreakAt(bytes: seq<Byte>, j: nat, c: nat, right: bool)
    requires j < |bytes|
  {
    bytes[j] == c + 0x80 && bytes[j] != 0xE0 && Behind(bytes, j) == right
  }

  /** Code c went down on this side and has not come up since. */
  predicate SideHeld(bytes: seq<Byte>, c: nat, right: bool) {
    exists i :: 0 <= i < |bytes| && MakeAt(bytes, i, c, right)
                && forall j | i < j < |bytes| :: !BreakAt(bytes, j, c, right)
  }

  /** The same on either side. */
  predicate Held(bytes: seq<Byte>, c: nat) {
    exists i :: 0 <= i < |bytes| && bytes[i] == c
                && forall j | i < j < |bytes| :: bytes[j] != c + 0x80 || bytes[j] == 0xE0
  }

  predicate OddTimes(bytes: seq<Byte>, b: Byte) { multiset(bytes)[b] % 2 == 1 }

  /** From all keys released the state shows the bytes: a code is down when its last
      byte was the make, Ctrl and Alt by side, and a lock bit is set when its make came
      an odd number of times. */
  predicate Shows(s: State, bytes: seq<Byte>)
    requires s.Wf()
  {
    && (forall c: Byte {:trigger s.down[c]} :: s.down[c] == (c < 0x80 && Held(bytes, c)))
    && ShowsShift(s.mods, bytes) && ShowsCtrl(s, bytes) && ShowsAlt(s, bytes) && ShowsLocks(s.mods, bytes)
  }

  predicate ShowsShift(m: Mods, bytes: seq<Byte>) {
    m.lshift == Held(bytes, 0x2A) && m.rshift == Held(bytes, 0x36)
  }

  predicate ShowsCtrl(s: State, bytes: seq<Byte>) {
    && s.ext.lctrl == SideHeld(bytes, 0x1D, false) && s.ext.rctrl == SideHeld(bytes, 0x1D, true)
    && s.mods.ctrl == (s.ext.lctrl || s.ext.rctrl)
  }

  predicate ShowsAlt(s: State, bytes: seq<Byte>) {
    && s.ext.lalt == SideHeld(bytes, 0x38, false) && s.ext.ralt == SideHeld(bytes, 0x38, true)
    && s.mods.alt == (s.ext.lalt || s.ext.ralt)
  }

  predicate ShowsLocks(m: Mods, bytes: seq<Byte>) {
    && m.caps == OddTimes(bytes, 0x3A) && m.num == OddTimes(bytes, 0x45)
    && m.scroll == OddTimes(bytes, 0x46) && m.ins == OddTimes(bytes, 0x52)
  }

  /** The last of the bytes settles whether a code is held, unless it is about another. */
  lemma HeldLast(front: seq<Byte>, b: Byte, c: nat)
    requires c < 0x80
    ensures Held(front + [b], c) == if b == c then true else if b == c + 0x80 && b != 0xE0 then false
                                    else Held(front, c)
  {
    var all, n := front + [b], |front|;
    assert all[n] == b && all[..n] == front;
    if b == c {
      assert Held(all, c);
    } else if b == c + 0x80 && b != 0xE0 {
    } else if Held(front, c) {
      var i :| 0 <= i < n && front[i] == c && forall j | i < j < n :: front[j] != c + 0x80 || front[j] == 0xE0;
      assert all[i] == c && forall j | i < j < |all| :: all[j] != c + 0x80 || all[j] == 0xE0;
    }
  }

  lemma EventsKept(front: seq<Byte>, b: Byte, c: nat, right: bool)
    ensures var all, n := front + [b], |front|;
            && |all| == n + 1
            && (forall j {:trigger MakeAt(all, j, c, right)} {:trigger MakeAt(front, j, c, right)} | 0 <= j < n ::
                  MakeAt(all, j, c, right) == MakeAt(front, j, c, right))
            && (forall j {:trigger BreakAt(all, j, c, right)} {:trigger BreakAt(front, j, c, right)} | 0 <= j < n ::
                  BreakAt(all, j, c, right) == BreakAt(front, j, c, right))
            && MakeAt(all, n, c, right) == (b == c && Prefixed(front) == right)
            && BreakAt(all, n, c, right) == (b == c + 0x80 && b != 0xE0 && Prefixed(front) == right)
  {
    var all, n := front + [b], |front|;
    assert all[n] == b && Behind(all, n) == Prefixed(front);
    assert forall j | 0 <= j < n :: all[j] == front[j] && Behind(all, j) == Behind(front, j);
  }

  lemma SideHeldLast(front: seq<Byte>, b: Byte, c: nat, right: bool)
    requires c < 0x80
    ensures SideHeld(front + [b], c, right) ==
            if Prefixed(front) != right then SideHeld(front, c, right)
            else if b == c then true else if b == c + 0x80 && b != 0xE0 then false else SideHeld(front, c, right)
  {
    var all, n := front + [b], |front|;
    EventsKept(front, b, c, right);
    if MakeAt(all, n, c, right) {
      assert SideHeld(all, c, right);
    } else if BreakAt(all, n, c, right) {
    } else if SideHeld(front, c, right) {
      var i :| 0 <= i < n && MakeAt(front, i, c, right) && forall j | i < j < n :: !BreakAt(front, j, c, right);
      assert MakeAt(all, i, c, right) && forall j | i < j < |all| :: !BreakAt(all, j, c, right);
    }
  }

  lemma OddTimesLast(front: seq<Byte>, b: Byte, c: Byte)
    ensures OddTimes(front + [b], c) == (if b == c then !OddTimes(front, c) else OddTimes(front, c))
  {
    assert multiset(front + [b]) == multiset(front) + multiset{b};
  }

  lemma ShiftShowsMore(m: Mods, m': Mods, front: seq<Byte>, b: Byte)
    requires ShowsShift(m, front) && if b == EXTENDED then m' == m else ShiftMoves(m, KeyOf(b, Prefixed(front)), m')
    ensures ShowsShift(m', front + [b])
  {
    HeldLast(front, b, 0x2A);
    HeldLast(front, b, 0x36);
  }

  lemma CtrlShowsMore(s: State, s': State, front: seq<Byte>, b: Byte)
    requires ShowsCtrl(s, front) && if b == EXTENDED then s' == s else CtrlMoves(s, KeyOf(b, Prefixed(front)), s')
    ensures ShowsCtrl(s', front + [b])
  {
    SideHeldLast(front, b, 0x1D, false);
    SideHeldLast(front, b, 0x1D, true);
  }

  lemma AltShowsMore(s: State, s': State, front: seq<Byte>, b: Byte)
    requires ShowsAlt(s, front) && if b == EXTENDED then s' == s else AltMoves(s, KeyOf(b, Prefixed(front)), s')
    ensures ShowsAlt(s', front + [b])
  {
    SideHeldLast(front, b, 0x38, false);
    SideHeldLast(front, b, 0x38, true);
  }

  lemma LocksShowMore(m: Mods, m': Mods, front: seq<Byte>, b: Byte)
    requires ShowsLocks(m, front) && if b == EXTENDED then m' == m else LockMoves(m, KeyOf(b, Prefixed(front)), m')
    ensures ShowsLocks(m', front + [b])
  {
    OddTimesLast(front, b, 0x3A);
    OddTimesLast(front, b, 0x45);
    OddTimesLast(front, b, 0x46);
    OddTimesLast(front, b, 0x52);
  }

  lemma DownShowsMore(s: State, front: seq<Byte>, b: Byte, c: Byte)
    requires s.Wf() && Shows(s, front)
    ensures var down := if b == EXTENDED then s.down else s.down[b % 128 := b < 128];
            down[c] == (c < 0x80 && Held(front + [b], c))
  {
    if c < 0x80 {
      HeldLast(front, b, c);
    }
  }

  /** One more byte, seen by the interrupt handler or inside a sequence. */
  lemma ShowsMore(s: State, front: seq<Byte>, b: Byte)
    requires s.Wf() && Shows(s, front)
    ensures Shows(if b == EXTENDED then s else Press(s, KeyOf(b, Prefixed(front))), front + [b])
  {
    var k := KeyOf(b, Prefixed(front));
    var t := if b == EXTENDED then s else s.(down := s.down[k.sc := k.pressed]);
    var u := if b == EXTENDED then s else Press(s, k);
    ModifyMoves(t, k);
    ShiftShowsMore(t.mods, u.mods, front, b);
    CtrlShowsMore(t, u, front, b);
    AltShowsMore(t, u, front, b);
    LocksShowMore(t.mods, u.mods, front, b);
    forall c: Byte ensures u.down[c] == (c < 0x80 && Held(front + [b], c)) {
      DownShowsMore(s, front, b, c);
    }
  }

  /** Whatever bytes come in, by interrupt or as one sequence. */
  lemma {:induction false} BytesMean(bytes: seq<Byte>)
    ensures Shows(PressAll(RELEASED, Decode(bytes)), bytes)
  {
    if bytes != [] {
      var n := |bytes| - 1;
      var front, b := bytes[..n], bytes[n];
      BytesMean(front);
      ShowsMore(PressAll(RELEASED, Decode(front)), front, b);
      assert front + [b] == bytes;
      var ks := Decode(front);
      assert (ks + [KeyOf(b, Prefixed(front))])[..|ks|] == ks;
    }
  }

  /** A fresh driver that sees these bytes one by one, or as a sequence. */
  method Typed(bytes: seq<Byte>, oneByOne: bool) returns (d: Driver)
    ensures d.Valid() && Shows(d.Now(), bytes)
  {
    d := new Driver();
    if oneByOne {
      PathsAgree(RELEASED, bytes);
      for i := 0 to |bytes|
        invariant d.Valid() && IrqRun(d.Now(), d.prefix, bytes[i..]) == IrqRun(RELEASED, false, bytes)
      {
        assert bytes[i..][1..] == bytes[i + 1..];
        d.Isr(bytes[i]);
      }
    } else {
      d.Inject(bytes);
    }
    BytesMean(bytes);
  }
}
