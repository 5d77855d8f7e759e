/** The allocator for device-accessible memory: a bitmap of 16-byte units, a table
    of run lengths and a counter, all describing one map from run starts to
    lengths. */
module Dma {
  import opened Numbers

  const BASE: nat := 0x0020_0000
  const SIZE: nat := 0x4_0000
  const GRANULE: nat := 16
  const UNITS: nat := 16384

  // ------------------------------------------------------------------
  // The abstract map
  // ------------------------------------------------------------------

  /** Unit k lies in the run at s. */
  predicate In(live: map<nat, nat>, s: nat, k: nat) { s in live && s <= k < s + live[s] }

  ghost predicate Taken(live: map<nat, nat>, k: nat) { exists s: nat :: In(live, s, k) }

  /** Runs are not empty, inside the region and disjoint. */
  ghost predicate Runs(live: map<nat, nat>) {
    && (forall s | s in live :: 0 < live[s] && s + live[s] <= UNITS)
    && forall s, t | s in live && t in live && s < t :: s + live[s] <= t
  }

  /** No run meets [u, u + n). */
  ghost predicate Vacant(live: map<nat, nat>, u: nat, n: nat) {
    u + n <= UNITS && forall k | u <= k < u + n :: !Taken(live, k)
  }

  lemma AddRun(live: map<nat, nat>, u: nat, n: nat)
    requires Runs(live) && 0 < n && Vacant(live, u, n)
    ensures u !in live && Runs(live[u := n])
    ensures forall k: nat :: Taken(live[u := n], k) <==> Taken(live, k) || u <= k < u + n
  {
    forall t: nat | u <= t < u + n ensures t !in live {
      assert !Taken(live, t) && !In(live, t, t);
    }
    var live' := live[u := n];
    forall k: nat ensures Taken(live', k) <==> Taken(live, k) || u <= k < u + n {
      if s: nat :| In(live', s, k) {
        assert s != u ==> In(live, s, k);
      }
      if s: nat :| In(live, s, k) {
        assert In(live', s, k);
      }
      if u <= k < u + n {
        assert In(live', u, k);
      }
    }
    forall s, t | s in live' && t in live' && s < t ensures s + live'[s] <= t {
      if t == u {
        assert !Taken(live, u) && !In(live, s, u);
      }
    }
  }

  lemma DropRun(live: map<nat, nat>, u: nat)
    requires Runs(live) && u in live
    ensures Runs(live - {u})
    ensures forall k: nat :: Taken(live - {u}, k) <==> Taken(live, k) && !(u <= k < u + live[u])
  {
    var live' := live - {u};
    forall k: nat ensures Taken(live', k) <==> Taken(live, k) && !(u <= k < u + live[u]) {
      if s: nat :| In(live', s, k) {
        assert In(live, s, k);
      }
      if !(u <= k < u + live[u]) {
        if s: nat :| In(live, s, k) {
          assert In(live', s, k);
        }
      }
    }
  }

  // ------------------------------------------------------------------
  // Counting
  // ------------------------------------------------------------------

  function Count(bits: seq<bool>): nat {
    if bits == [] then 0 else (if bits[0] then 1 else 0) + Count(bits[1..])
  }

  lemma {:induction false} CountConcat(a: seq<bool>, b: seq<bool>)
    ensures Count(a + b) == Count(a) + Count(b)
  {
    if a == [] {
      assert a + b == b;
    } else {
      CountConcat(a[1..], b);
      assert (a + b)[1..] == a[1..] + b;
    }
  }

  lemma {:induction false} CountSame(bits: seq<bool>, v: bool)
    requires forall k | 0 <= k < |bits| :: bits[k] == v
    ensures Count(bits) == if v then |bits| else 0
  {
    if bits != [] {
      CountSame(bits[1..], v);
    }
  }

  /** Marking n clear bits raises the count by n. */
  lemma {:induction false} CountMarked(a: seq<bool>, b: seq<bool>, u: nat, n: nat)
    requires |a| == |b| && u + n <= |a|
    requires forall k | 0 <= k < |a| :: if u <= k < u + n then !a[k] && b[k] else b[k] == a[k]
    ensures Count(b) == Count(a) + n
    decreases |a|
  {
    if a != [] {
      CountMarked(a[1..], b[1..], if u > 0 then u - 1 else 0, if u == 0 < n then n - 1 else n);
    }
  }

  lemma CountTail(bits: seq<bool>, lo: nat, hi: nat, v: bool)
    requires lo <= hi <= |bits| && forall k | lo <= k < hi :: bits[k] == v
    ensures Count(bits[..hi]) == Count(bits[..lo]) + if v then hi - lo else 0
  {
    assert bits[..hi] == bits[..lo] + bits[lo..hi];
    CountConcat(bits[..lo], bits[lo..hi]);
    CountSame(bits[lo..hi], v);
  }

  /** The counter is the total length of the runs. */
  function Total(live: map<nat, nat>, hi: nat): nat {
    if hi == 0 then 0 else Total(live, hi - 1) + if hi - 1 in live then live[hi - 1] else 0
  }

  lemma {:induction false} CountIsTotal(live: map<nat, nat>, bits: seq<bool>, hi: nat)
    requires Runs(live) && |bits| == UNITS && (forall k | 0 <= k < UNITS :: bits[k] <==> Taken(live, k))
    requires hi <= UNITS && forall s | s in live && s < hi :: s + live[s] <= hi
    ensures Count(bits[..hi]) == Total(live, hi)
    decreases hi
  {
    if hi > 0 {
      if Taken(live, hi - 1) {
        var s: nat :| In(live, s, hi - 1);
        assert s + live[s] == hi;
        forall t | t in live && t < s ensures t + live[t] <= s {
        }
        CountIsTotal(live, bits, s);
        forall k | s <= k < hi ensures bits[k] {
          assert In(live, s, k);
        }
        CountTail(bits, s, hi, true);
        TotalSkips(live, s + 1, hi);
      } else {
        assert hi - 1 !in live by {
          assert !In(live, hi - 1, hi - 1);
        }
        forall s | s in live && s < hi - 1 ensures s + live[s] <= hi - 1 {
          assert !In(live, s, hi - 1);
        }
        CountIsTotal(live, bits, hi - 1);
        CountTail(bits, hi - 1, hi, false);
      }
    }
  }

  lemma {:induction false} TotalSkips(live: map<nat, nat>, lo: nat, hi: nat)
    requires lo <= hi && forall s | lo <= s < hi :: s !in live
    ensures Total(live, hi) == Total(live, lo)
    decreases hi
  {
    if lo < hi {
      TotalSkips(live, lo, hi - 1);
    }
  }

  // ------------------------------------------------------------------
  // Requests
  // ------------------------------------------------------------------

  predicate PowerOfTwo(n: nat) { n == 1 || (n > 1 && n % 2 == 0 && PowerOfTwo(n / 2)) }

  /** Units for `size` bytes, in 32-bit arithmetic. */
  function UnitsFor(size: nat): nat
    requires size < WORD32
  {
    (if size + 15 < WORD32 then size + 15 else size + 15 - WORD32) / 16
  }

  function AlignOf(align: nat): nat { if align == 0 then GRANULE else align }

  predicate Proper(size: nat, align: nat)
    requires size < WORD32
  {
    size != 0 && GRANULE <= AlignOf(align) && PowerOfTwo(AlignOf(align)) && 0 < UnitsFor(size) <= UNITS
  }

  lemma {:induction false} PowersDivide(a: nat, b: nat)
    requires PowerOfTwo(a) && PowerOfTwo(b) && a <= b
    ensures b % a == 0
    decreases b
  {
    if a < b {
      if a == 1 {
      } else {
        PowersDivide(a / 2, b / 2);
        var q := b / 2 / (a / 2);
        assert b / 2 == q * (a / 2);
        assert b == q * a by { assert b == 2 * (b / 2) && a == 2 * (a / 2); }
        Multiple(q, a);
      }
    } else {
      Multiple(1, a);
    }
  }

  /** The address handed out is aligned as asked exactly for alignments that divide
      the region's base, which is those up to 2 MB. */
  lemma AlignedIff(align: nat, u: nat)
    requires GRANULE <= AlignOf(align) && PowerOfTwo(AlignOf(align)) && u < UNITS && u % (AlignOf(align) / 16) == 0
    ensures (BASE + u * 16) % AlignOf(align) == 0 <==> AlignOf(align) <= 0x20_0000
  {
    var a := AlignOf(align);
    SixteenDivides(a);
    if a <= 0x20_0000 {
      assert PowerOfTwo(0x20_0000) by { TwoMegabytes(); }
      PowersDivide(a, 0x20_0000);
      var p, q := 0x20_0000 / a, u / (a / 16);
      assert 0x20_0000 == p * a;
      assert u == q * (a / 16);
      assert u * 16 == q * a by { assert a == 16 * (a / 16); }
      assert BASE + u * 16 == (p + q) * a;
      Multiple(p + q, a);
    } else {
      assert PowerOfTwo(0x20_0000) by { TwoMegabytes(); }
      assert a >= 0x40_0000 by { NextPower(a); }
      assert u < a / 16;
      DivModUnique(u, a / 16, 0, u);
      DivModUnique(BASE, a, 0, BASE);
    }
  }

  lemma TwoMegabytes()
    ensures PowerOfTwo(0x20_0000)
  {
    SixteenTimes(1);
    SixteenTimes(0x10);
    SixteenTimes(0x100);
    SixteenTimes(0x1000);
    SixteenTimes(0x1_0000);
    Doubled(0x10_0000);
  }

  lemma SixteenTimes(n: nat)
    requires PowerOfTwo(n)
    ensures PowerOfTwo(16 * n)
  {
    Doubled(n);
    Doubled(2 * n);
    Doubled(4 * n);
    Doubled(8 * n);
  }

  lemma Doubled(n: nat)
    requires PowerOfTwo(n)
    ensures PowerOfTwo(2 * n)
  {
    assert 2 * n / 2 == n;
  }

  lemma SixteenDivides(a: nat)
    requires PowerOfTwo(a) && a >= 16
    ensures a % 16 == 0
  {
    assert PowerOfTwo(16);
    PowersDivide(16, a);
  }

  lemma NextPower(a: nat)
    requires PowerOfTwo(a) && a > 0x20_0000
    ensures a >= 0x40_0000
  {
    TwoMegabytes();
    PowersDivide(0x20_0000, a);
  }

  /** First multiple of `step` from u on at which n units are vacant, or UNITS. */
  ghost function Lowest(live: map<nat, nat>, u: nat, step: nat, n: nat): (r: nat)
    requires step > 0 && 0 < n <= UNITS
    decreases UNITS - u
  {
    if u > UNITS - n then UNITS
    else if Vacant(live, u, n) then u
    else Lowest(live, u + step, step, n)
  }

  lemma LowestStep(live: map<nat, nat>, u: nat, step: nat, n: nat)
    requires step > 0 && 0 < n <= UNITS && u <= UNITS - n && !Vacant(live, u, n)
    ensures Lowest(live, u, step, n) == Lowest(live, u + step, step, n)
  {
  }

  /** Nothing suitably aligned is overlooked. */
  lemma {:induction false} LowestIsLowest(live: map<nat, nat>, u: nat, step: nat, n: nat)
    requires step > 0 && 0 < n <= UNITS && u % step == 0
    ensures var r := Lowest(live, u, step, n);
            && (r < UNITS ==> u <= r && r % step == 0 && Vacant(live, r, n)) && r <= UNITS
            && forall k | u <= k < r && k % step == 0 :: !Vacant(live, k, n)
    decreases UNITS - u
  {
    if u > UNITS - n {
    } else if !Vacant(live, u, n) {
      NextMultiple(u, step);
      LowestIsLowest(live, u + step, step, n);
    }
  }

  /** A request that can be met at all: something, an alignment that is a power of
      two of 16 or more (or none given), and a size that does not wrap when rounded. */
  predicate Sensible(size: nat, align: nat) {
    0 < size <= 0xFFFF_FFF0 && (align == 0 || (align >= 16 && PowerOfTwo(align)))
  }

  /** The size bytes from unit u on meet no run, and u is a multiple of the alignment
      from the start of the region. */
  ghost predicate Suits(live: map<nat, nat>, u: nat, size: nat, align: nat) {
    && (align != 0 ==> u * 16 % align == 0)
    && u * 16 + size <= SIZE
    && forall k: nat | Taken(live, k) :: 16 * k + 16 <= u * 16 || u * 16 + size <= 16 * k
  }

  lemma UnitsSuffice(size: nat)
    requires 0 < size <= 0xFFFF_FFF0
    ensures 0 < UnitsFor(size) && size <= 16 * UnitsFor(size) < size + 16
  {
  }

  /** A unit is a multiple of the step exactly when its bytes are of the alignment. */
  lemma StepIff(u: nat, align: nat)
    requires align >= 16 && PowerOfTwo(align)
    ensures align / 16 > 0 && (u % (align / 16) == 0 <==> u * 16 % align == 0)
  {
    SixteenDivides(align);
    SixteenFold(u, align / 16);
  }

  lemma SixteenFold(u: nat, step: nat)
    requires step > 0
    ensures u % step == 0 <==> u * 16 % (16 * step) == 0
  {
    var q, r := u / step, u % step;
    assert u == q * step + r;
    assert q * (16 * step) == 16 * (q * step);
    DivModUnique(u * 16, 16 * step, q, r * 16);
  }

  lemma SuitsIff(live: map<nat, nat>, u: nat, size: nat, align: nat)
    requires Sensible(size, align)
    ensures AlignOf(align) / 16 > 0
    ensures Suits(live, u, size, align) <==>
            u % (AlignOf(align) / 16) == 0 && Vacant(live, u, UnitsFor(size))
  {
    UnitsSuffice(size);
    if align != 0 {
      StepIff(u, align);
    }
  }

  lemma NeverFits(live: map<nat, nat>, size: nat, align: nat)
    requires size > SIZE
    ensures forall u: nat :: !Suits(live, u, size, align)
  {
  }

  /** What the search finds is the lowest place that suits. */
  lemma RequestIs(live: map<nat, nat>, size: nat, align: nat)
    requires size < WORD32
    ensures Proper(size, align) <==> Sensible(size, align) && size <= SIZE
    ensures size > SIZE ==> forall u: nat :: !Suits(live, u, size, align)
    ensures Proper(size, align) ==>
              AlignOf(align) / 16 > 0 &&
              var r := Lowest(live, 0, AlignOf(align) / 16, UnitsFor(size));
              && (forall u: nat | u < r :: !Suits(live, u, size, align))
              && (r < UNITS ==> Suits(live, r, size, align) && Vacant(live, r, UnitsFor(size)))
              && size <= 16 * UnitsFor(size) < size + 16
              && (r >= UNITS ==> r == UNITS && forall u: nat :: !Suits(live, u, size, align))
  {
    if size > SIZE {
      NeverFits(live, size, align);
    }
    assert PowerOfTwo(16);
    if Proper(size, align) {
      SixteenDivides(AlignOf(align));
      LowestIsLowest(live, 0, AlignOf(align) / 16, UnitsFor(size));
      forall u: nat ensures Suits(live, u, size, align) <==>
                            u % (AlignOf(align) / 16) == 0 && Vacant(live, u, UnitsFor(size)) {
        SuitsIff(live, u, size, align);
      }
    }
  }

  // ------------------------------------------------------------------
  // The allocator
  // ------------------------------------------------------------------

  class Pool {
    const bitmap: array<bool>
    const runs: array<nat>
    const data: array<Byte>
    var unitsUsed: nat
    ghost var live: map<nat, nat>

    ghost predicate Valid()
      reads this, bitmap, runs
    {
      && bitmap.Length == UNITS && runs.Length == UNITS && data.Length == SIZE
      && Runs(live)
      && (forall k | 0 <= k < UNITS :: bitmap[k] <==> Taken(live, k))
      && (forall u | 0 <= u < UNITS :: runs[u] == if u in live then live[u] else 0)
      && unitsUsed == Count(bitmap[..])
    }

    constructor ()
      ensures Valid() && live == map[] && fresh(bitmap) && fresh(runs) && fresh(data)
    {
      bitmap := new bool[UNITS](_ => false);
      runs := new nat[UNITS](_ => 0);
      data := new Byte[SIZE](_ => 0);
      unitsUsed, live := 0, map[];
      new;
      CountSame(bitmap[..], false);
    }

    /** Are [u, u + n) all free? */
    method RangeFree(u: nat, n: nat) returns (free: bool)
      requires Valid()
      ensures free <==> Vacant(live, u, n)
    {
      if u + n > UNITS {
        return false;
      }
      var i := 0;
      while i < n
        invariant 0 <= i <= n && forall k | u <= k < u + i :: !Taken(live, k)
      {
        if bitmap[u + i] {
          return false;
        }
        i := i + 1;
      }
      free := true;
    }

    method Mark(u: nat, n: nat, v: bool)
      requires bitmap.Length == UNITS && u + n <= UNITS
      modifies bitmap
      ensures forall k | 0 <= k < UNITS :: bitmap[k] == if u <= k < u + n then v else old(bitmap[k])
    {
      for i := 0 to n
        invariant forall k | 0 <= k < UNITS :: bitmap[k] == if u <= k < u + i then v else old(bitmap[k])
      {
        bitmap[u + i] := v;
      }
    }

    /** The lowest aligned vacant run becomes live; 0 when the request is improper or
        no such run exists. */
    method Alloc(size: nat, align: nat) returns (p: nat)
      requires Valid() && size < WORD32
      modifies this, bitmap, runs
      ensures Valid()
      ensures p == 0 ==> live == old(live)
      ensures p == 0 <==> !Sensible(size, align) || forall u: nat :: !Suits(old(live), u, size, align)
      ensures p != 0 ==>
                p >= 0x20_0000 && (p - 0x20_0000) % 16 == 0 &&
                var u := (p - 0x20_0000) / 16;
                && Suits(old(live), u, size, align) && (forall k | 0 <= k < u :: !Suits(old(live), k, size, align))
                && u !in old(live) && u in live && live == old(live)[u := live[u]]
                && size <= 16 * live[u] < size + 16
    {
      var u, units := Find(size, align);
      if u == UNITS {
        return 0;
      }
      Claim(u, units);
      p := BASE + u * 16;
    }

    /** Where a request goes, or UNITS, and how many units it takes. */
    method Find(size: nat, align: nat) returns (u: nat, units: nat)
      requires Valid() && size < WORD32
      ensures u == UNITS <==> !Sensible(size, align) || forall k: nat :: !Suits(live, k, size, align)
      ensures u != UNITS ==>
                && Suits(live, u, size, align) && (forall k | 0 <= k < u :: !Suits(live, k, size, align))
                && 0 < units && size <= 16 * units < size + 16 && Vacant(live, u, units)
    {
      RequestIs(live, size, align);
      u, units := UNITS, 0;
      if size == 0 {
        return;
      }
      var a := if align == 0 then GRANULE else align;
      if a < GRANULE || !PowerOfTwo(a) {
        return;
      }
      units := UnitsFor(size);
      if units == 0 || units > UNITS || units > 0xFFFF {
        return;
      }
      u := Search(units, a / 16);
    }

    /** The lowest multiple of `step` at which `units` units are vacant, or UNITS. */
    method Search(units: nat, step: nat) returns (u: nat)
      requires Valid() && step > 0 && 0 < units <= UNITS
      ensures u == Lowest(live, 0, step, units)
    {
      u := 0;
      while u <= UNITS - units
        invariant Lowest(live, u, step, units) == Lowest(live, 0, step, units)
        decreases UNITS - u
      {
        var free := RangeFree(u, units);
        if free {
          return;
        }
        LowestStep(live, u, step, units);
        u := u + step;
      }
      u := UNITS;
    }

    method Claim(u: nat, n: nat)
      requires Valid() && 0 < n && Vacant(live, u, n)
      modifies this, bitmap, runs
      ensures Valid() && u !in old(live) && live == old(live)[u := n]
    {
      AddRun(live, u, n);
      Mark(u, n, true);
      CountMarked(old(bitmap[..]), bitmap[..], u, n);
      runs[u] := n;
      unitsUsed := unitsUsed + n;
      live := live[u := n];
    }

    /** Only the start of a live run is freed: its bytes become zero, no other byte
        changes. Any other address changes nothing at all. */
    method Free(p: nat)
      requires Valid()
      modifies this, bitmap, runs, data
      ensures Valid()
      ensures var u := (p - BASE) / 16;
              if p >= BASE && (p - BASE) % 16 == 0 && u in old(live) then
                && live == old(live) - {u}
                && u * 16 + old(live)[u] * 16 <= SIZE
                && forall i | 0 <= i < SIZE ::
                     data[i] == if u * 16 <= i < u * 16 + old(live)[u] * 16 then 0 else old(data[i])
              else
                live == old(live) && data[..] == old(data[..]) && bitmap[..] == old(bitmap[..])
                    && runs[..] == old(runs[..])
                && unitsUsed == old(unitsUsed)
    {
      if p == 0 || p < BASE || p >= BASE + SIZE || (p - BASE) % 16 != 0 {
        return;
      }
      var u := (p - BASE) / 16;
      var n := runs[u];
      if n != 0 {
        DropRun(live, u);
        Zero(u * 16, n * 16);
        Mark(u, n, false);
        Unmarked(old(bitmap[..]), bitmap[..], u, n, live);
        runs[u] := 0;
        unitsUsed := unitsUsed - n;
        live := live - {u};
      }
    }

    method Zero(lo: nat, n: nat)
      requires lo + n <= data.Length
      modifies data
      ensures forall i | 0 <= i < data.Length :: data[i] == if lo <= i < lo + n then 0 else old(data[i])
    {
      for j := 0 to n
        invariant forall i | 0 <= i < data.Length :: data[i] == if lo <= i < lo + j then 0 else old(data[i])
      {
        data[lo + j] := 0;
      }
    }

    /** Free bytes: the region less the total of the live runs. */
    method FreeBytes() returns (n: nat)
      requires Valid()
      ensures Total(live, UNITS) <= UNITS && n == (UNITS - Total(live, UNITS)) * 16
    {
      CountIsTotal(live, bitmap[..], UNITS);
      assert bitmap[..][..UNITS] == bitmap[..];
      CountBound(bitmap[..]);
      n := (UNITS - unitsUsed) * 16;
    }
  }

  lemma Unmarked(a: seq<bool>, b: seq<bool>, u: nat, n: nat, live: map<nat, nat>)
    requires |a| == |b| == UNITS && u in live && live[u] == n && u + n <= UNITS
    requires forall k | 0 <= k < UNITS :: a[k] <==> Taken(live, k)
    requires forall k | 0 <= k < UNITS :: b[k] == if u <= k < u + n then false else a[k]
    ensures Count(b) + n == Count(a)
  {
    forall k | u <= k < u + n ensures a[k] {
      assert In(live, u, k);
    }
    CountMarked(b, a, u, n);
  }

  lemma {:induction false} CountBound(bits: seq<bool>)
    ensures Count(bits) <= |bits|
  {
    if bits != [] {
      CountBound(bits[1..]);
    }
  }
}
