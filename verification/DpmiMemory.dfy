/** Memory of a DPMI client: linear ranges are reserved by INT 31h AX=0501h and
    given back by 0502h; a page is committed to a physical frame when it is first
    touched. */
module DpmiMemory {
  import opened Numbers

  const PAGE: nat := 0x1000
  const ZONE_START: nat := 0x0200_0000
  const ZONE_END: nat := 0xF000_0000
  const CAP: nat := 6144
  const SLOTS: nat := 64

  // ------------------------------------------------------------------
  // Reservations
  // ------------------------------------------------------------------

  datatype MemBlock = MemBlock(base: nat, size: nat, active: bool)

  /** A request rounded up to pages in 32-bit arithmetic; nothing becomes a page. */
  function Rounded(size: nat): nat
    requires size < WORD32
  {
    var s := (if size + 0xFFF < WORD32 then size + 0xFFF else size + 0xFFF - WORD32) / 0x1000 * 0x1000;
    if s == 0 then PAGE else s
  }

  /** What is reserved for a request when the next free address is `next`: never
      more than the zone has left. */
  function Granted(next: nat, size: nat): nat
    requires size < WORD32 && next < ZONE_END
  {
    if Rounded(size) > ZONE_END - next then ZONE_END - next else Rounded(size)
  }

  /** Largest block reported by 0500h: the rest of the zone or of the commit budget. */
  function Reported(next: nat, committed: nat): nat {
    var linear := if next < ZONE_END then ZONE_END - next else 0;
    var budget := if committed < CAP then (CAP - committed) * 0x1000 else 0;
    if linear < budget then linear else budget
  }

  function FirstFree(bs: seq<MemBlock>): (i: nat)
    ensures i <= |bs| && (i < |bs| ==> !bs[i].active) && forall j | 0 <= j < i :: bs[j].active
  {
    if bs == [] then 0
    else if !bs[0].active then 0
    else
      var r := FirstFree(bs[1..]);
      assert forall j | 1 <= j < 1 + r :: bs[j] == bs[1..][j - 1];
      1 + r
  }

  /** Index of the first block reserved at `base`, or the length. */
  function BlockAt(bs: seq<MemBlock>, base: nat): (i: nat)
    ensures i <= |bs| && (i < |bs| ==> bs[i].active && bs[i].base == base)
    ensures forall j | 0 <= j < i :: !(bs[j].active && bs[j].base == base)
  {
    if bs == [] then 0
    else if bs[0].active && bs[0].base == base then 0
    else
      var r := BlockAt(bs[1..], base);
      assert forall j | 1 <= j < 1 + r :: bs[j] == bs[1..][j - 1];
      1 + r
  }

  predicate WellPlaced(b: MemBlock, next: nat) {
    b.active ==>
      && ZONE_START <= b.base && b.base % 0x1000 == 0
      && b.size > 0 && b.size % 0x1000 == 0 && b.base + b.size <= next
  }

  predicate Apart(a: MemBlock, b: MemBlock) {
    a.active && b.active ==> a.base + a.size <= b.base || b.base + b.size <= a.base
  }

  /** Reservations are page-aligned, inside the zone, below `next` and disjoint.
      Folded by `Shown`. */
  ghost predicate Reserved(bs: seq<MemBlock>, next: nat) {
    && |bs| == SLOTS && ZONE_START <= next <= ZONE_END && next % 0x1000 == 0
    && forall z {:trigger Shown(z)} | Shown(z) ::
         (forall i | 0 <= i < |bs| :: WellPlaced(bs[i], next)) && forall i, j | 0 <= i < j < |bs| :: Apart(bs[i], bs[j])
  }

  /** A reservation is at least as long as requested exactly when the request does
      not wrap while being rounded and fits the rest of the zone. */
  lemma LongEnoughIff(next: nat, size: nat)
    requires ZONE_START <= next < ZONE_END && next % 0x1000 == 0 && size < WORD32
    ensures size <= Granted(next, size) <==> size <= ZONE_END - next
    ensures size > 0xFFFF_F000 ==> Granted(next, size) == PAGE
  {
  }

  /** Whatever 0500h reports, unless it is nothing, 0501h reserves in full. */
  lemma ReportedIsReservable(next: nat, committed: nat)
    requires ZONE_START <= next <= ZONE_END && next % 0x1000 == 0 && Reported(next, committed) > 0
    ensures next < ZONE_END && Reported(next, committed) < WORD32
    ensures Granted(next, Reported(next, committed)) == Reported(next, committed)
  {
  }

  /** What 0500h reports fits the rest of the zone and of the commit budget, and nothing
      larger fits both. */
  lemma ReportedIsLargest(next: nat, committed: nat, n: nat)
    requires 0x0200_0000 <= next <= 0xF000_0000
    ensures next + Reported(next, committed) <= 0xF000_0000
    ensures committed <= 6144 ==> 0x1000 * committed + Reported(next, committed) <= 0x1000 * 6144
    ensures next + n <= 0xF000_0000 && 0x1000 * committed + n <= 0x1000 * 6144 ==> n <= Reported(next, committed)
    ensures committed > 6144 ==> Reported(next, committed) == 0
  {
  }

  /** What 0501h reserves for a request is whole pages: the fewest that hold it, a page
      for nothing or a request that wraps when rounded, and never more than the zone has
      left. */
  lemma GrantedIs(next: nat, size: nat)
    requires 0x0200_0000 <= next < 0xF000_0000 && next % 0x1000 == 0 && size < WORD32
    ensures var n, left := Granted(next, size), 0xF000_0000 - next;
            && n % 0x1000 == 0 && 0 < n <= left
            && (0 < size <= 0xFFFF_F000 && n < left ==> size <= n < size + 0x1000)
            && (0 < size <= 0xFFFF_F000 && n == left ==> left < size + 0x1000)
            && (size == 0 || size > 0xFFFF_F000 ==> n == 0x1000)
  {
  }

  lemma ReserveKeeps(bs: seq<MemBlock>, next: nat, i: nat, size: nat)
    requires Reserved(bs, next) && i < |bs| && !bs[i].active && next < ZONE_END && size < WORD32
    ensures Reserved(bs[i := MemBlock(next, Granted(next, size), true)], next + Granted(next, size))
  {
  }

  /** No page belongs to two reservations, and none lies outside the zone. */
  lemma PagesApart(bs: seq<MemBlock>, next: nat, i: nat, j: nat, p: nat)
    requires Reserved(bs, next) && i < |bs| && InBlock(bs[i], p)
    ensures 0x0200_0000 <= 0x1000 * p < 0x1000 * p + 0xFFF < next <= 0xF000_0000
    ensures j < |bs| && InBlock(bs[j], p) ==> i == j
  {
    assert Shown(0);
    assert WellPlaced(bs[i], next);
    assert j < |bs| ==> WellPlaced(bs[j], next);
  }

  lemma DropKeeps(bs: seq<MemBlock>, next: nat, i: nat)
    requires Reserved(bs, next) && i < |bs|
    ensures WellPlaced(bs[i], next) && Reserved(bs[i := bs[i].(active := false)], next)
  {
    assert Shown(0);
  }

  // ------------------------------------------------------------------
  // Frames
  // ------------------------------------------------------------------

  /** What a physical frame is used for. */
  datatype Use = Free | Page(page: nat) | Table(dir: nat)

  predicate InZone(p: nat) { ZONE_START / 0x1000 <= p < ZONE_END / 0x1000 }

  /** The free frames, the page table entries of the zone and the page directory,
      with the use of every frame. */
  datatype Books = Books(use: map<nat, Use>, free: set<nat>, pages: map<nat, nat>, tables: map<nat, nat>)

  ghost predicate FreeOk(b: Books) {
    forall f :: f in b.free <==> f in b.use && b.use[f] == Free
  }

  predicate PagesOk(b: Books) {
    && (forall p | p in b.pages ::
          InZone(p) && b.pages[p] in b.use && b.use[b.pages[p]] == Page(p) && p / 1024 in b.tables)
    && forall f | f in b.use && b.use[f].Page? :: b.use[f].page in b.pages && b.pages[b.use[f].page] == f
  }

  predicate TablesOk(b: Books) {
    && (forall d | d in b.tables :: b.tables[d] in b.use && b.use[b.tables[d]] == Table(d))
    && forall f | f in b.use && b.use[f].Table? :: b.use[f].dir in b.tables && b.tables[b.use[f].dir] == f
  }

  /** Everything agrees on one use for every frame, and the counter is the number of
      mapped pages. Folded by `Shown`. */
  ghost predicate Accounted(b: Books, committed: nat) {
    forall z {:trigger Shown(z)} | Shown(z) ::
      FreeOk(b) && PagesOk(b) && TablesOk(b) && committed == |b.pages| <= CAP
  }

  function WithPage(b: Books, p: nat, f: nat): Books {
    b.(use := b.use[f := Page(p)], free := b.free - {f}, pages := b.pages[p := f])
  }

  function WithTable(b: Books, d: nat, t: nat): Books {
    b.(use := b.use[t := Table(d)], free := b.free - {t}, tables := b.tables[d := t])
  }

  function WithoutPage(b: Books, p: nat): Books
    requires p in b.pages
  {
    b.(use := b.use[b.pages[p] := Free], free := b.free + {b.pages[p]}, pages := b.pages - {p})
  }

  lemma TakePagesOk(b: Books, p: nat, f: nat)
    requires PagesOk(b) && f in b.use && b.use[f] == Free && p !in b.pages && InZone(p) && p / 1024 in b.tables
    ensures PagesOk(WithPage(b, p, f))
  {
  }

  lemma TakeRestOk(b: Books, p: nat, f: nat)
    requires FreeOk(b) && TablesOk(b) && f in b.free
    ensures FreeOk(WithPage(b, p, f)) && TablesOk(WithPage(b, p, f))
  {
  }

  lemma TakePage(b: Books, committed: nat, p: nat, f: nat)
    requires Accounted(b, committed) && committed < CAP && f in b.free
    requires p !in b.pages && InZone(p) && p / 1024 in b.tables
    ensures f in b.use && Accounted(WithPage(b, p, f), committed + 1)
  {
    assert FreeOk(b) && PagesOk(b) && TablesOk(b) && committed == |b.pages| by {
      assert Shown(0);
    }
    TakePagesOk(b, p, f);
    TakeRestOk(b, p, f);
    assert b.pages[p := f] - {p} == b.pages;
  }

  /** Page p, not mapped before, has one of the free frames, its table is there, with
      another one if it had to be made, and nothing else has changed. Folded by
      `Shown`. */
  ghost predicate Mapped(b: Books, b': Books, p: nat) {
    forall z {:trigger Shown(z)} | Shown(z) ::
      var d := p / 1024;
      && p !in b.pages && p in b'.pages && b'.pages == b.pages[p := b'.pages[p]] && b'.pages[p] in b.free
      && d in b'.tables && b'.tables == b.tables[d := b'.tables[d]]
      && if d in b.tables then b'.tables[d] == b.tables[d] && b'.free == b.free - {b'.pages[p]}
         else b'.tables[d] in b.free && b'.tables[d] != b'.pages[p] && b'.free == b.free - {b'.tables[d], b'.pages[p]}
  }

  lemma PageMapped(b: Books, p: nat, f: nat, t: nat)
    requires p !in b.pages && f in b.free
    ensures p / 1024 in b.tables ==> Mapped(b, WithPage(b, p, f), p)
    ensures p / 1024 !in b.tables && t in b.free && t != f ==> Mapped(b, WithPage(WithTable(b, p / 1024, t), p, f), p)
  {
  }

  lemma TableTaken(b: Books, d: nat, t: nat)
    requires FreeOk(b) && PagesOk(b) && t in b.free
    ensures FreeOk(WithTable(b, d, t)) && PagesOk(WithTable(b, d, t))
  {
  }

  lemma TableOwned(b: Books, d: nat, t: nat)
    requires TablesOk(b) && FreeOk(b) && t in b.free && d !in b.tables
    ensures TablesOk(WithTable(b, d, t))
  {
  }

  lemma TakeTable(b: Books, committed: nat, d: nat, t: nat)
    requires Accounted(b, committed) && t in b.free && d !in b.tables
    ensures t in b.use && Accounted(WithTable(b, d, t), committed)
  {
    assert FreeOk(b) && PagesOk(b) && TablesOk(b) && committed == |b.pages| <= CAP by {
      assert Shown(0);
    }
    TableTaken(b, d, t);
    TableOwned(b, d, t);
  }

  lemma GivePageOk(b: Books, p: nat)
    requires PagesOk(b) && p in b.pages
    ensures PagesOk(WithoutPage(b, p))
  {
  }

  lemma GiveRestOk(b: Books, p: nat)
    requires PagesOk(b) && FreeOk(b) && TablesOk(b) && p in b.pages
    ensures FreeOk(WithoutPage(b, p)) && TablesOk(WithoutPage(b, p))
  {
  }

  lemma GivePage(b: Books, committed: nat, p: nat)
    requires Accounted(b, committed) && p in b.pages
    ensures b.pages[p] in b.use && committed > 0 && |WithoutPage(b, p).pages| == |b.pages| - 1
    ensures Accounted(WithoutPage(b, p), committed - 1)
  {
    assert FreeOk(b) && PagesOk(b) && TablesOk(b) && committed == |b.pages| <= CAP by {
      assert Shown(0);
    }
    GivePageOk(b, p);
    GiveRestOk(b, p);
    assert (b.pages - {p}).Keys == b.pages.Keys - {p};
  }

  /** Maps that are inverse to each other have the same size. */
  lemma {:induction false} InverseCount(m: map<nat, nat>, inv: map<nat, nat>)
    requires forall p | p in m :: m[p] in inv && inv[m[p]] == p
    requires forall f | f in inv :: inv[f] in m && m[inv[f]] == f
    ensures |m| == |inv|
    decreases |m|
  {
    if m.Keys == {} {
      assert inv.Keys == {} by {
        if f :| f in inv.Keys { assert inv[f] in m.Keys; }
      }
    } else {
      var p :| p in m.Keys;
      var m', inv' := m - {p}, inv - {m[p]};
      assert m'.Keys == m.Keys - {p} && inv'.Keys == inv.Keys - {m[p]};
      InverseCount(m', inv');
    }
  }

  function PageOf(use: map<nat, Use>): map<nat, nat> { map f | f in use && use[f].Page? :: use[f].page }
  function TableOf(use: map<nat, Use>): map<nat, nat> { map f | f in use && use[f].Table? :: use[f].dir }

  lemma ThreeParts(u: set<nat>, a: set<nat>, b: set<nat>, c: set<nat>)
    requires forall f :: f in u <==> f in a || f in b || f in c
    requires a !! b && a !! c && b !! c
    ensures |u| == |a| + |b| + |c|
  {
    assert u == a + b + c;
    assert (a + b) !! c;
  }

  lemma UsesSplit(b: Books)
    requires FreeOk(b)
    ensures |b.use| == |b.free| + |PageOf(b.use)| + |TableOf(b.use)|
  {
    var pages, tables := PageOf(b.use).Keys, TableOf(b.use).Keys;
    forall f ensures f in b.use.Keys <==> f in b.free || f in pages || f in tables {
      if f in b.use {
        assert b.use[f].Free? || b.use[f].Page? || b.use[f].Table?;
      }
    }
    ThreeParts(b.use.Keys, b.free, pages, tables);
  }

  /** No frame is lost and none is used twice: every frame is free, backs one mapped
      page or is one page table. */
  lemma FramesConserved(b: Books, committed: nat)
    requires Accounted(b, committed)
    ensures committed == |b.pages| && |b.use| == |b.free| + |b.pages| + |b.tables|
  {
    assert Shown(0);
    InverseCount(b.pages, PageOf(b.use));
    InverseCount(b.tables, TableOf(b.use));
    UsesSplit(b);
  }

  // ------------------------------------------------------------------
  // The client
  // ------------------------------------------------------------------

  datatype Call = Alloc(size: nat) | Dealloc(base: nat) | Touch(addr: nat) | End

  datatype Outcome = Committed | Refused | Halted

  class ClientMemory {
    const blocks: array<MemBlock>
    var next: nat
    var committed: nat
    var free: set<nat>
    var pages: map<nat, nat>
    var tables: map<nat, nat>
    var halted: bool
    ghost var use: map<nat, Use>

    ghost function Now(): Books
      reads this
    {
      Books(use, free, pages, tables)
    }

    /** The state of a client that goes on. */
    ghost predicate Valid()
      reads this, blocks
    {
      !halted && Reserved(blocks[..], next) && Accounted(Now(), committed)
    }

    constructor (frames: set<nat>)
      ensures Valid() && fresh(blocks) && free == frames == use.Keys
      ensures pages == map[] && tables == map[] && committed == 0
      ensures next == ZONE_START && forall i | 0 <= i < SLOTS :: !blocks[i].active
    {
      blocks := new MemBlock[SLOTS](_ => MemBlock(0, 0, false));
      next, committed, free, pages, tables := ZONE_START, 0, frames, map[], map[];
      halted := false;
      use := map f | f in frames :: Free;
      new;
      assert Shown(0);
    }

    /** INT 31h AX=0501h. */
    method Reserve(size: nat) returns (ok: bool, base: nat)
      requires Valid() && size < WORD32
      modifies blocks, `next
      ensures Valid()
      ensures ok <==> FirstFree(old(blocks[..])) < SLOTS && old(next) < ZONE_END
      ensures !ok ==> blocks[..] == old(blocks[..]) && next == old(next)
      ensures ok ==>
                var i := FirstFree(old(blocks[..]));
                && base == old(next) && next == base + Granted(base, size)
                && blocks[..] == old(blocks[..])[i := MemBlock(base, Granted(base, size), true)]
    {
      var i := 0;
      while i < SLOTS && blocks[i].active
        invariant 0 <= i <= SLOTS && forall j | 0 <= j < i :: blocks[j].active
      {
        i := i + 1;
      }
      FirstFreeIs(blocks[..], i);
      if i == SLOTS {
        return false, 0;
      }
      var n := (if size + 0xFFF < WORD32 then size + 0xFFF else size + 0xFFF - WORD32) / 0x1000 * 0x1000;
      if n == 0 {
        n := PAGE;
      }
      base := next;
      if base < ZONE_START || base >= ZONE_END {
        return false, 0;
      }
      if n > ZONE_END - base {
        n := ZONE_END - base;
      }
      ReserveKeeps(blocks[..], next, i, size);
      blocks[i] := MemBlock(base, n, true);
      next := base + n;
      ok := true;
    }

    method AllocFrame() returns (f: nat, ok: bool)
      ensures ok <==> free != {}
      ensures ok ==> f in free
    {
      if free == {} {
        return 0, false;
      }
      f :| f in free;
      ok := true;
    }

    /** A fault on an unmapped page of the zone. It is refused at the cap or without
        a free frame. When the page needs a page table and the last frame went to the
        page itself, the page stays unmapped; clearing it then faults in the kernel,
        the nested commit is refused, and the kernel halts. */
    method Commit(cr2: nat) returns (o: Outcome)
      requires Valid() && ZONE_START <= cr2 < ZONE_END && cr2 / 0x1000 !in pages
      modifies `committed, `free, `pages, `tables, `use, `halted
      ensures o == if old(committed) >= CAP || old(free) == {} then Refused
                   else if cr2 / 0x1000 / 1024 !in old(tables) && |old(free)| == 1 then Halted
                   else Committed
      ensures halted <==> o == Halted
      ensures o != Halted ==> Valid() && use.Keys == old(use.Keys)
      ensures o == Halted ==> pages == old(pages) && tables == old(tables) && free == {}
      ensures o == Refused ==> Now() == old(Now()) && committed == old(committed)
      ensures o == Committed ==> committed == old(committed) + 1 && Mapped(old(Now()), Now(), cr2 / 0x1000)
    {
      if committed >= CAP {
        return Refused;
      }
      var f, found := AllocFrame();
      if !found {
        return Refused;
      }
      free := free - {f};
      ghost var was := old(Now());
      ghost var t := MapPage(cr2 / 0x1000, f, was);
      committed := committed + 1;
      if cr2 / 0x1000 !in pages {
        var g, more := AllocFrame();
        assert !more;
        halted := true;
        return Halted;
      }
      o := Committed;
    }

    /** Enter a page into its table, which may have to be made first. Without a frame
        for the table nothing happens. */
    method MapPage(p: nat, f: nat, ghost was: Books) returns (ghost t: nat)
      requires Accounted(was, committed) && committed < CAP && f in was.free && p !in was.pages && InZone(p)
      requires Now() == was.(free := was.free - {f})
      modifies `free, `pages, `tables, `use
      ensures use.Keys == was.use.Keys
      ensures p in pages ==> Mapped(was, Now(), p)
      ensures p / 1024 in was.tables ==> Now() == WithPage(was, p, f) && Accounted(Now(), committed + 1)
      ensures p / 1024 !in was.tables && |was.free| == 1 ==> Now() == old(Now()) && free == {}
      ensures p / 1024 !in was.tables && |was.free| > 1 ==>
                t in was.free - {f} && Accounted(Now(), committed + 1)
                && Now() == WithPage(WithTable(was, p / 1024, t), p, f)
    {
      t := 0;
      if p / 1024 !in tables {
        var found;
        found, t := AddTable(p / 1024, f, was);
        if !found {
          return;
        }
        TakeTable(was, committed, p / 1024, t);
        TakePage(WithTable(was, p / 1024, t), committed, p, f);
      } else {
        TakePage(was, committed, p, f);
      }
      pages, use := pages[p := f], use[f := Page(p)];
      PageMapped(was, p, f, t);
    }

    method AddTable(d: nat, f: nat, ghost was: Books) returns (found: bool, ghost t: nat)
      requires f in was.free && Now() == was.(free := was.free - {f})
      modifies `free, `tables, `use
      ensures found <==> |was.free| > 1
      ensures !found ==> Now() == old(Now()) && free == {}
      ensures found ==> t in was.free - {f} && Now() == WithTable(was, d, t).(free := was.free - {t} - {f})
    {
      OneLess(was.free, f);
      var g, ok := AllocFrame();
      found, t := ok, g;
      if found {
        free := free - {g};
        tables, use := tables[d := g], use[g := Table(d)];
        assert free == was.free - {g} - {f};
      }
    }

    /** Give the frames of [base, base + size) back. */
    method FreePages(base: nat, size: nat)
      requires Valid() && base % 0x1000 == 0 && size % 0x1000 == 0
      modifies `committed, `free, `pages, `use
      ensures Valid()
      ensures pages == Outside(old(pages), base / 0x1000, (base + size) / 0x1000)
      ensures old(committed) - committed == |old(pages)| - |pages|
      ensures OnlyFreed(old(use), use)
    {
      var off := 0;
      while off < size
        invariant off % 0x1000 == 0 && off <= size
        invariant Valid() && OnlyFreed(old(use), use)
        invariant pages == Outside(old(pages), base / 0x1000, (base + off) / 0x1000)
        invariant old(committed) - committed == |old(pages)| - |pages|
      {
        ghost var was := use;
        NextPage(old(pages), base, off, size);
        FreePage((base + off) / 0x1000);
        FreedMore(old(use), was, use);
        off := off + 0x1000;
      }
    }

    /** Give one page's frame back, if it has one. */
    method FreePage(p: nat)
      requires Valid()
      modifies `committed, `free, `pages, `use
      ensures Valid() && OnlyFreed(old(use), use) && pages == old(pages) - {p}
      ensures old(committed) - committed == |old(pages)| - |pages|
    {
      if p in pages {
        ghost var was := Now();
        GivePage(was, committed, p);
        var f := pages[p];
        pages := pages - {p};
        free := free + {f};
        use := use[f := Free];
        assert Now() == WithoutPage(was, p);
        if committed > 0 {
          committed := committed - 1;
        }
      } else {
        assert pages - {p} == pages;
      }
    }

    /** Drop reservation i and its committed pages. */
    method Drop(i: nat)
      requires Valid() && i < SLOTS && blocks[i].active
      modifies blocks, `committed, `free, `pages, `use
      ensures Valid() && use.Keys == old(use.Keys)
      ensures var b := old(blocks[i]);
              && blocks[..] == old(blocks[..])[i := b.(active := false)]
              && pages == Outside(old(pages), b.base / 0x1000, (b.base + b.size) / 0x1000)
              && old(committed) - committed == |old(pages)| - |pages|
    {
      var b := blocks[i];
      ghost var kept := blocks[..][i := b.(active := false)];
      DropKeeps(blocks[..], next, i);
      FreePages(b.base, b.size);
      blocks[i] := b.(active := false);
      assert blocks[..] == kept;
    }

    /** INT 31h AX=0502h: the block's committed pages go back, no other page. */
    method Release(base: nat) returns (ok: bool)
      requires Valid()
      modifies blocks, `committed, `free, `pages, `use
      ensures Valid() && use.Keys == old(use.Keys)
      ensures var i := BlockAt(old(blocks[..]), base);
              && (ok <==> i < SLOTS)
              && (!ok ==> blocks[..] == old(blocks[..]) && pages == old(pages) && free == old(free)
                          && committed == old(committed))
              && (ok ==> var b := old(blocks[..])[i];
                         && blocks[..] == old(blocks[..])[i := b.(active := false)]
                         && pages == Outside(old(pages), b.base / 0x1000, (b.base + b.size) / 0x1000)
                         && (forall p :: p in pages <==>
                               p in old(pages) && !(b.base <= 0x1000 * p < b.base + b.size))
                         && (forall p | p in pages :: pages[p] == old(pages)[p])
                         && old(committed) - committed == |old(pages)| - |pages|)
    {
      var i := 0;
      while i < SLOTS
        invariant 0 <= i <= SLOTS && forall j | 0 <= j < i :: !(blocks[j].active && blocks[j].base == base)
        invariant Valid()
      {
        if blocks[i].active && blocks[i].base == base {
          BlockAtIs(blocks[..], base, i);
          BlockAligned(blocks[..], next, i);
          Drop(i);
          return true;
        }
        i := i + 1;
      }
      BlockAtIs(blocks[..], base, SLOTS);
      ok := false;
    }

    /** The end of the client: every reservation and its pages are gone; pages
        committed outside reservations stay mapped and counted. */
    method ReleaseClient()
      requires Valid()
      modifies blocks, `committed, `free, `pages, `use
      ensures Valid() && use.Keys == old(use.Keys)
      ensures forall i | 0 <= i < SLOTS :: !blocks[i].active
      ensures forall p :: p in pages <==> p in old(pages) && !Covered(old(blocks[..]), p)
      ensures forall p | p in pages :: pages[p] == old(pages)[p]
      ensures old(committed) - committed == |old(pages)| - |pages|
    {
      ghost var before := blocks[..];
      var j := 0;
      while j < SLOTS
        invariant 0 <= j <= SLOTS
        invariant Valid() && use.Keys == old(use.Keys)
        invariant forall i | 0 <= i < SLOTS :: if i < j then !blocks[i].active else blocks[i] == before[i]
        invariant forall p :: p in pages <==> p in old(pages) && !Covered(before[..j], p)
        invariant forall p | p in pages :: pages[p] == old(pages)[p]
        invariant old(committed) - committed == |old(pages)| - |pages|
      {
        CoveredStep(before, j);
        if blocks[j].active {
          ghost var was := blocks[..];
          Drop(j);
          assert forall i | 0 <= i < SLOTS && i != j :: blocks[i] == blocks[..][i] == was[i];
          assert !blocks[..][j].active;
        }
        j := j + 1;
      }
      assert before[..SLOTS] == before;
    }

    /** Any sequence of calls and faults. Throughout, reservations stay aligned,
        disjoint and inside the zone, the counter is the number of mapped pages and
        within the cap, and no frame is lost. The run ends early only when a page
        needs a table and both cannot be had. */
    method Perform(calls: seq<Call>) returns (done: nat)
      requires Valid() && forall c | c in calls && c.Alloc? :: c.size < WORD32
      modifies this, blocks
      ensures done <= |calls|
      ensures !halted ==> done == |calls| && Valid() && next >= old(next) && use.Keys == old(use.Keys)
      ensures !halted ==> committed == |pages| <= CAP && |free| + |pages| + |tables| == |old(use)|
      ensures halted ==> done > 0 && calls[done - 1].Touch? && free == {}
                         && calls[done - 1].addr / 0x1000 / 1024 !in tables
    {
      done := 0;
      while done < |calls| && !halted
        invariant 0 <= done <= |calls|
        invariant !halted ==> Valid() && next >= old(next) && use.Keys == old(use.Keys)
        invariant halted ==> done > 0 && calls[done - 1].Touch? && free == {}
                             && calls[done - 1].addr / 0x1000 / 1024 !in tables
        decreases |calls| - done
      {
        match calls[done] {
        case Alloc(size) => var ok, base := Reserve(size);
        case Dealloc(base) => var ok := Release(base);
        case Touch(addr) =>
          if ZONE_START <= addr < ZONE_END && addr / 0x1000 !in pages {
            var o := Commit(addr);
          }
        case End => ReleaseClient();
        }
        done := done + 1;
      }
      if !halted {
        FramesConserved(Now(), committed);
        assert committed <= CAP by { assert Shown(0); }
        assert |use| == |use.Keys|;
      }
    }
  }

  lemma BlockAligned(bs: seq<MemBlock>, next: nat, i: nat)
    requires Reserved(bs, next) && i < |bs| && bs[i].active
    ensures bs[i].base % 0x1000 == 0 && bs[i].size % 0x1000 == 0
    ensures forall p :: bs[i].base / 0x1000 <= p < (bs[i].base + bs[i].size) / 0x1000 <==>
                        bs[i].base <= 0x1000 * p < bs[i].base + bs[i].size
  {
    assert Shown(0);
    assert WellPlaced(bs[i], next);
  }

  /** The pages of m outside [lo, hi). */
  function Outside(m: map<nat, nat>, lo: nat, hi: nat): map<nat, nat> {
    map p | p in m && !(lo <= p < hi) :: m[p]
  }

  /** Uses change to Free only. */
  predicate OnlyFreed(use: map<nat, Use>, use': map<nat, Use>) {
    use.Keys == use'.Keys && forall f | f in use :: use'[f] == Free || use'[f] == use[f]
  }

  lemma FreedMore(a: map<nat, Use>, b: map<nat, Use>, c: map<nat, Use>)
    requires OnlyFreed(a, b) && OnlyFreed(b, c)
    ensures OnlyFreed(a, c)
  {
  }

  lemma NextPage(m: map<nat, nat>, base: nat, off: nat, size: nat)
    requires base % 0x1000 == 0 && off % 0x1000 == 0 && size % 0x1000 == 0 && off < size
    ensures (off + 0x1000) % 0x1000 == 0 && off + 0x1000 <= size
    ensures var lo, p := base / 0x1000, (base + off) / 0x1000;
            Outside(m, lo, (base + off + 0x1000) / 0x1000) == Outside(m, lo, p) - {p}
  {
    assert (base + off + 0x1000) / 0x1000 == (base + off) / 0x1000 + 1;
  }

  predicate InBlock(b: MemBlock, p: nat) {
    b.active && b.base / 0x1000 <= p < (b.base + b.size) / 0x1000
  }

  predicate Covered(bs: seq<MemBlock>, p: nat) {
    exists i :: 0 <= i < |bs| && InBlock(bs[i], p)
  }

  lemma CoveredStep(bs: seq<MemBlock>, j: nat)
    requires j < |bs|
    ensures forall p :: Covered(bs[..j + 1], p) <==> Covered(bs[..j], p) || InBlock(bs[j], p)
  {
  }

  lemma OneLess(s: set<nat>, a: nat)
    requires a in s
    ensures |s - {a}| == |s| - 1 && (s - {a} == {} <==> |s| == 1)
  {
  }

  lemma FirstFreeIs(bs: seq<MemBlock>, i: nat)
    requires i <= |bs| && (i < |bs| ==> !bs[i].active) && forall j | 0 <= j < i :: bs[j].active
    ensures FirstFree(bs) == i
  {
  }

  lemma BlockAtIs(bs: seq<MemBlock>, base: nat, i: nat)
    requires i <= |bs| && (i < |bs| ==> bs[i].active && bs[i].base == base)
    requires forall j | 0 <= j < i :: !(bs[j].active && bs[j].base == base)
    ensures BlockAt(bs, base) == i
  {
  }
}
