/** The mounted volume: table access, cluster allocation and byte-level file
    I/O, updating the disk and the handle table in place. */
module FatVolume {
  import opened Numbers
  import opened FatLayout
  import opened FatChains
  import opened FatData

  const MAX_HANDLES := 32

  function Max(a: int, b: int): int { if a > b then a else b }

  function Min(a: int, b: int): int { if a < b then a else b }

  /** 32-bit unsigned wrap-around. */
  function Wrap(x: nat): (r: nat)
    ensures r < WORD32 && r <= x && (x < WORD32 ==> r == x)
  {
    if x < WORD32 then x else Wrap(x - WORD32)
  }

  /** An open file. `mode` 0 is read-only. */
  datatype Handle = Handle(
    active: bool,
    mode: nat,
    first: nat,
    current: nat,
    position: nat,
    size: nat)

  // ------------------------------------------------------------------
  // Invariants as predicates on values
  // ------------------------------------------------------------------

  /** The decoded table is right, its copies agree and the chains are sound. Folded by
      `Shown`. */
  ghost predicate FilesOk(g: Geometry, disk: seq<Sector>, fat: seq<nat>, chains: Chains)
    requires Covers(g, disk)
  {
    forall z {:trigger Shown(z)} | Shown(z) ::
      Mirrored(g, disk) && IsTable(g, disk, fat) && WfTable(g.fatType, fat, chains)
  }

  ghost predicate VolumeOk(g: Geometry, disk: seq<Sector>, fat: seq<nat>, chains: Chains) {
    Covers(g, disk) && |fat| == g.MaxCluster() + 1 && FilesOk(g, disk, fat, chains)
  }

  ghost predicate HandleOk(g: Geometry, f: Handle, chains: Chains) {
    && f.first in chains
    && f.position < WORD32 && f.position <= Capacity(g, |chains[f.first]|)
    && f.size < WORD32 && f.size <= Capacity(g, |chains[f.first]|)
  }

  ghost predicate HandlesOk(g: Geometry, handles: seq<Handle>, chains: Chains) {
    && |handles| == MAX_HANDLES
    && forall h | 0 <= h < MAX_HANDLES && handles[h].active :: HandleOk(g, handles[h], chains)
  }

  /** The file set grew only at the end of one file's chain. */
  ghost predicate Grown(before: Chains, after: Chains, first: nat) {
    && first in before && after.Keys == before.Keys
    && before[first] <= after[first]
    && forall k | k in before && k != first :: after[k] == before[k]
  }

  /** A volume together with one open file on it. */
  datatype View = View(g: Geometry, disk: seq<Sector>, fat: seq<nat>, chains: Chains, f: Handle)
  {
    ghost predicate Ok() {
      VolumeOk(g, disk, fat, chains) && f.first in chains && InVolume(g, chains[f.first])
    }

    /** The allocated space of the file. */
    ghost function Space(): seq<Byte>
      requires Ok()
    {
      FileData(g, disk, chains[f.first])
    }
  }

  /** How n written bytes move the position and the size of a handle. */
  ghost predicate Moved(f0: Handle, f: Handle, n: nat) {
    && f == f0.(current := f.current, position := Wrap(f0.position + n), size := f.size)
    && f0.size <= f.size <= Max(f0.size, f0.position + n)
    && (n > 0 || f0.position <= f0.size ==> f.position <= f.size)
    && (f0.position + n < WORD32 ==> f.size == if n == 0 then f0.size else Max(f0.size, f0.position + n))
  }

  /** How `data` written at position p changes a file: it now starts with its
      old space with the data spliced in, only its own sectors and the tables
      were written, and only its own chain grew. Folded by `Shown`. */
  ghost predicate Spliced(v0: View, v: View, p: nat, data: seq<Byte>) {
    && v0.Ok() && v.Ok() && v.g == v0.g && v.f.first == v0.f.first && v0.f.first in v0.chains
    && forall z {:trigger Shown(z)} | Shown(z) ::
         && p <= |v0.Space()|
         && Grown(v0.chains, v.chains, v0.f.first)
         && OnlyTouches(v0.g, v0.disk, v.disk, v.chains[v0.f.first])
         && Splice(v0.Space(), p, data) <= v.Space()
  }

  /** v is v0 after `data` went into the open file at its position. */
  ghost predicate Wrote(v0: View, v: View, data: seq<Byte>) {
    && Moved(v0.f, v.f, |data|)
    && Spliced(v0, v, v0.f.position, data)
  }

  /** One turn of the write loop at absolute position ap. */
  ghost predicate Turned(v0: View, v: View, ap: nat, chunk: seq<Byte>) {
    && v.f == v0.f.(current := v.f.current, position := Wrap(ap + |chunk|), size := Max(v0.f.size, Wrap(ap + |chunk|)))
    && Spliced(v0, v, ap, chunk)
  }

  // ------------------------------------------------------------------
  // Wrap-around arithmetic
  // ------------------------------------------------------------------

  lemma {:induction false} WrapAdd(ap: nat, n: nat)
    ensures Wrap(Wrap(ap) + n) == Wrap(ap + n)
  {
    if ap >= WORD32 {
      WrapAdd(ap - WORD32, n);
    }
  }

  lemma {:induction false} WrapIs(x: nat)
    ensures Wrap(x) == x % WORD32
  {
    if x >= WORD32 {
      WrapIs(x - WORD32);
      DivModUnique(x, WORD32, (x - WORD32) / WORD32 + 1, (x - WORD32) % WORD32);
    }
  }

  /** Cluster sizes are powers of two, so they divide 2^32. */
  lemma ClusterDividesWord(spc: nat) returns (k: nat)
    requires spc in {1, 2, 4, 8, 16, 32, 64, 128}
    ensures k * (spc * 512) == WORD32
  {
    k := if spc == 1 then 0x80_0000 else if spc == 2 then 0x40_0000 else if spc == 4 then 0x20_0000
         else if spc == 8 then 0x10_0000 else if spc == 16 then 0x8_0000 else if spc == 32 then 0x4_0000
         else if spc == 64 then 0x2_0000 else 0x1_0000;
  }

  lemma AddMultiple(r: nat, k: nat, d: nat)
    requires d > 0
    ensures (r + k * d) % d == r % d
  {
    assert (r / d) * d + k * d == (r / d + k) * d;
    DivModUnique(r + k * d, d, r / d + k, r % d);
  }

  /** A position reduced modulo 2^32 keeps its offset inside the cluster. */
  lemma {:induction false} WrapKeepsOffset(ap: nat, spc: nat)
    requires spc in {1, 2, 4, 8, 16, 32, 64, 128}
    ensures Wrap(ap) % (spc * 512) == ap % (spc * 512)
  {
    if ap >= WORD32 {
      WrapKeepsOffset(ap - WORD32, spc);
      var k := ClusterDividesWord(spc);
      AddMultiple(ap - WORD32, k, spc * 512);
    }
  }

  /** Sector and byte of a wrapped position inside its cluster. */
  lemma PositionParts(g: Geometry, ap: nat, position: nat)
    requires g.Wf() && position == Wrap(ap)
    ensures g.secPerClus * 512 > 0
    ensures position % (g.secPerClus * 512) / 512 == SectorIndex(g, ap)
    ensures position % (g.secPerClus * 512) % 512 == ap % 512
  {
    assert Shown(0);
    WrapKeepsOffset(ap, g.secPerClus);
    SplitPosition(ap, g.secPerClus);
    QuotRem(ap / 512, g.secPerClus);
  }

  /** Where a position goes when it moves inside, or to the end of, a sector. */
  lemma NextPosition(ap: nat, n: nat, spc: nat)
    requires spc > 0 && 0 < n && ap % 512 + n <= 512
    ensures spc * 512 > 0
    ensures if (ap + n) % (spc * 512) == 0
            then (ap + n) / 512 / spc == ap / 512 / spc + 1 && ap + n == ((ap + n) / 512 / spc) * (spc * 512)
            else (ap + n) / 512 / spc == ap / 512 / spc
  {
    SplitPosition(ap, spc);
    SplitPosition(ap + n, spc);
    SectorEnd(ap % (spc * 512), n, spc);
    NextInCluster(ap, n, spc * 512);
  }

  lemma NextInCluster(ap: nat, n: nat, d: nat)
    requires d > 0 && 0 < n && ap % d + n <= d
    ensures if (ap + n) % d == 0 then (ap + n) / d == ap / d + 1 && ap + n == (ap + n) / d * d
            else (ap + n) / d == ap / d
  {
    assert ap == ap / d * d + ap % d;
    StepInside(ap, n, d, ap / d, ap % d);
  }

  lemma SectorEnd(r: nat, n: nat, spc: nat)
    requires r / 512 < spc && r % 512 + n <= 512
    ensures r + n <= spc * 512
  {
    assert r + n <= (r / 512 + 1) * 512;
  }

  lemma StepInside(ap: nat, n: nat, d: nat, q: nat, r: nat)
    requires d > 0 && ap == q * d + r && 0 < n && r + n <= d
    ensures if (ap + n) % d == 0 then (ap + n) / d == q + 1 && ap + n == (q + 1) * d else (ap + n) / d == q
  {
    if r + n == d {
      assert ap + n == q * d + d == (q + 1) * d;
      DivModUnique(ap + n, d, q + 1, 0);
    } else {
      DivModUnique(ap + n, d, q, r + n);
    }
  }

  /** The test the write loop makes on the wrapped position. */
  lemma NextCluster(g: Geometry, ap: nat, n: nat)
    requires g.Wf() && 0 < n && ap % 512 + n <= 512
    ensures g.secPerClus * 512 > 0
    ensures if Wrap(ap + n) % (g.secPerClus * 512) == 0
            then ClusterIndex(g, ap + n) == ClusterIndex(g, ap) + 1 && ap + n == Capacity(g, ClusterIndex(g, ap + n))
            else ClusterIndex(g, ap + n) == ClusterIndex(g, ap)
  {
    assert Shown(0);
    WrapKeepsOffset(ap + n, g.secPerClus);
    NextPosition(ap, n, g.secPerClus);
    QuotRem(ap / 512, g.secPerClus);
    QuotRem((ap + n) / 512, g.secPerClus);
  }

  // ------------------------------------------------------------------
  // Lemmas about the invariants
  // ------------------------------------------------------------------

  lemma ChainInVolume(g: Geometry, d: seq<Sector>, fat: seq<nat>, chains: Chains, first: nat)
    requires VolumeOk(g, d, fat, chains) && first in chains
    ensures InVolume(g, chains[first])
  {
    assert Shown(0);
    assert IsChain(g.fatType, fat, chains[first]);
  }

  lemma HandlesSurviveGrowth(g: Geometry, handles: seq<Handle>, c0: Chains, c1: Chains, first: nat)
    requires HandlesOk(g, handles, c0) && Grown(c0, c1, first)
    ensures HandlesOk(g, handles, c1)
  {
    forall h | 0 <= h < MAX_HANDLES && handles[h].active ensures HandleOk(g, handles[h], c1) {
      CapacityGrows(g, |c0[handles[h].first]|, |c1[handles[h].first]|);
    }
  }

  /** Moving the position of a handle inside its file's space. */
  lemma MovedHandleOk(g: Geometry, handles: seq<Handle>, chains: Chains, h: int, ap: nat)
    requires HandlesOk(g, handles, chains) && 0 <= h < MAX_HANDLES && handles[h].active
    requires ap <= Capacity(g, |chains[handles[h].first]|)
    ensures var f := handles[h].(position := Wrap(ap), size := Max(handles[h].size, Wrap(ap)));
            HandlesOk(g, handles[h := f], chains)
  {
  }

  lemma ReadHandleOk(g: Geometry, handles: seq<Handle>, chains: Chains, h: int, current: nat, ap: nat)
    requires HandlesOk(g, handles, chains) && 0 <= h < MAX_HANDLES && handles[h].active
    requires ap <= Capacity(g, |chains[handles[h].first]|)
    ensures HandlesOk(g, handles[h := handles[h].(current := current, position := Wrap(ap))], chains)
  {
  }

  /** Writing outside the tables keeps them. */
  lemma DataWriteKeepsVolume(g: Geometry, d: seq<Sector>, fat: seq<nat>, chains: Chains, s: nat, sector: Sector)
    requires VolumeOk(g, d, fat, chains) && s < |d| && !InFat(g, s)
    ensures VolumeOk(g, d[s := sector], fat, chains)
  {
    assert Shown(0);
    TableIgnoresData(g, d, d[s := sector], fat);
  }

  /** Everything one sector-sized write into a file does to the volume. */
  lemma ChunkEffect(v: View, ap: nat, s: nat, off: nat, data: seq<Byte>)
    requires v.Ok() && v.f.first in v.chains
    requires var ch := v.chains[v.f.first];
             && ClusterIndex(v.g, ap) < |ch|
             && s == v.g.ClusterSector(ch[ClusterIndex(v.g, ap)], SectorIndex(v.g, ap))
    requires off == ap % 512 && off + |data| <= 512
    ensures s < |v.disk| && ap + |data| <= |v.Space()|
    ensures var e := v.(disk := v.disk[s := Overlay(v.disk[s], off, data)]);
            && e.Ok() && OnlyTouches(v.g, v.disk, e.disk, v.chains[v.f.first])
            && e.Space() == Splice(v.Space(), ap, data)
  {
    assert Shown(0);
    var ch := v.chains[v.f.first];
    assert IsChain(v.g.fatType, v.fat, ch);
    PositionInClusters(ap, v.g.secPerClus, |ch|);
    forall i, j | 0 <= i < j < |ch| ensures ch[i] != ch[j] {
      ChainAcyclic(v.g.fatType, v.fat, ch, i, j);
    }
    OverlayIsSplice(v.g, v.disk, ch, ap, data);
    DataWriteKeepsVolume(v.g, v.disk, v.fat, v.chains, s, Overlay(v.disk[s], off, data));
  }

  /** Cluster numbers fit an entry. */
  lemma CutCluster(g: Geometry, c: nat)
    requires g.Wf() && g.IsCluster(c)
    ensures Cut(g.fatType, c) == c
  {
    assert Shown(0);
  }

  lemma CopyInsideTables(g: Geometry, f: nat)
    requires f < g.numFats
    ensures g.firstFat <= g.FatBase(f) && g.FatBase(f) + g.fatSize <= g.FatBase(g.numFats)
  {
    MulMonotone(f + 1, g.numFats, g.fatSize);
    assert (f + 1) * g.fatSize == f * g.fatSize + g.fatSize;
    assert f * g.fatSize >= 0;
  }

  lemma SameOutsideFatTrans(g: Geometry, d: seq<Sector>, m: seq<Sector>, e: seq<Sector>)
    requires SameOutsideFat(g, d, m) && SameOutsideFat(g, m, e)
    ensures SameOutsideFat(g, d, e)
  {
  }

  // ------------------------------------------------------------------
  // How a write progresses
  // ------------------------------------------------------------------

  lemma MovedOn(f0: Handle, f1: Handle, f2: Handle, n: nat, k: nat)
    requires Moved(f0, f1, n) && k > 0
    requires var p := Wrap(f0.position + n + k);
             f2 == f1.(current := f2.current, position := p, size := Max(f1.size, p))
    ensures Moved(f0, f2, n + k)
  {
  }

  lemma WroteNothing(v: View)
    requires v.Ok() && v.f.position < WORD32 && v.f.position <= Capacity(v.g, |v.chains[v.f.first]|)
    ensures Wrote(v, v, [])
  {
  }

  lemma SliceSplit(buffer: seq<Byte>, w: nat, n: nat)
    requires w + n <= |buffer|
    ensures buffer[..w + n] == buffer[..w] + buffer[w..][..n]
    ensures |buffer[..w]| == w && |buffer[w..][..n]| == n
  {
  }

  lemma SplicePrefixGrows(base: seq<Byte>, p: nat, data: seq<Byte>, mid: seq<Byte>, chunk: seq<Byte>, space: seq<Byte>)
    requires p <= |base| && Splice(base, p, data) <= mid && Splice(mid, p + |data|, chunk) <= space
    ensures Splice(base, p, data + chunk) <= space
  {
  }

  lemma SplicedTurn(v0: View, v1: View, v2: View, data: seq<Byte>, chunk: seq<Byte>)
    requires Wrote(v0, v1, data) && Turned(v1, v2, v0.f.position + |data|, chunk)
    ensures Spliced(v0, v2, v0.f.position, data + chunk)
  {
    SplicedTwice(v0, v1, v2, v0.f.position, data, chunk);
  }

  lemma SplicedTwice(v0: View, v1: View, v2: View, p: nat, data: seq<Byte>, chunk: seq<Byte>)
    requires Spliced(v0, v1, p, data) && Spliced(v1, v2, p + |data|, chunk)
    ensures Spliced(v0, v2, p, data + chunk)
  {
    assert Shown(0);
    var first := v0.f.first;
    OnlyTouchesGrows(v0.g, v0.disk, v1.disk, v2.disk, v1.chains[first], v2.chains[first]);
    SplicePrefixGrows(v0.Space(), p, data, v1.Space(), chunk, v2.Space());
  }

  lemma WroteTurn(v0: View, v1: View, v2: View, data: seq<Byte>, chunk: seq<Byte>)
    requires Wrote(v0, v1, data) && chunk != [] && Turned(v1, v2, v0.f.position + |data|, chunk)
    ensures Wrote(v0, v2, data + chunk)
  {
    MovedOn(v0.f, v1.f, v2.f, |data|, |chunk|);
    SplicedTurn(v0, v1, v2, data, chunk);
  }

  lemma PrefixOfPrefix(a: seq<Byte>, b: seq<Byte>, c: seq<Byte>)
    requires a <= b && |b| <= |c| && c[..|b|] == b
    ensures a <= c
  {
  }

  /** Growing the chain by table writes alone keeps what was written. */
  lemma SplicedGrows(v0: View, v1: View, v2: View, p: nat, data: seq<Byte>)
    requires Spliced(v0, v1, p, data) && v2.Ok() && v2.g == v1.g && v2.f.first == v1.f.first
    requires Grown(v1.chains, v2.chains, v1.f.first) && SameOutsideFat(v1.g, v1.disk, v2.disk)
    ensures Spliced(v0, v2, p, data)
  {
    assert Shown(0);
    var ch1, ch2 := v1.chains[v1.f.first], v2.chains[v1.f.first];
    GrowthKeepsData(v1.g, v1.disk, v2.disk, ch1, ch2);
    OnlyTouchesGrows(v0.g, v0.disk, v1.disk, v2.disk, ch1, ch2);
    PrefixOfPrefix(Splice(v0.Space(), p, data), v1.Space(), v2.Space());
  }

  // ------------------------------------------------------------------
  // How a read progresses
  // ------------------------------------------------------------------

  /** How many bytes the read clamp lets through: sum and difference are 32-bit
      words. */
  function ReadCount(position: nat, count: nat, size: nat): nat
    requires position < WORD32
  {
    if Wrap(position + count) <= size then count
    else if position <= size then size - position
    else size + WORD32 - position
  }

  /** Bytes a fault-free read returns. */
  function BytesRead(position: nat, count: nat, size: nat, space: nat): nat
    requires position < WORD32 && position <= space
  {
    Min(ReadCount(position, count, size), space - position)
  }

  /** The four bytes of an entry are neighbours in one sector. */
  lemma FourSlots(c: nat)
    ensures var q, ent := 4 * c / 512, 4 * c % 512;
            && ent + 3 < 512
            && forall i: nat {:trigger i / 512} {:trigger i % 512} ::
                 && (i / 512 == q && i % 512 == ent <==> i == 4 * c)
                 && (i / 512 == q && i % 512 == ent + 1 <==> i == 4 * c + 1)
                 && (i / 512 == q && i % 512 == ent + 2 <==> i == 4 * c + 2)
                 && (i / 512 == q && i % 512 == ent + 3 <==> i == 4 * c + 3)
  {
    assert 4 * c == 512 * (4 * c / 512) + 4 * c % 512;
    assert 4 * c % 512 % 4 == 0;
  }

  /** What a read asks for, in 32-bit arithmetic: the count, or the distance from the
      position to the size when their sum is larger. */
  lemma ReadCountIs(position: nat, count: nat, size: nat)
    requires position < WORD32 && count < WORD32 && size < WORD32
    ensures ReadCount(position, count, size) ==
            if (position + count) % WORD32 > size then (size - position) % WORD32 else count
  {
    WrapIs(position + count);
  }

  /** A fault-free read leaves the position inside the file exactly when position and
      count do not wrap, or the file fills its last cluster so that there is nothing
      behind it, or its space is so large that the end of it wraps too. */
  lemma PositionInsideIff(position: nat, count: nat, size: nat, space: nat)
    requires position < WORD32 && position <= space && size <= space && size < WORD32 && count < WORD32
    ensures Wrap(position + BytesRead(position, count, size, space)) <= size <==>
            (position <= size && position + count < WORD32) || size == space || space >= WORD32
  {
  }

  lemma SliceJoin(s: seq<Byte>, p: nat, a: nat, b: nat)
    requires p + a + b <= |s|
    ensures s[p..p + a] + s[p + a..p + a + b] == s[p..p + a + b]
  {
  }

  /** v is v0 after `data` was read from position p on. Folded by `Shown`. */
  ghost predicate WasRead(v0: View, v: View, p: nat, data: seq<Byte>) {
    && v0.Ok() && v == v0.(f := v0.f.(position := Wrap(p + |data|), current := v.f.current))
    && forall z {:trigger Shown(z)} | Shown(z) ::
         p + |data| <= |v0.Space()| && data == v0.Space()[p..p + |data|]
  }

  lemma ReadRange(v0: View, v: View, p: nat, data: seq<Byte>)
    requires WasRead(v0, v, p, data)
    ensures p + |data| <= |v0.Space()| && data == v0.Space()[p..p + |data|]
  {
    assert Shown(0);
  }

  lemma ReadNothing(v: View, p: nat)
    requires v.Ok() && p <= |v.Space()| && v.f.position == Wrap(p)
    ensures WasRead(v, v, p, [])
  {
  }

  /** Where the current cluster is does not matter to what was read. */
  lemma SameSpaceRead(v0: View, p: nat, data: seq<Byte>, v: View)
    requires v0.Ok() && v.f.first == v0.f.first && WasRead(v0.(f := v0.f.(current := v.f.current)), v, p, data)
    ensures WasRead(v0, v, p, data) && p + |data| <= |v0.Space()|
  {
    assert Shown(0);
  }

  lemma ReadMore(v0: View, v1: View, v2: View, p: nat, data: seq<Byte>, more: seq<Byte>)
    requires WasRead(v0, v1, p, data) && WasRead(v1, v2, p + |data|, more)
    ensures WasRead(v0, v2, p, data + more)
  {
    assert Shown(0);
    SliceJoin(v0.Space(), p, |data|, |more|);
  }

  lemma IndexAtMost(g: Geometry, p: nat, n: nat)
    requires g.secPerClus > 0 && p <= Capacity(g, n)
    ensures ClusterIndex(g, p) <= n
  {
    PositionInClusters(p, g.secPerClus, n + 1);
    assert (n + 1) * (g.secPerClus * 512) == n * (g.secPerClus * 512) + g.secPerClus * 512;
  }

  /** Part of one file sector is a slice of the file. */
  lemma SectorSlice(v: View, ap: nat, n: nat)
    requires v.Ok() && ClusterIndex(v.g, ap) < |v.chains[v.f.first]| && ap % 512 + n <= 512
    ensures var c := v.chains[v.f.first][ClusterIndex(v.g, ap)];
            && 2 <= c
            && var s := v.g.ClusterSector(c, SectorIndex(v.g, ap));
               && s < |v.disk| && ap + n <= |v.Space()|
               && v.disk[s][ap % 512..ap % 512 + n] == v.Space()[ap..ap + n]
  {
    var ch := v.chains[v.f.first];
    PositionInClusters(ap, v.g.secPerClus, |ch|);
    SectorOfPosition(v.g, v.disk, ch, ap);
    var s := FileSector(v.g, ch, ap / 512);
    var a, b := v.disk[s][ap % 512..ap % 512 + n], v.Space()[ap..ap + n];
    forall i | 0 <= i < n ensures a[i] == b[i] {
      assert (ap + i) / 512 == ap / 512;
    }
  }

  /** A position whose cluster index is the chain length is the end of the
      space, if it is not beyond it. */
  lemma EndOfSpace(v: View, p: nat)
    requires v.Ok() && p <= |v.Space()| && ClusterIndex(v.g, p) >= |v.chains[v.f.first]|
    ensures p == |v.Space()|
  {
    PositionInClusters(p, v.g.secPerClus, |v.chains[v.f.first]|);
  }

  // ------------------------------------------------------------------
  // The volume
  // ------------------------------------------------------------------

  class Volume {
    const g: Geometry
    var disk: seq<Sector>
    const sectorBuf: array<Byte>
    var handles: seq<Handle>
    ghost var fat: seq<nat>     // the decoded table
    ghost var chains: Chains    // the files, by first cluster

    constructor (g: Geometry, disk: seq<Sector>, ghost fat: seq<nat>, ghost chains: Chains)
      requires VolumeOk(g, disk, fat, chains)
      ensures Valid() && fresh(sectorBuf)
      ensures this.g == g && this.disk == disk && this.fat == fat && this.chains == chains
      ensures forall h | 0 <= h < MAX_HANDLES :: !handles[h].active
    {
      this.g, this.disk, this.fat, this.chains := g, disk, fat, chains;
      sectorBuf := new Byte[512];
      handles := seq(MAX_HANDLES, _ => Handle(false, 0, 0, 0, 0, 0));
    }

    ghost predicate Valid()
      reads this
    {
      && sectorBuf.Length == 512
      && VolumeOk(g, disk, fat, chains)
      && HandlesOk(g, handles, chains)
    }

    predicate IsOpen(h: int)
      reads this
    {
      0 <= h < MAX_HANDLES == |handles| && handles[h].active
    }

    /** The volume as seen through an open file. */
    ghost function ViewOf(h: int): (v: View)
      requires Valid() && IsOpen(h)
      reads this
      ensures v.Ok()
    {
      ChainInVolume(g, disk, fat, chains, handles[h].first);
      View(g, disk, fat, chains, handles[h])
    }

    // ----------------------------------------------------------------
    // Table entries
    // ----------------------------------------------------------------

    /** Replace one sector of table copy f. */
    method WriteFatSector(f: nat, q: nat, buf: Sector)
      requires Covers(g, disk) && f < g.numFats && q < g.fatSize
      modifies this`disk
      ensures Covers(g, disk) && |disk| == |old(disk)|
      ensures forall i | 0 <= i < g.fatSize * 512 ::
                FatByte(g, disk, f, i) == if i / 512 == q then buf[i % 512] else FatByte(g, old(disk), f, i)
      ensures forall s | 0 <= s < |disk| && !(g.FatBase(f) <= s < g.FatBase(f) + g.fatSize) :: disk[s] == old(disk)[s]
    {
      CopyInsideTables(g, f);
      disk := disk[g.FatBase(f) + q := buf];
    }

    /** Read one sector of table copy f. */
    method ReadFatSector(f: nat, q: nat) returns (buf: Sector)
      requires Covers(g, disk) && f < g.numFats && q < g.fatSize
      ensures forall i | q * 512 <= i < q * 512 + 512 :: buf[i - q * 512] == FatByte(g, disk, f, i)
    {
      CopyInsideTables(g, f);
      buf := disk[g.FatBase(f) + q];
    }

    method ReadEntry(c: nat) returns (entry: nat)
      requires Covers(g, disk) && HasEntry(g, c)
      ensures entry == Entry(g, disk, 0, c)
    {
      match g.fatType
      case Fat12 => entry := ReadEntry12(c);
      case Fat16 => entry := ReadEntry16(c);
      case Fat32 => entry := ReadEntry32(c);
    }

    method ReadEntry12(c: nat) returns (entry: nat)
      requires Covers(g, disk) && HasEntry(g, c) && g.fatType == Fat12
      ensures entry == Entry(g, disk, 0, c)
    {
      EntryFits(g, c);
      var b0: nat, b1: nat := GetPair(0, c + c / 2);
      entry := if c % 2 == 1 then (b0 + 256 * b1) / 16 else (b0 + 256 * b1) % 4096;
    }

    method ReadEntry16(c: nat) returns (entry: nat)
      requires Covers(g, disk) && HasEntry(g, c) && g.fatType == Fat16
      ensures entry == Entry(g, disk, 0, c)
    {
      EntryFits(g, c);
      var q, ent := 2 * c / 512, 2 * c % 512;
      var buf := ReadFatSector(0, q);
      var b0: nat, b1: nat := buf[ent], buf[ent + 1];
      entry := b0 + 256 * b1;
    }

    method ReadEntry32(c: nat) returns (entry: nat)
      requires Covers(g, disk) && HasEntry(g, c) && g.fatType == Fat32
      ensures entry == Entry(g, disk, 0, c)
    {
      EntryFits(g, c);
      var q, ent := 4 * c / 512, 4 * c % 512;
      var buf := ReadFatSector(0, q);
      var b0: nat, b1: nat, b2: nat, b3: nat := buf[ent], buf[ent + 1], buf[ent + 2], buf[ent + 3];
      entry := (b0 + 256 * b1 + 0x1_0000 * b2 + 0x100_0000 * b3) % 0x1000_0000;
    }

    /** Store an entry in one table copy. */
    method PutCopy(f: nat, c: nat, v: nat)
      requires Covers(g, disk) && HasEntry(g, c) && f < g.numFats
      modifies this`disk
      ensures Covers(g, disk) && |disk| == |old(disk)|
      ensures forall i | 0 <= i < g.fatSize * 512 ::
                FatByte(g, disk, f, i) == ByteAfterPut(g.fatType, c, v, i, FatByte(g, old(disk), f, i))
      ensures forall s | 0 <= s < |disk| && !(g.FatBase(f) <= s < g.FatBase(f) + g.fatSize) :: disk[s] == old(disk)[s]
    {
      match g.fatType
      case Fat12 => PutCopy12(f, c, v);
      case Fat16 => PutCopy16(f, c, v);
      case Fat32 => PutCopy32(f, c, v);
    }

    method PutCopy16(f: nat, c: nat, v: nat)
      requires Covers(g, disk) && HasEntry(g, c) && f < g.numFats && g.fatType == Fat16
      modifies this`disk
      ensures Covers(g, disk) && |disk| == |old(disk)|
      ensures forall i | 0 <= i < g.fatSize * 512 ::
                FatByte(g, disk, f, i) == ByteAfterPut(Fat16, c, v, i, FatByte(g, old(disk), f, i))
      ensures forall s | 0 <= s < |disk| && !(g.FatBase(f) <= s < g.FatBase(f) + g.fatSize) :: disk[s] == old(disk)[s]
    {
      EntryFits(g, c);
      var q, ent := 2 * c / 512, 2 * c % 512;
      var buf := ReadFatSector(f, q);
      WriteFatSector(f, q, buf[ent := v % 256][ent + 1 := (v / 256) % 256]);
    }

    method PutCopy32(f: nat, c: nat, v: nat)
      requires Covers(g, disk) && HasEntry(g, c) && f < g.numFats && g.fatType == Fat32
      modifies this`disk
      ensures Covers(g, disk) && |disk| == |old(disk)|
      ensures forall i | 0 <= i < g.fatSize * 512 ::
                FatByte(g, disk, f, i) == ByteAfterPut(Fat32, c, v, i, FatByte(g, old(disk), f, i))
      ensures forall s | 0 <= s < |disk| && !(g.FatBase(f) <= s < g.FatBase(f) + g.fatSize) :: disk[s] == old(disk)[s]
    {
      EntryFits(g, c);
      var q, ent := 4 * c / 512, 4 * c % 512;
      var buf := ReadFatSector(f, q);
      FourSlots(c);
      WriteFatSector(f, q, buf[ent := v % 256][ent + 1 := (v / 256) % 256][ent + 2 := (v / 0x1_0000) % 256]
                              [ent + 3 := buf[ent + 3] / 16 * 16 + (v / 0x100_0000) % 16]);
    }

    /** The 12-bit case, where an entry shares a byte with its neighbour and
        may span two sectors. */
    method PutCopy12(f: nat, c: nat, v: nat)
      requires Covers(g, disk) && HasEntry(g, c) && f < g.numFats && g.fatType == Fat12
      modifies this`disk
      ensures Covers(g, disk) && |disk| == |old(disk)|
      ensures forall i | 0 <= i < g.fatSize * 512 ::
                FatByte(g, disk, f, i) == ByteAfterPut(Fat12, c, v, i, FatByte(g, old(disk), f, i))
      ensures forall s | 0 <= s < |disk| && !(g.FatBase(f) <= s < g.FatBase(f) + g.fatSize) :: disk[s] == old(disk)[s]
    {
      EntryFits(g, c);
      var off := c + c / 2;
      var w0, w1 := GetPair(f, off);
      PutPair(f, off, Low12(c, v, w0), High12(c, v, w1));
    }

    /** Two consecutive table bytes, possibly in two sectors. */
    method GetPair(f: nat, off: nat) returns (w0: Byte, w1: Byte)
      requires Covers(g, disk) && f < g.numFats && off + 1 < g.fatSize * 512
      ensures w0 == FatByte(g, disk, f, off) && w1 == FatByte(g, disk, f, off + 1)
    {
      var q, ent := off / 512, off % 512;
      var buf := ReadFatSector(f, q);
      w0 := buf[ent];
      if ent == 511 {
        var buf2 := ReadFatSector(f, q + 1);
        w1 := buf2[0];
      } else {
        w1 := buf[ent + 1];
      }
    }

    method PutPair(f: nat, off: nat, b0: Byte, b1: Byte)
      requires Covers(g, disk) && f < g.numFats && off + 1 < g.fatSize * 512
      modifies this`disk
      ensures Covers(g, disk) && |disk| == |old(disk)|
      ensures forall i | 0 <= i < g.fatSize * 512 ::
                FatByte(g, disk, f, i) ==
                  if i == off then b0 else if i == off + 1 then b1 else FatByte(g, old(disk), f, i)
      ensures forall s | 0 <= s < |disk| && !(g.FatBase(f) <= s < g.FatBase(f) + g.fatSize) :: disk[s] == old(disk)[s]
    {
      var q, ent := off / 512, off % 512;
      var buf := ReadFatSector(f, q);
      buf := buf[ent := b0];
      if ent == 511 {
        var buf2 := ReadFatSector(f, q + 1);
        WriteFatSector(f, q, buf);
        WriteFatSector(f, q + 1, buf2[0 := b1]);
      } else {
        WriteFatSector(f, q, buf[ent + 1 := b1]);
      }
    }

    /** Store an entry in every table copy. */
    method WriteEntry(c: nat, v: nat)
      requires Covers(g, disk) && HasEntry(g, c)
      modifies this`disk
      ensures Covers(g, disk) && SameOutsideFat(g, old(disk), disk) && IsPut(g, old(disk), disk, c, v)
    {
      ghost var d := disk;
      var f := 0;
      while f < g.numFats
        invariant 0 <= f <= g.numFats
        invariant Covers(g, disk) && |disk| == |d|
        invariant forall k, i | 0 <= k < g.numFats && 0 <= i < g.fatSize * 512 ::
                    FatByte(g, disk, k, i) ==
                    if k < f then ByteAfterPut(g.fatType, c, v, i, FatByte(g, d, k, i)) else FatByte(g, d, k, i)
        invariant SameOutsideFat(g, d, disk)
      {
        ghost var before := disk;
        PutCopy(f, c, v);
        forall k, i | 0 <= k < g.numFats && 0 <= i < g.fatSize * 512 && k != f
          ensures FatByte(g, disk, k, i) == FatByte(g, before, k, i)
        {
          FatBaseBounds(g, k, i);
          var s := g.FatBase(k) + i / 512;
          if g.FatBase(f) <= s < g.FatBase(f) + g.fatSize {
            FatSectorInjective(g, k, i / 512, f, s - g.FatBase(f));
          }
        }
        forall s | 0 <= s < |disk| && (s < g.firstFat || g.FatBase(g.numFats) <= s) ensures disk[s] == d[s] {
          CopyInsideTables(g, f);
        }
        f := f + 1;
      }
    }

    /** WriteEntry as the chain code sees it. */
    method SetLink(c: nat, v: nat)
      requires Covers(g, disk) && HasEntry(g, c) && IsTable(g, disk, fat)
      modifies this`disk, this`fat
      ensures Covers(g, disk) && SameOutsideFat(g, old(disk), disk)
      ensures IsTable(g, disk, fat) && c < |old(fat)| && fat == old(fat)[c := Cut(g.fatType, v)]
      ensures old(Mirrored(g, disk)) ==> Mirrored(g, disk)
    {
      ghost var d := disk;
      WriteEntry(c, v);
      PutEffect(g, d, disk, fat, c, v);
      fat := fat[c := Cut(g.fatType, v)];
    }

    method GetLink(c: nat) returns (entry: nat)
      requires Covers(g, disk) && HasEntry(g, c) && IsTable(g, disk, fat)
      ensures c < |fat| && entry == fat[c]
    {
      entry := ReadEntry(c);
    }

    // ----------------------------------------------------------------
    // Allocation
    // ----------------------------------------------------------------

    /** Scan for the lowest free cluster and mark it as a chain end. */
    method AllocCluster() returns (c: nat)
      requires VolumeOk(g, disk, fat, chains)
      modifies this`disk, this`fat
      ensures VolumeOk(g, disk, fat, chains) && SameOutsideFat(g, old(disk), disk)
      ensures c == 0 ==> disk == old(disk) && fat == old(fat) && FreeSet(fat) == {}
      ensures c != 0 ==> LowestFree(old(fat), c) && fat == old(fat)[c := StoredMark(g.fatType)]
    {
      assert Shown(0);
      var k := 2;
      while k < g.clusterCount + 2
        invariant 2 <= k <= g.clusterCount + 2
        invariant disk == old(disk) && fat == old(fat)
        invariant forall j | 2 <= j < k :: fat[j] != 0
      {
        var e := GetLink(k);
        if e == 0 {
          AllocKeeps(g.fatType, fat, chains, k, StoredMark(g.fatType));
          SetLink(k, EocMark(g.fatType));
          return k;
        }
        k := k + 1;
      }
      c := 0;
    }

    /** Link an end-marked cluster that no file owns behind the last one of a
        chain. */
    method LinkCluster(ghost h: nat, last: nat, next: nat)
      requires VolumeOk(g, disk, fat, chains) && h in chains && 0 < |chains[h]| && last == chains[h][|chains[h]| - 1]
      requires g.IsCluster(next) && IsEoc(g.fatType, fat[next])
      requires forall k | k in chains :: next !in chains[k]
      modifies this`disk, this`fat, this`chains
      ensures VolumeOk(g, disk, fat, chains) && SameOutsideFat(g, old(disk), disk)
      ensures chains == old(chains)[h := old(chains)[h] + [next]]
      ensures last < |old(fat)| && fat == old(fat)[last := next]
    {
      assert Shown(0);
      assert IsChain(g.fatType, fat, chains[h]) && HasEntry(g, last);
      LinkKeeps(g.fatType, fat, chains, h, next);
      CutCluster(g, next);
      SetLink(last, next);
      chains := chains[h := chains[h] + [next]];
    }

    /** Allocate a cluster and link it behind the last one of a chain. */
    method ExtendChain(ghost h: nat, last: nat) returns (next: nat)
      requires VolumeOk(g, disk, fat, chains) && h in chains && 0 < |chains[h]| && last == chains[h][|chains[h]| - 1]
      modifies this`disk, this`fat, this`chains
      ensures VolumeOk(g, disk, fat, chains) && SameOutsideFat(g, old(disk), disk)
      ensures Step(g.fatType, old(fat), old(chains), Extend(h), fat, chains)
      ensures next == 0 ==> disk == old(disk) && fat == old(fat) && chains == old(chains) && FreeSet(fat) == {}
      ensures next != 0 ==> chains == old(chains)[h := old(chains)[h] + [next]]
    {
      assert Shown(0);
      next := AllocCluster();
      if next != 0 {
        FreeNotOwned(g.fatType, old(fat), chains, next);
        ghost var m := disk;
        LinkCluster(h, last, next);
        SameOutsideFatTrans(g, old(disk), m, disk);
      }
    }

    /** Follow a link, extending the chain at its end. Zero means the volume is
        full. */
    method NextOrExtend(ghost h: nat, ghost k: nat, clus: nat) returns (next: nat)
      requires VolumeOk(g, disk, fat, chains) && h in chains && k < |chains[h]| && clus == chains[h][k]
      modifies this`disk, this`fat, this`chains
      ensures VolumeOk(g, disk, fat, chains) && SameOutsideFat(g, old(disk), disk)
      ensures next == 0 ==> disk == old(disk) && fat == old(fat) && chains == old(chains)
      ensures next == 0 ==> k + 1 == |chains[h]| && FreeSet(fat) == {}
      ensures next != 0 ==> Grown(old(chains), chains, h) && k + 1 < |chains[h]| && next == chains[h][k + 1]
    {
      assert Shown(0);
      assert IsChain(g.fatType, fat, chains[h]);
      next := GetLink(clus);
      if k + 1 < |chains[h]| {
        assert LinkAt(fat, chains[h], k + 1);
      }
      if IsEoc(g.fatType, next) {
        next := ExtendChain(h, clus);
      }
    }

    // ----------------------------------------------------------------
    // Creating and deleting
    // ----------------------------------------------------------------

    /** The allocation half of creating a file: a fresh one-cluster chain. */
    method CreateFile() returns (first: nat)
      requires Valid()
      modifies this`disk, this`fat, this`chains
      ensures Valid() && SameOutsideFat(g, old(disk), disk)
      ensures Step(g.fatType, old(fat), old(chains), Create, fat, chains)
      ensures first == 0 <==> FreeSet(old(fat)) == {}
      ensures first != 0 ==> first !in old(chains) && chains == old(chains)[first := [first]]
    {
      assert Shown(0);
      first := AllocCluster();
      if first != 0 {
        CreateKeeps(g.fatType, old(fat), chains, first, StoredMark(g.fatType));
        chains := chains[first := [first]];
      }
    }

    /** The handle half of opening and creating: the lowest free slot, or -1. */
    method OpenFile(first: nat, size: nat, mode: nat) returns (h: int)
      requires Valid() && first in chains && size < WORD32 && size <= Capacity(g, |chains[first]|)
      modifies this`handles
      ensures Valid()
      ensures h == -1 <==> forall k | 0 <= k < MAX_HANDLES :: old(handles)[k].active
      ensures h == -1 ==> handles == old(handles)
      ensures h != -1 ==>
                && 0 <= h < MAX_HANDLES && !old(handles)[h].active && (forall k | 0 <= k < h :: old(handles)[k].active)
                && handles == old(handles)[h := Handle(true, mode, first, first, 0, size)]
    {
      h := 0;
      while h < MAX_HANDLES && handles[h].active
        invariant 0 <= h <= MAX_HANDLES && forall k | 0 <= k < h :: handles[k].active
      {
        h := h + 1;
      }
      if h == MAX_HANDLES {
        return -1;
      }
      handles := handles[h := Handle(true, mode, first, first, 0, size)];
    }

    method CloseFile(h: int) returns (r: int)
      requires Valid()
      modifies this`handles
      ensures Valid()
      ensures !old(IsOpen(h)) ==> r == -1 && handles == old(handles)
      ensures old(IsOpen(h)) ==> r == 0 && handles == old(handles)[h := old(handles)[h].(active := false)]
    {
      if !IsOpen(h) {
        return -1;
      }
      handles := handles[h := handles[h].(active := false)];
      r := 0;
    }

    /** The freeing loop of delete and rmdir, on any table whose links stay
        inside s. It terminates on cyclic tables too. */
    method FreeChain(start: nat, ghost s: set<nat>)
      requires Covers(g, disk) && IsTable(g, disk, fat)
      requires Closed(g.fatType, fat, s) && (start in s || Stops(g.fatType, start))
      modifies this`disk, this`fat
      ensures Covers(g, disk) && IsTable(g, disk, fat) && SameOutsideFat(g, old(disk), disk)
      ensures old(Mirrored(g, disk)) ==> Mirrored(g, disk)
      ensures fat == FreeWalk(g.fatType, old(fat), s, start)
    {
      var c := start;
      while c >= 2 && !IsEoc(g.fatType, c)
        invariant Covers(g, disk) && IsTable(g, disk, fat) && SameOutsideFat(g, old(disk), disk)
        invariant old(Mirrored(g, disk)) ==> Mirrored(g, disk)
        invariant Closed(g.fatType, fat, s) && (c in s || Stops(g.fatType, c))
        invariant FreeWalk(g.fatType, fat, s, c) == FreeWalk(g.fatType, old(fat), s, start)
        decreases FreeRank(g.fatType, fat, c)
      {
        FreeRankDrops(g.fatType, fat, c);
        var next := GetLink(c);
        SetLink(c, 0);
        c := next;
      }
    }

    /** Deleting a file frees exactly its clusters. It may be open: then a handle is
        left whose clusters are free, and the next file may get them. */
    method DeleteFile(first: nat)
      requires Valid() && first in chains
      modifies this`disk, this`fat, this`chains
      ensures VolumeOk(g, disk, fat, chains) && SameOutsideFat(g, old(disk), disk) && chains == old(chains) - {first}
      ensures Valid() <==> forall h | 0 <= h < MAX_HANDLES && handles[h].active :: handles[h].first != first
      ensures Step(g.fatType, old(fat), old(chains), Delete(first), fat, chains)
      ensures |FreeSet(fat)| == |FreeSet(old(fat))| + |old(chains)[first]|
    {
      assert Shown(0);
      ghost var ch := chains[first];
      FreeWalkOnChain(g.fatType, fat, ch);
      DeleteKeeps(g.fatType, fat, chains, first);
      FreeChain(first, Elements(ch));
      chains := chains - {first};
    }

    method CountFreeClusters() returns (count: nat)
      requires Valid()
      ensures count == |FreeSet(fat)|
    {
      assert Shown(0);
      count := 0;
      ghost var seen: set<nat> := {};
      var c := 2;
      while c < g.clusterCount + 2
        invariant 2 <= c <= g.clusterCount + 2
        invariant seen == set k | 2 <= k < c && fat[k] == 0
        invariant count == |seen|
      {
        var e := GetLink(c);
        if e == 0 {
          count := count + 1;
          seen := seen + {c};
        }
        c := c + 1;
      }
      assert seen == FreeSet(fat);
    }

    // ----------------------------------------------------------------
    // Sector transfers
    // ----------------------------------------------------------------

    /** Data sectors may fail to transfer at any time; a failed transfer changes
        nothing. */
    method ReadSector(lba: nat) returns (ok: bool)
      requires lba < |disk| && sectorBuf.Length == 512
      modifies sectorBuf
      ensures ok ==> sectorBuf[..] == disk[lba]
      ensures !ok ==> sectorBuf[..] == old(sectorBuf[..])
    {
      if * {
        return false;
      }
      var s := disk[lba];
      forall k | 0 <= k < 512 {
        sectorBuf[k] := s[k];
      }
      ok := true;
    }

    method WriteSector(lba: nat) returns (ok: bool)
      requires lba < |disk| && sectorBuf.Length == 512
      modifies this`disk
      ensures ok ==> disk == old(disk)[lba := sectorBuf[..]]
      ensures !ok ==> disk == old(disk)
    {
      if * {
        return false;
      }
      disk := disk[lba := sectorBuf[..]];
      ok := true;
    }

    /** Lay `data` over one sector at `off`, reading the sector first when the
        write is partial. */
    method PutSector(lba: nat, off: nat, data: seq<Byte>, partial_: bool) returns (ok: bool)
      requires lba < |disk| && sectorBuf.Length == 512 && off + |data| <= 512
      requires !partial_ ==> off == 0 && |data| == 512
      modifies this`disk, sectorBuf
      ensures ok ==> disk == old(disk)[lba := Overlay(old(disk)[lba], off, data)]
      ensures !ok ==> disk == old(disk)
    {
      if partial_ {
        ok := ReadSector(lba);
        if !ok {
          return;
        }
      }
      ghost var was := sectorBuf[..];
      var k := 0;
      while k < |data|
        invariant 0 <= k <= |data|
        invariant disk == old(disk)
        invariant forall i | 0 <= i < 512 :: sectorBuf[i] == if off <= i < off + k then data[i - off] else was[i]
      {
        sectorBuf[off + k] := data[k];
        k := k + 1;
      }
      assert sectorBuf[..] == Overlay(old(disk)[lba], off, data);
      ok := WriteSector(lba);
    }

    // ----------------------------------------------------------------
    // Writing
    // ----------------------------------------------------------------

    /** Position ap of an open file lies in its current cluster. */
    ghost predicate AtCluster(f: Handle, ap: nat)
      requires g.secPerClus > 0
      reads this
    {
      && f.first in chains
      && ClusterIndex(g, ap) < |chains[f.first]|
      && f.current == chains[f.first][ClusterIndex(g, ap)]
    }

    /** The data half of one turn of the write loop: overlay one sector. */
    method PutChunk(h: int, ghost ap: nat, rest: seq<Byte>) returns (n: nat, ok: bool)
      requires Valid() && IsOpen(h) && |rest| > 0
      requires handles[h].position == Wrap(ap) && AtCluster(handles[h], ap)
      modifies this`disk, this`handles, sectorBuf
      ensures Valid() && IsOpen(h) && handles == old(handles)[h := handles[h]]
      ensures !ok ==> disk == old(disk) && handles == old(handles)
      ensures ok ==>
                && n == Min(512 - ap % 512, |rest|)
                && Turned(old(ViewOf(h)), ViewOf(h), ap, rest[..n])
                && handles[h].current == old(handles)[h].current
    {
      var f := handles[h];
      ghost var v := ViewOf(h);
      PositionParts(g, ap, f.position);
      var offset := f.position % (g.secPerClus * 512);
      var inCluster, inSector := offset / 512, offset % 512;
      var lba := g.ClusterSector(f.current, inCluster);
      n := Min(512 - inSector, |rest|);
      ChunkEffect(v, ap, lba, inSector, rest[..n]);
      ok := PutSector(lba, inSector, rest[..n], inSector != 0 || |rest| < 512);
      if ok {
        Advance(h, ap, n);
      }
    }

    /** Move the position of an open file by n and let the size follow. */
    method Advance(h: int, ghost ap: nat, n: nat)
      requires HandlesOk(g, handles, chains) && IsOpen(h)
      requires handles[h].position == Wrap(ap) && ap + n <= Capacity(g, |chains[handles[h].first]|)
      modifies this`handles
      ensures HandlesOk(g, handles, chains)
      ensures handles == old(handles)[h := old(handles)[h].(position := Wrap(ap + n),
                                                          size := Max(old(handles)[h].size, Wrap(ap + n)))]
    {
      var f := handles[h];
      WrapAdd(ap, n);
      MovedHandleOk(g, handles, chains, h, ap + n);
      var position := Wrap(f.position + n);
      handles := handles[h := f.(position := position, size := Max(f.size, position))];
    }

    /** Step to the following cluster of an open file, extending it if need be. */
    method MoveToNext(h: int, ghost k: nat) returns (full: bool)
      requires Valid() && IsOpen(h)
      requires k < |chains[handles[h].first]| && handles[h].current == chains[handles[h].first][k]
      modifies this`disk, this`fat, this`chains, this`handles
      ensures Valid() && IsOpen(h)
      ensures handles == old(handles)[h := old(handles)[h].(current := handles[h].current)]
      ensures Grown(old(chains), chains, old(handles)[h].first) && SameOutsideFat(g, old(disk), disk)
      ensures full ==> FreeSet(fat) == {} && k + 1 == |chains[handles[h].first]|
      ensures !full ==> k + 1 < |chains[handles[h].first]| && handles[h].current == chains[handles[h].first][k + 1]
    {
      ghost var c0, first := chains, handles[h].first;
      var next := NextOrExtend(first, k, handles[h].current);
      full := next == 0;
      if !full {
        HandlesSurviveGrowth(g, handles, c0, chains, first);
        handles := handles[h := handles[h].(current := next)];
      }
    }

    /** One turn of the write loop. `full` reports that the next cluster could
        not be allocated. */
    method WriteTurn(h: int, ghost ap: nat, rest: seq<Byte>) returns (n: nat, ok: bool, full: bool)
      requires Valid() && IsOpen(h) && |rest| > 0
      requires handles[h].position == Wrap(ap) && AtCluster(handles[h], ap)
      modifies this`disk, this`fat, this`chains, this`handles, sectorBuf
      ensures Valid() && IsOpen(h) && handles == old(handles)[h := handles[h]]
      ensures !ok ==> disk == old(disk) && fat == old(fat) && chains == old(chains) && handles == old(handles) && !full
      ensures ok ==> 0 < n <= |rest| && Turned(old(ViewOf(h)), ViewOf(h), ap, rest[..n])
      ensures ok && !full && n < |rest| ==> AtCluster(handles[h], ap + n)
      ensures full ==> n < |rest| && FreeSet(fat) == {} && Capacity(g, |chains[handles[h].first]|) == ap + n
    {
      ghost var v0 := ViewOf(h);
      full := false;
      n, ok := PutChunk(h, ap, rest);
      if ok && n < |rest| {
        NextCluster(g, ap, n);
        if handles[h].position % (g.secPerClus * 512) == 0 {
          ghost var v1 := ViewOf(h);
          full := MoveToNext(h, ClusterIndex(g, ap));
          SplicedGrows(v0, v1, ViewOf(h), ap, rest[..n]);
        }
      }
    }

    /** Make the cluster of the current position the current one, allocating
        clusters up to it. Reports whether the volume had room. */
    method WalkForWrite(h: int) returns (ok: bool)
      requires Valid() && IsOpen(h)
      modifies this`disk, this`fat, this`chains, this`handles
      ensures Valid() && IsOpen(h)
      ensures handles == old(handles)[h := old(handles)[h].(current := handles[h].current)]
      ensures Grown(old(chains), chains, handles[h].first) && SameOutsideFat(g, old(disk), disk)
      ensures ok ==> AtCluster(handles[h], handles[h].position)
      ensures !ok ==> FreeSet(fat) == {} && Capacity(g, |chains[handles[h].first]|) <= handles[h].position
    {
      var f := handles[h];
      SplitPosition(f.position, g.secPerClus);
      QuotRem(f.position / 512, g.secPerClus);
      var clus;
      clus, ok := WalkTo(f.first, f.position / (g.secPerClus * 512));
      HandlesSurviveGrowth(g, handles, old(chains), chains, f.first);
      if ok {
        handles := handles[h := f.(current := clus)];
      } else {
        PositionInClusters(f.position, g.secPerClus, |chains[f.first]|);
      }
    }

    /** Cluster `target` of a file, extending its chain up to it. */
    method WalkTo(first: nat, target: nat) returns (clus: nat, ok: bool)
      requires VolumeOk(g, disk, fat, chains) && first in chains
      modifies this`disk, this`fat, this`chains
      ensures VolumeOk(g, disk, fat, chains) && Grown(old(chains), chains, first) && SameOutsideFat(g, old(disk), disk)
      ensures ok ==> target < |chains[first]| && clus == chains[first][target]
      ensures !ok ==> FreeSet(fat) == {} && |chains[first]| <= target
    {
      assert 0 < |chains[first]| && chains[first][0] == first by { assert Shown(0); }
      var cur := 0;
      clus := first;
      while cur < target
        invariant 0 <= cur <= target && first in chains && cur < |chains[first]| && clus == chains[first][cur]
        invariant VolumeOk(g, disk, fat, chains) && Grown(old(chains), chains, first)
        invariant SameOutsideFat(g, old(disk), disk)
      {
        clus := NextOrExtend(first, cur, clus);
        if clus == 0 {
          return 0, false;
        }
        cur := cur + 1;
      }
      ok := true;
    }

    /** The write loop, once the position's cluster is current. */
    method WriteLoop(h: int, ghost v0: View, buffer: seq<Byte>) returns (written: nat, ghost ioError: bool)
      requires Valid() && IsOpen(h) && Wrote(v0, ViewOf(h), []) && AtCluster(handles[h], v0.f.position)
      modifies this`disk, this`fat, this`chains, this`handles, sectorBuf
      ensures Valid() && IsOpen(h) && handles == old(handles)[h := handles[h]]
      ensures written <= |buffer| && Wrote(v0, ViewOf(h), buffer[..written])
      ensures written < |buffer| && !ioError ==>
                FreeSet(fat) == {} && Capacity(g, |chains[handles[h].first]|) <= v0.f.position + written
    {
      ioError := false;
      written := 0;
      assert buffer[..0] == [];
      ghost var v1 := ViewOf(h);
      ghost var data := buffer[..0];
      while written < |buffer|
        invariant 0 <= written <= |buffer|
        invariant Valid() && IsOpen(h) && handles == old(handles)[h := handles[h]]
        invariant v1 == ViewOf(h) && data == buffer[..written] && Wrote(v0, v1, data)
        invariant written < |buffer| ==> AtCluster(handles[h], v0.f.position + written)
      {
        var rest := buffer[written..];
        var n, ok, full := WriteTurn(h, v0.f.position + written, rest);
        ghost var v2 := ViewOf(h);
        if !ok {
          assert v2 == v1;
          ioError := true;
          return;
        }
        SliceSplit(buffer, written, n);
        WroteTurn(v0, v1, v2, data, rest[..n]);
        v1, data := v2, data + rest[..n];
        written := written + n;
        if full {
          return;
        }
      }
    }

    /** Write at the position of an open file. Position and size are 32-bit
        words. `ioError` reports a failed data transfer. */
    method Write(h: int, buffer: seq<Byte>) returns (written: int, ghost ioError: bool)
      requires Valid() && |buffer| < WORD32
      modifies this`disk, this`fat, this`chains, this`handles, sectorBuf
      ensures Valid()
      ensures !old(IsOpen(h)) || old(handles)[h].mode == 0 ==>
                && written == -1 && disk == old(disk) && fat == old(fat)
                && chains == old(chains) && handles == old(handles)
      ensures old(IsOpen(h)) && old(handles)[h].mode != 0 ==>
                && IsOpen(h) && handles == old(handles)[h := handles[h]]
                && 0 <= written <= |buffer|
                && Wrote(old(ViewOf(h)), ViewOf(h), buffer[..written])
                && (written < |buffer| && !ioError ==>
                      && FreeSet(fat) == {}
                      && Capacity(g, |chains[handles[h].first]|) <= old(handles)[h].position + written)
    {
      if !IsOpen(h) || handles[h].mode == 0 {
        return -1, false;
      }
      ghost var v0 := ViewOf(h);
      WroteNothing(v0);
      var room := WalkForWrite(h);
      SplicedGrows(v0, v0, ViewOf(h), v0.f.position, []);
      if room {
        written, ioError := WriteLoop(h, v0, buffer);
      } else {
        assert buffer[..0] == [];
        written, ioError := 0, false;
      }
    }

    method Seek(h: int, offset: nat) returns (r: int)
      requires Valid()
      modifies this`handles
      ensures Valid()
      ensures !old(IsOpen(h)) ==> r == -1 && handles == old(handles)
      ensures old(IsOpen(h)) ==>
                && r == 0
                && handles == old(handles)[h := old(handles)[h].(position := Min(offset, old(handles)[h].size))]
    {
      if !IsOpen(h) {
        return -1;
      }
      var f := handles[h];
      var target := if offset > f.size then f.size else offset;
      handles := handles[h := f.(position := target)];
      r := 0;
    }

    // ----------------------------------------------------------------
    // Reading
    // ----------------------------------------------------------------

    /** The current cluster of a handle matches position ap, or is an end mark
        when ap is the end of the allocated space. */
    ghost predicate AtOrPastCluster(f: Handle, ap: nat)
      requires g.secPerClus > 0
      reads this
    {
      && f.first in chains
      && (if ClusterIndex(g, ap) < |chains[f.first]| then f.current == chains[f.first][ClusterIndex(g, ap)]
          else ClusterIndex(g, ap) == |chains[f.first]| && IsEoc(g.fatType, f.current))
    }

    /** Follow the link out of cluster k of a file. */
    method FollowLink(ghost first: nat, ghost k: nat, clus: nat) returns (next: nat)
      requires VolumeOk(g, disk, fat, chains) && first in chains && k < |chains[first]| && clus == chains[first][k]
      ensures if k + 1 < |chains[first]| then next == chains[first][k + 1] else IsEoc(g.fatType, next)
    {
      assert Shown(0);
      assert IsChain(g.fatType, fat, chains[first]);
      next := GetLink(clus);
      if k + 1 < |chains[first]| {
        assert LinkAt(fat, chains[first], k + 1);
      }
    }

    lemma LinksAreNotMarks(first: nat, k: nat)
      requires VolumeOk(g, disk, fat, chains) && first in chains && k < |chains[first]|
      ensures !IsEoc(g.fatType, chains[first][k])
    {
      assert Shown(0);
      assert IsChain(g.fatType, fat, chains[first]);
    }

    /** Walk to the cluster of the current position. */
    method WalkForRead(h: int)
      requires Valid() && IsOpen(h) && handles[h].position <= |ViewOf(h).Space()|
      modifies this`handles
      ensures Valid() && IsOpen(h) && AtOrPastCluster(handles[h], handles[h].position)
      ensures handles == old(handles)[h := old(handles)[h].(current := handles[h].current)]
    {
      var f := handles[h];
      ghost var first := f.first;
      assert 0 < |chains[first]| && chains[first][0] == first by { assert Shown(0); }
      SplitPosition(f.position, g.secPerClus);
      QuotRem(f.position / 512, g.secPerClus);
      IndexAtMost(g, f.position, |chains[first]|);
      var target := f.position / (g.secPerClus * 512);
      var cur := 0;
      var clus := f.first;
      LinksAreNotMarks(first, 0);
      while cur < target && !IsEoc(g.fatType, clus)
        invariant handles == old(handles) && 0 <= cur <= target <= |chains[first]|
        invariant if cur < |chains[first]| then clus == chains[first][cur] else IsEoc(g.fatType, clus)
        decreases target - cur
      {
        clus := FollowLink(first, cur, clus);
        cur := cur + 1;
      }
      if cur < |chains[first]| {
        LinksAreNotMarks(first, cur);
      }
      handles := handles[h := f.(current := clus)];
    }

    /** One turn of the read loop. */
    method ReadTurn(h: int, ghost ap: nat, want: nat) returns (data: seq<Byte>, ok: bool)
      requires Valid() && IsOpen(h) && want > 0
      requires handles[h].position == Wrap(ap)
      requires AtOrPastCluster(handles[h], ap) && !IsEoc(g.fatType, handles[h].current)
      modifies this`handles, sectorBuf
      ensures Valid() && IsOpen(h) && handles == old(handles)[h := handles[h]]
      ensures !ok ==> data == [] && handles == old(handles)
      ensures ok ==> 0 < |data| <= want && WasRead(old(ViewOf(h)), ViewOf(h), ap, data)
      ensures ok ==> AtOrPastCluster(handles[h], ap + |data|)
    {
      data := [];
      ghost var v := ViewOf(h);
      var f := handles[h];
      PositionParts(g, ap, f.position);
      var offset := f.position % (g.secPerClus * 512);
      var inCluster, inSector := offset / 512, offset % 512;
      var lba := g.ClusterSector(f.current, inCluster);
      var n := Min(512 - inSector, want);
      SectorSlice(v, ap, n);
      ok := ReadSector(lba);
      if ok {
        data := sectorBuf[inSector..inSector + n];
        AdvanceRead(h, ap, n);
      }
    }

    /** Move the position by n inside a sector, and on to the next cluster behind the
        last byte of one. */
    method AdvanceRead(h: int, ghost ap: nat, n: nat)
      requires Valid() && IsOpen(h) && handles[h].position == Wrap(ap) && 0 < n && ap % 512 + n <= 512
      requires ClusterIndex(g, ap) < |chains[handles[h].first]| && AtOrPastCluster(handles[h], ap)
      requires ap + n <= Capacity(g, |chains[handles[h].first]|)
      modifies this`handles
      ensures Valid() && IsOpen(h) && AtOrPastCluster(handles[h], ap + n)
      ensures handles == old(handles)[h := old(handles)[h].(position := Wrap(ap + n), current := handles[h].current)]
    {
      var f := handles[h];
      NextCluster(g, ap, n);
      WrapAdd(ap, n);
      f := f.(position := Wrap(f.position + n));
      if f.position % (g.secPerClus * 512) == 0 {
        var next := FollowLink(f.first, ClusterIndex(g, ap), f.current);
        f := f.(current := next);
      }
      ReadHandleOk(g, handles, chains, h, f.current, ap + n);
      handles := handles[h := f];
    }

    /** The read loop, once the position's cluster is current. */
    method ReadLoop(h: int, ghost p: nat, todo: nat) returns (data: seq<Byte>, ghost ioError: bool)
      requires Valid() && IsOpen(h) && handles[h].position == Wrap(p) && AtOrPastCluster(handles[h], p)
      requires p <= |ViewOf(h).Space()|
      modifies this`handles, sectorBuf
      ensures Valid() && IsOpen(h) && handles == old(handles)[h := handles[h]]
      ensures |data| <= todo && WasRead(old(ViewOf(h)), ViewOf(h), p, data)
      ensures !ioError ==> |data| == Min(todo, |old(ViewOf(h)).Space()| - p)
    {
      data := [];
      ioError := false;
      ghost var v0 := ViewOf(h);
      ReadNothing(v0, p);
      while |data| < todo && !IsEoc(g.fatType, handles[h].current)
        invariant Valid() && IsOpen(h) && |data| <= todo && handles == old(handles)[h := handles[h]]
        invariant WasRead(v0, ViewOf(h), p, data)
        invariant AtOrPastCluster(handles[h], p + |data|)
        decreases todo - |data|
      {
        ghost var v1 := ViewOf(h);
        var more, ok := ReadTurn(h, p + |data|, todo - |data|);
        if !ok {
          ioError := true;
          return;
        }
        ReadMore(v0, v1, ViewOf(h), p, data, more);
        data := data + more;
      }
      ReadRange(v0, ViewOf(h), p, data);
      if |data| < todo {
        if ClusterIndex(g, p + |data|) < |chains[handles[h].first]| {
          LinksAreNotMarks(handles[h].first, ClusterIndex(g, p + |data|));
        }
        EndOfSpace(v0, p + |data|);
      }
    }

    /** Not more than the file has left. */
    method Clamp(f: Handle, count: nat) returns (todo: nat)
      requires f.position < WORD32
      ensures todo == ReadCount(f.position, count, f.size)
    {
      todo := count;
      if Wrap(f.position + count) > f.size {
        todo := if f.position <= f.size then f.size - f.position else f.size + WORD32 - f.position;
      }
    }

    /** Read at the position of an open file. The clamp compares the wrapped
        sum of position and count with the size, as 32-bit code does. */
    method Read(h: int, count: nat) returns (n: int, data: seq<Byte>, ghost ioError: bool)
      requires Valid() && count < WORD32
      modifies this`handles, sectorBuf
      ensures Valid()
      ensures !old(IsOpen(h)) ==> n == -1 && handles == old(handles)
      ensures old(IsOpen(h)) ==>
                var f0 := old(handles)[h];
                var space := old(ViewOf(h)).Space();
                && IsOpen(h) && n == |data| && f0.position + n <= |space|
                && data == space[f0.position..f0.position + n]
                && handles == old(handles)[h := f0.(position := Wrap(f0.position + n), current := handles[h].current)]
                && n <= BytesRead(f0.position, count, f0.size, |space|)
                && (!ioError ==> n == BytesRead(f0.position, count, f0.size, |space|))
                && (f0.position <= f0.size && f0.position + count < WORD32 ==> handles[h].position <= f0.size)
                && (!ioError ==>
                      (handles[h].position <= f0.size <==>
                        || (f0.position <= f0.size && f0.position + count < WORD32)
                        || f0.size == |space| || |space| >= WORD32))
    {
      data := [];
      ioError := false;
      if !IsOpen(h) {
        return -1, [], false;
      }
      ghost var v := ViewOf(h);
      data, ioError := ReadOpen(h, count);
      n := |data|;
      ReadRange(v, ViewOf(h), v.f.position, data);
      PositionInsideIff(v.f.position, count, v.f.size, |v.Space()|);
    }

    method ReadOpen(h: int, count: nat) returns (data: seq<Byte>, ghost ioError: bool)
      requires Valid() && IsOpen(h)
      modifies this`handles, sectorBuf
      ensures Valid() && IsOpen(h) && handles == old(handles)[h := handles[h]]
      ensures WasRead(old(ViewOf(h)), ViewOf(h), old(handles)[h].position, data)
      ensures var v := old(ViewOf(h));
              |data| <= BytesRead(v.f.position, count, v.f.size, |v.Space()|)
      ensures var v := old(ViewOf(h));
              !ioError ==> |data| == BytesRead(v.f.position, count, v.f.size, |v.Space()|)
    {
      var f := handles[h];
      ghost var v := ViewOf(h);
      ReadNothing(v, f.position);
      var todo := Clamp(f, count);
      if todo == 0 {
        return [], false;
      }
      WalkForRead(h);
      data, ioError := ReadLoop(h, f.position, todo);
      SameSpaceRead(v, f.position, data, ViewOf(h));
    }
  }
}
