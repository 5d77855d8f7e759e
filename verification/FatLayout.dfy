/** The on-disk layout of a FAT12/16/32 volume: boot-sector arithmetic, the
    packing of table entries into the bytes of a table copy, and the numbering
    of data sectors. Everything here is pure; FatVolume runs on top of it. */
module FatLayout {
  import opened Numbers

  /** One 512-byte sector, the only size the mount code accepts. */
  type Sector = s: seq<Byte> | |s| == 512 witness seq(512, _ => 0)

  datatype FatType = Fat12 | Fat16 | Fat32

  /** An entry (or a cluster number) at or above this value ends a chain. */
  function EocFloor(t: FatType): nat {
    match t
    case Fat12 => 0xFF8
    case Fat16 => 0xFFF8
    case Fat32 => 0x0FFF_FFF8
  }

  predicate IsEoc(t: FatType, entry: nat) {
    entry >= EocFloor(t)
  }

  /** A value cut to the width of one table entry. */
  function Cut(t: FatType, value: nat): nat {
    match t
    case Fat12 => value % 0x1000
    case Fat16 => value % 0x1_0000
    case Fat32 => value % 0x1000_0000
  }

  /** The end marks are the eight highest values an entry can hold. */
  lemma EndMarksIff(t: FatType, e: nat)
    requires Cut(t, e) == e
    ensures IsEoc(t, e) <==> Cut(t, e + 8) != e + 8
  {
  }

  /** The end mark the allocator stores before truncation to the entry width. */
  function EocMark(t: FatType): nat {
    if t == Fat16 then 0xFFFF else 0x0FFF_FFFF
  }

  /** The same mark as it reads back from the table. */
  function StoredMark(t: FatType): (m: nat)
    ensures m == Cut(t, EocMark(t)) && IsEoc(t, m)
  {
    match t
    case Fat12 => 0xFFF
    case Fat16 => 0xFFFF
    case Fat32 => 0x0FFF_FFFF
  }

  /** Offset in a table copy of the first byte of cluster c's entry. */
  function EntryOffset(t: FatType, c: nat): nat {
    match t
    case Fat12 => c + c / 2
    case Fat16 => 2 * c
    case Fat32 => 4 * c
  }

  /** Number of table bytes an entry touches. */
  function EntrySpan(t: FatType): nat {
    if t == Fat32 then 4 else 2
  }

  // ------------------------------------------------------------------
  // Geometry
  // ------------------------------------------------------------------

  datatype Geometry = Geometry(
    fatType: FatType,
    secPerClus: nat,
    numFats: nat,
    fatSize: nat,       // sectors per table copy
    firstFat: nat,
    rootDir: nat,       // fixed root directory of FAT12/16
    rootSecs: nat,
    firstData: nat,
    clusterCount: nat,
    totalSectors: nat)
  {
    function FatBase(f: nat): nat { firstFat + f * fatSize }

    function MaxCluster(): nat { clusterCount + 1 }

    predicate IsCluster(c: nat) { 2 <= c <= MaxCluster() }

    /** Sector s of cluster c. */
    function ClusterSector(c: nat, s: nat): nat
      requires 2 <= c
    {
      (c - 2) * secPerClus + firstData + s
    }

    ghost predicate Wf() {
      && 0 < secPerClus
      && 1 <= numFats
      && FatBase(numFats) <= firstData
      && firstData + clusterCount * secPerClus <= totalSectors
      && Details()
    }

    /** The cluster size is a power of two, the type follows from the cluster
        count, no cluster number is an end mark and the tables hold an entry for
        every cluster. Folded by `Shown`. */
    ghost predicate Details() {
      forall z {:trigger Shown(z)} | Shown(z) ::
        && secPerClus in {1, 2, 4, 8, 16, 32, 64, 128}
        && fatType == TypeOf(clusterCount)
        && !IsEoc(fatType, MaxCluster())
        && EntryOffset(fatType, MaxCluster()) + EntrySpan(fatType) <= fatSize * 512
    }
  }

  /** Type determination by cluster count. */
  function TypeOf(clusters: nat): FatType {
    if clusters < 4085 then Fat12
    else if clusters < 65525 then Fat16
    else Fat32
  }

  /** The boot-sector fields the mount code reads. */
  datatype Bpb = Bpb(
    secPerClus: nat,
    reserved: nat,
    numFats: nat,
    rootEntries: nat,
    fatSize: nat,
    totalSectors: nat)

  function RootSectors(b: Bpb): nat { (b.rootEntries * 32 + 511) / 512 }

  /** What the mount code demands of a boot sector for its arithmetic to make
      sense: the fixed areas fit the volume and the tables cover the clusters. */
  predicate SaneBpb(b: Bpb) {
    && b.secPerClus in {1, 2, 4, 8, 16, 32, 64, 128}
    && 1 <= b.numFats
    && b.reserved + b.numFats * b.fatSize + RootSectors(b) <= b.totalSectors
    && var clusters := (b.totalSectors - b.reserved - b.numFats * b.fatSize - RootSectors(b)) / b.secPerClus;
       && !IsEoc(Fat32, clusters + 1)
       && EntryOffset(TypeOf(clusters), clusters + 1) + EntrySpan(TypeOf(clusters)) <= b.fatSize * 512
  }

  /** The layout part of mounting. A FAT32 volume starts its data area at the
      end of the tables even when the root-entry field is not zero. */
  function Mount(b: Bpb): Geometry
    requires b.secPerClus > 0
    requires b.reserved + b.numFats * b.fatSize + RootSectors(b) <= b.totalSectors
  {
    var rootSecs := RootSectors(b);
    var rootDir := b.reserved + b.numFats * b.fatSize;
    var dataSecs := b.totalSectors - b.reserved - b.numFats * b.fatSize - rootSecs;
    var clusters := dataSecs / b.secPerClus;
    var t := TypeOf(clusters);
    Geometry(t, b.secPerClus, b.numFats, b.fatSize, b.reserved, rootDir, rootSecs,
             if t == Fat32 then rootDir else rootDir + rootSecs, clusters, b.totalSectors)
  }

  /** Every mounted volume has its tables, root directory and data area in
      order and inside the partition, and no cluster number of any of the three
      types can be mistaken for an end mark. */
  lemma MountIsWf(b: Bpb)
    requires SaneBpb(b)
    ensures Mount(b).Wf()
    ensures Mount(b).fatType != Fat32 ==> Mount(b).rootDir + Mount(b).rootSecs <= Mount(b).firstData
    ensures forall c | Mount(b).IsCluster(c) :: !IsEoc(Mount(b).fatType, c)
  {
    var g := Mount(b);
    var dataSecs := b.totalSectors - b.reserved - b.numFats * b.fatSize - RootSectors(b);
    WholePart(dataSecs, b.secPerClus);
  }

  /** Nothing lies between the areas: reserved sectors, table copies one behind the
      other, the fixed root directory (none for FAT32) with room for its entries,
      clusters from number 2 on, and less than a cluster left of the sectors counted
      as data. The type changes at 4085 and 65525 clusters. */
  lemma AreasAdjacent(b: Bpb, f: nat, c: nat, s: nat)
    requires SaneBpb(b) && 2 <= c
    ensures var g := Mount(b);
            && g.FatBase(0) == b.reserved && g.FatBase(f + 1) == g.FatBase(f) + b.fatSize
            && g.numFats == b.numFats && g.rootDir == g.FatBase(b.numFats)
            && g.rootSecs * 512 - 512 < 32 * b.rootEntries <= g.rootSecs * 512
            && g.firstData == (if g.clusterCount >= 65525 then g.rootDir else g.rootDir + g.rootSecs)
            && g.ClusterSector(2, 0) == g.firstData
            && g.ClusterSector(c + 1, 0) == g.ClusterSector(c, 0) + b.secPerClus
            && g.ClusterSector(c, s) == g.ClusterSector(c, 0) + s
            && var end := g.rootDir + g.rootSecs + g.clusterCount * b.secPerClus;
               end <= b.totalSectors < end + b.secPerClus
    ensures match Mount(b).fatType
            case Fat12 => Mount(b).clusterCount < 4085
            case Fat16 => 4085 <= Mount(b).clusterCount < 65525
            case Fat32 => 65525 <= Mount(b).clusterCount
  {
    var dataSecs := b.totalSectors - b.reserved - b.numFats * b.fatSize - RootSectors(b);
    assert dataSecs == dataSecs / b.secPerClus * b.secPerClus + dataSecs % b.secPerClus;
    assert (f + 1) * b.fatSize == f * b.fatSize + b.fatSize;
    assert (c - 1) * b.secPerClus == (c - 2) * b.secPerClus + b.secPerClus;
  }

  lemma WholePart(n: nat, d: nat)
    requires d > 0
    ensures n / d * d <= n
  {
    assert n == n / d * d + n % d;
  }

  // ------------------------------------------------------------------
  // Arithmetic of nested div and mod
  // ------------------------------------------------------------------

  /** Division by repeated subtraction: what `/` and `%` compute, in a form that
      keeps products of variables out of the proofs about files. */
  function Quot(j: nat, d: nat): nat
    requires d > 0
  {
    if j < d then 0 else 1 + Quot(j - d, d)
  }

  function Rem(j: nat, d: nat): (r: nat)
    requires d > 0
    ensures r < d
  {
    if j < d then j else Rem(j - d, d)
  }

  lemma {:induction false} QuotRem(j: nat, d: nat)
    requires d > 0
    ensures Quot(j, d) == j / d && Rem(j, d) == j % d
  {
    if j >= d {
      QuotRem(j - d, d);
      var q, r := (j - d) / d, (j - d) % d;
      assert j == q * d + r + d == (q + 1) * d + r;
      DivModUnique(j, d, q + 1, r);
    } else {
      DivModUnique(j, d, 0, j);
    }
  }

  lemma QuotRemOf(q: nat, r: nat, d: nat)
    requires r < d
    ensures q * d >= 0 && Quot(q * d + r, d) == q && Rem(q * d + r, d) == r
  {
    MulMonotone(0, q, d);
    QuotRem(q * d + r, d);
    DivModUnique(q * d + r, d, q, r);
  }

  lemma {:induction false} SameParts(j: nat, k: nat, d: nat)
    requires d > 0 && Quot(j, d) == Quot(k, d) && Rem(j, d) == Rem(k, d)
    ensures j == k
  {
    if j >= d && k >= d {
      SameParts(j - d, k - d, d);
    }
  }

  /** Splitting a byte position by cluster size is splitting it by sector size
      and then splitting the sector number by the sectors per cluster. */
  lemma SplitPosition(i: nat, spc: nat)
    requires spc > 0
    ensures spc * 512 > 0
    ensures i / (spc * 512) == (i / 512) / spc
    ensures (i % (spc * 512)) / 512 == (i / 512) % spc
    ensures (i % (spc * 512)) % 512 == i % 512
  {
    var j, r := i / 512, i % 512;
    var q, s := j / spc, j % spc;
    assert j == q * spc + s;
    assert i == 512 * (q * spc + s) + r;
    assert 512 * (q * spc) == q * (spc * 512);
    DivModUnique(i, spc * 512, q, 512 * s + r);
  }

  /** Position i lies inside n clusters exactly when its cluster index does. */
  lemma PositionInClusters(i: nat, spc: nat, n: nat)
    requires spc > 0
    ensures i < n * (spc * 512) <==> Quot(i / 512, spc) < n
  {
    SplitPosition(i, spc);
    QuotRem(i / 512, spc);
    DivBelow(i, spc * 512, n);
  }

  lemma DivBelow(i: nat, d: nat, n: nat)
    requires d > 0
    ensures i < n * d <==> i / d < n
  {
    var q := i / d;
    assert i == q * d + i % d;
    if q < n {
      MulMonotone(q + 1, n, d);
      assert (q + 1) * d == q * d + d;
    } else {
      MulMonotone(n, q, d);
    }
  }

  /** Different (cluster, sector) pairs are different sectors of the disk. */
  lemma ClusterSectorInjective(g: Geometry, c: nat, s: nat, c': nat, s': nat)
    requires g.secPerClus > 0 && 2 <= c && 2 <= c' && s < g.secPerClus && s' < g.secPerClus
    requires g.ClusterSector(c, s) == g.ClusterSector(c', s')
    ensures c == c' && s == s'
  {
    DivModUnique((c - 2) * g.secPerClus + s, g.secPerClus, c - 2, s);
    DivModUnique((c' - 2) * g.secPerClus + s', g.secPerClus, c' - 2, s');
  }

  /** Cluster sectors lie in the data area, inside the volume. */
  lemma ClusterSectorBounds(g: Geometry, c: nat, s: nat)
    requires g.Wf() && g.IsCluster(c) && s < g.secPerClus
    ensures g.FatBase(g.numFats) <= g.firstData <= g.ClusterSector(c, s) < g.totalSectors
  {
    assert (c - 2) * g.secPerClus >= 0;
    MulMonotone(c - 1, g.clusterCount, g.secPerClus);
    assert (c - 1) * g.secPerClus == (c - 2) * g.secPerClus + g.secPerClus;
  }

  // ------------------------------------------------------------------
  // Table bytes and entries
  // ------------------------------------------------------------------

  /** The disk is at least as long as the volume. */
  ghost predicate Covers(g: Geometry, d: seq<Sector>) {
    g.Wf() && g.totalSectors <= |d|
  }

  lemma FatBaseBounds(g: Geometry, f: nat, i: nat)
    requires g.Wf() && f < g.numFats && i < g.fatSize * 512
    ensures g.firstFat <= g.FatBase(f) <= g.FatBase(f) + i / 512 < g.FatBase(g.numFats) <= g.totalSectors
  {
    MulMonotone(f + 1, g.numFats, g.fatSize);
    assert (f + 1) * g.fatSize == f * g.fatSize + g.fatSize;
    assert f * g.fatSize >= 0;
    assert g.clusterCount * g.secPerClus >= 0;
  }

  /** Different (copy, sector) pairs of the tables are different sectors. */
  lemma FatSectorInjective(g: Geometry, f: nat, s: nat, f': nat, s': nat)
    requires s < g.fatSize && s' < g.fatSize
    requires g.FatBase(f) + s == g.FatBase(f') + s'
    ensures f == f' && s == s'
  {
    DivModUnique(f * g.fatSize + s, g.fatSize, f, s);
    DivModUnique(f' * g.fatSize + s', g.fatSize, f', s');
  }

  /** Byte i of table copy f. */
  function FatByte(g: Geometry, d: seq<Sector>, f: nat, i: nat): Byte
    requires Covers(g, d) && f < g.numFats && i < g.fatSize * 512
  {
    FatBaseBounds(g, f, i);
    d[g.FatBase(f) + i / 512][i % 512]
  }

  predicate HasEntry(g: Geometry, c: nat) {
    c <= g.MaxCluster()
  }

  lemma EntryFits(g: Geometry, c: nat)
    requires g.Wf() && HasEntry(g, c)
    ensures EntryOffset(g.fatType, c) + EntrySpan(g.fatType) <= g.fatSize * 512
  {
    assert Shown(0);
  }

  /** The entry of cluster c decoded from table copy f. */
  function Entry(g: Geometry, d: seq<Sector>, f: nat, c: nat): nat
    requires Covers(g, d) && f < g.numFats && HasEntry(g, c)
  {
    EntryFits(g, c);
    var o := EntryOffset(g.fatType, c);
    var b0, b1 := FatByte(g, d, f, o), FatByte(g, d, f, o + 1);
    match g.fatType
    case Fat12 => if c % 2 == 1 then (b0 + 256 * b1) / 16 else (b0 + 256 * b1) % 4096
    case Fat16 => b0 + 256 * b1
    case Fat32 =>
      var b2, b3 := FatByte(g, d, f, o + 2), FatByte(g, d, f, o + 3);
      (b0 + 256 * b1 + 0x1_0000 * b2 + 0x100_0000 * b3) % 0x1000_0000
  }

  // How entries lie in a table copy, lowest byte first: two 12-bit ones in three bytes,
  // 16-bit ones in two, and 28-bit ones in four below a reserved nibble.

  lemma EntryLayout12(g: Geometry, d: seq<Sector>, f: nat, n: nat)
    requires Covers(g, d) && f < g.numFats && g.fatType == Fat12 && HasEntry(g, 2 * n + 1)
    ensures 3 * n + 2 < g.fatSize * 512
    ensures var e0, e1 := Entry(g, d, f, 2 * n), Entry(g, d, f, 2 * n + 1);
            && e0 < 4096 && e1 < 4096
            && e0 + 4096 * e1
               == FatByte(g, d, f, 3 * n) + 256 * FatByte(g, d, f, 3 * n + 1) + 0x1_0000 * FatByte(g, d, f, 3 * n + 2)
  {
    EntryFits(g, 2 * n);
    EntryFits(g, 2 * n + 1);
    assert 2 * n / 2 == (2 * n + 1) / 2 == n && 2 * n % 2 == 0 && (2 * n + 1) % 2 == 1;
    var b0: nat, b1: nat, b2: nat := FatByte(g, d, f, 3 * n), FatByte(g, d, f, 3 * n + 1), FatByte(g, d, f, 3 * n + 2);
    Pair12(b0, b1, b2, Entry(g, d, f, 2 * n), Entry(g, d, f, 2 * n + 1));
  }

  lemma EntryLayout16(g: Geometry, d: seq<Sector>, f: nat, c: nat)
    requires Covers(g, d) && f < g.numFats && g.fatType == Fat16 && HasEntry(g, c)
    ensures 2 * c + 1 < g.fatSize * 512
    ensures Entry(g, d, f, c) == FatByte(g, d, f, 2 * c) + 256 * FatByte(g, d, f, 2 * c + 1)
  {
    EntryFits(g, c);
  }

  lemma EntryLayout32(g: Geometry, d: seq<Sector>, f: nat, c: nat)
    requires Covers(g, d) && f < g.numFats && g.fatType == Fat32 && HasEntry(g, c)
    ensures 4 * c + 3 < g.fatSize * 512 && Entry(g, d, f, c) < 0x1000_0000
    ensures Entry(g, d, f, c) + 0x1000_0000 * TopNibble(g, d, f, c)
            == FatByte(g, d, f, 4 * c) + 256 * FatByte(g, d, f, 4 * c + 1)
               + 0x1_0000 * FatByte(g, d, f, 4 * c + 2) + 0x100_0000 * FatByte(g, d, f, 4 * c + 3)
  {
    EntryFits(g, c);
    Nibble32(FatByte(g, d, f, 4 * c), FatByte(g, d, f, 4 * c + 1), FatByte(g, d, f, 4 * c + 2),
             FatByte(g, d, f, 4 * c + 3));
  }

  lemma Pair12(b0: nat, b1: nat, b2: nat, e0: nat, e1: nat)
    requires b0 < 256 && b1 < 256 && b2 < 256
    requires e0 == (b0 + 256 * b1) % 4096 && e1 == (b1 + 256 * b2) / 16
    ensures e0 < 4096 && e1 < 4096 && e0 + 4096 * e1 == b0 + 256 * b1 + 0x1_0000 * b2
  {
    var low, high := b1 % 16, b1 / 16;
    assert b1 == 16 * high + low;
    DivModUnique(b0 + 256 * b1, 4096, high, b0 + 256 * low);
    DivModUnique(b1 + 256 * b2, 16, high + 16 * b2, low);
  }

  lemma Nibble32(b0: Byte, b1: Byte, b2: Byte, b3: Byte)
    ensures var low := b0 + 256 * b1 + 0x1_0000 * b2 + 0x100_0000 * (b3 % 16);
            && low < 0x1000_0000 && (low + 0x1000_0000 * (b3 / 16)) % 0x1000_0000 == low
            && low + 0x1000_0000 * (b3 / 16) == b0 + 256 * b1 + 0x1_0000 * b2 + 0x100_0000 * b3
  {
  }

  /** The reserved top nibble of a FAT32 entry. */
  function TopNibble(g: Geometry, d: seq<Sector>, f: nat, c: nat): nat
    requires Covers(g, d) && f < g.numFats && HasEntry(g, c) && g.fatType == Fat32
  {
    EntryFits(g, c);
    FatByte(g, d, f, 4 * c + 3) / 16
  }

  /** First byte of a 12-bit entry: an odd entry owns its high nibble only. */
  function Low12(c: nat, v: nat, was: Byte): Byte {
    if c % 2 == 1 then was % 16 + (v % 16) * 16 else v % 256
  }

  /** Second byte of a 12-bit entry: an even entry owns its low nibble only. */
  function High12(c: nat, v: nat, was: Byte): Byte {
    if c % 2 == 1 then (v / 16) % 256 else was / 16 * 16 + (v / 256) % 16
  }

  /** The value table byte i takes when v is stored in the entry of cluster c
      and the byte was `was` before. */
  function ByteAfterPut(t: FatType, c: nat, v: nat, i: nat, was: Byte): Byte {
    var o := EntryOffset(t, c);
    match t
    case Fat12 => if i == o then Low12(c, v, was) else if i == o + 1 then High12(c, v, was) else was
    case Fat16 =>
      if i == o then v % 256 else if i == o + 1 then (v / 256) % 256 else was
    case Fat32 =>
      if i == o then v % 256
      else if i == o + 1 then (v / 256) % 256
      else if i == o + 2 then (v / 0x1_0000) % 256
      else if i == o + 3 then was / 16 * 16 + (v / 0x100_0000) % 16 else was
  }

  /** Disk e is disk d with v stored in the entry of cluster c of every copy. */
  ghost predicate IsPut(g: Geometry, d: seq<Sector>, e: seq<Sector>, c: nat, v: nat)
    requires Covers(g, d) && Covers(g, e)
  {
    forall f, i | 0 <= f < g.numFats && 0 <= i < g.fatSize * 512 ::
      FatByte(g, e, f, i) == ByteAfterPut(g.fatType, c, v, i, FatByte(g, d, f, i))
  }

  /** Outside the tables nothing changed. */
  ghost predicate SameOutsideFat(g: Geometry, d: seq<Sector>, e: seq<Sector>) {
    && |d| == |e|
    && forall s | 0 <= s < |d| && (s < g.firstFat || g.FatBase(g.numFats) <= s) :: e[s] == d[s]
  }

  /** Two table copies hold the same bytes everywhere. */
  ghost predicate Mirrored(g: Geometry, d: seq<Sector>)
    requires Covers(g, d)
  {
    forall f, i | 0 <= f < g.numFats && 0 <= i < g.fatSize * 512 ::
      FatByte(g, d, f, i) == FatByte(g, d, 0, i)
  }

  /** t is the table as the file layer sees it: the decoded entries of copy 0. */
  ghost predicate IsTable(g: Geometry, d: seq<Sector>, t: seq<nat>)
    requires Covers(g, d)
  {
    && |t| == g.MaxCluster() + 1
    && forall c {:trigger Entry(g, d, 0, c)} | 0 <= c <= g.MaxCluster() :: t[c] == Entry(g, d, 0, c)
  }

  // The byte-level facts behind reading back an entry and keeping the others.

  lemma OddEntry12(was: Byte, v: nat)
    ensures (was % 16 + (v % 16) * 16 + 256 * ((v / 16) % 256)) / 16 == v % 4096
  {
    var u := v / 16;
    assert v == 16 * u + v % 16;
    assert u == 256 * (u / 256) + u % 256;
    DivModUnique(v, 4096, u / 256, 16 * (u % 256) + v % 16);
  }

  lemma EvenEntry12(was: Byte, v: nat)
    ensures (v % 256 + 256 * (was / 16 * 16 + (v / 256) % 16)) % 4096 == v % 4096
  {
    var u := v / 256;
    assert v == 256 * u + v % 256;
    assert u == 16 * (u / 16) + u % 16;
    DivModUnique(v, 4096, u / 16, 256 * (u % 16) + v % 256);
    DivModUnique(v % 256 + 256 * (was / 16 * 16 + u % 16), 4096, was / 16, 256 * (u % 16) + v % 256);
  }

  lemma OddNeighbour12(a0: Byte, a1: Byte, x: nat)
    requires x < 16
    ensures (a0 / 16 * 16 + x + 256 * a1) / 16 == (a0 + 256 * a1) / 16
  {
  }

  lemma EvenNeighbour12(a0: Byte, a1: Byte, y: nat)
    ensures (a0 + 256 * (a1 % 16 + y * 16)) % 4096 == (a0 + 256 * a1) % 4096
  {
    DivModUnique(a0 + 256 * (a1 % 16 + y * 16), 4096, y, a0 + 256 * (a1 % 16));
    DivModUnique(a0 + 256 * a1, 4096, a1 / 16, a0 + 256 * (a1 % 16));
  }

  lemma Entry16(v: nat)
    ensures v % 256 + 256 * ((v / 256) % 256) == v % 0x1_0000
  {
    var u := v / 256;
    DivModUnique(v, 0x1_0000, u / 256, 256 * (u % 256) + v % 256);
  }

  lemma Entry32(was: Byte, v: nat)
    ensures (v % 256 + 256 * ((v / 256) % 256) + 0x1_0000 * ((v / 0x1_0000) % 256)
             + 0x100_0000 * (was / 16 * 16 + (v / 0x100_0000) % 16)) % 0x1000_0000 == v % 0x1000_0000
  {
    var v2 := v / 0x1_0000;
    var v3 := v / 0x100_0000;
    Entry16(v);
    Entry16(v2);
    assert v2 / 256 == v3;
    var low := v % 0x1_0000 + 0x1_0000 * (v2 % 256);
    assert v == low + 0x100_0000 * v3;
    DivModUnique(v, 0x1000_0000, v3 / 16, low + 0x100_0000 * (v3 % 16));
    DivModUnique(low + 0x100_0000 * (was / 16 * 16 + v3 % 16), 0x1000_0000, was / 16, low + 0x100_0000 * (v3 % 16));
  }

  /** Storing an entry makes it read back as the value cut to the entry width,
      in every copy. */
  lemma EntryReadsBack(g: Geometry, d: seq<Sector>, e: seq<Sector>, f: nat, c: nat, v: nat)
    requires Covers(g, d) && Covers(g, e) && IsPut(g, d, e, c, v)
    requires f < g.numFats && HasEntry(g, c)
    ensures Entry(g, e, f, c) == Cut(g.fatType, v)
  {
    match g.fatType
    case Fat12 => EntryReadsBack12(g, d, e, f, c, v);
    case Fat16 => EntryReadsBack16(g, d, e, f, c, v);
    case Fat32 => EntryReadsBack32(g, d, e, f, c, v);
  }

  lemma EntryReadsBack16(g: Geometry, d: seq<Sector>, e: seq<Sector>, f: nat, c: nat, v: nat)
    requires Covers(g, d) && Covers(g, e) && IsPut(g, d, e, c, v) && g.fatType == Fat16
    requires f < g.numFats && HasEntry(g, c)
    ensures Entry(g, e, f, c) == Cut(Fat16, v)
  {
    EntryFits(g, c);
    var o := EntryOffset(Fat16, c);
    assert FatByte(g, e, f, o) == v % 256 && FatByte(g, e, f, o + 1) == (v / 256) % 256;
    Entry16(v);
  }

  lemma EntryReadsBack32(g: Geometry, d: seq<Sector>, e: seq<Sector>, f: nat, c: nat, v: nat)
    requires Covers(g, d) && Covers(g, e) && IsPut(g, d, e, c, v) && g.fatType == Fat32
    requires f < g.numFats && HasEntry(g, c)
    ensures Entry(g, e, f, c) == Cut(Fat32, v)
  {
    EntryFits(g, c);
    var o := EntryOffset(Fat32, c);
    var was := FatByte(g, d, f, o + 3);
    Joined32(v, was, FatByte(g, e, f, o), FatByte(g, e, f, o + 1), FatByte(g, e, f, o + 2), FatByte(g, e, f, o + 3));
  }

  lemma Joined32(v: nat, was: Byte, b0: nat, b1: nat, b2: nat, b3: nat)
    requires b0 == v % 256 && b1 == (v / 256) % 256 && b2 == (v / 0x1_0000) % 256
    requires b3 == was / 16 * 16 + (v / 0x100_0000) % 16
    ensures (b0 + 256 * b1 + 0x1_0000 * b2 + 0x100_0000 * b3) % 0x1000_0000 == v % 0x1000_0000
  {
    Entry32(was, v);
  }

  lemma EntryReadsBack12(g: Geometry, d: seq<Sector>, e: seq<Sector>, f: nat, c: nat, v: nat)
    requires Covers(g, d) && Covers(g, e) && IsPut(g, d, e, c, v) && g.fatType == Fat12
    requires f < g.numFats && HasEntry(g, c)
    ensures Entry(g, e, f, c) == Cut(Fat12, v)
  {
    EntryFits(g, c);
    var o := EntryOffset(Fat12, c);
    if c % 2 == 1 {
      OddEntry12(FatByte(g, d, f, o), v);
    } else {
      EvenEntry12(FatByte(g, d, f, o + 1), v);
    }
  }

  /** ... and every other entry keeps its value, including the FAT12 neighbour
      that shares a byte. */
  lemma OtherEntryKept(g: Geometry, d: seq<Sector>, e: seq<Sector>, f: nat, c: nat, v: nat, c': nat)
    requires Covers(g, d) && Covers(g, e) && IsPut(g, d, e, c, v)
    requires f < g.numFats && HasEntry(g, c) && HasEntry(g, c') && c' != c
    ensures Entry(g, e, f, c') == Entry(g, d, f, c')
  {
    EntryFits(g, c');
    if g.fatType == Fat12 {
      OtherEntryKept12(g, d, e, f, c, v, c');
    }
  }

  lemma OtherEntryKept12(g: Geometry, d: seq<Sector>, e: seq<Sector>, f: nat, c: nat, v: nat, c': nat)
    requires Covers(g, d) && Covers(g, e) && IsPut(g, d, e, c, v) && g.fatType == Fat12
    requires f < g.numFats && HasEntry(g, c) && HasEntry(g, c') && c' != c
    ensures Entry(g, e, f, c') == Entry(g, d, f, c')
  {
    EntryFits(g, c');
    var o := EntryOffset(Fat12, c');
    var a0, a1 := FatByte(g, d, f, o), FatByte(g, d, f, o + 1);
    if c % 2 == 0 && c' == c + 1 {
      OddNeighbour12(a0, a1, (v / 256) % 16);
      assert o == EntryOffset(Fat12, c) + 1;
    } else if c' % 2 == 0 && c == c' + 1 {
      EvenNeighbour12(a0, a1, v % 16);
      assert o + 1 == EntryOffset(Fat12, c);
    } else {
      DistinctEntries12(c, c');
    }
  }

  lemma DistinctEntries12(c: nat, c': nat)
    requires c != c' && !(c % 2 == 0 && c' == c + 1) && !(c' % 2 == 0 && c == c' + 1)
    ensures var o, o' := EntryOffset(Fat12, c), EntryOffset(Fat12, c');
            o' != o && o' != o + 1 && o' + 1 != o
  {
  }

  /** The complete effect of a table write: one entry of the decoded table
      changes, all copies stay equal, and FAT32 top nibbles survive. */
  lemma PutEffect(g: Geometry, d: seq<Sector>, e: seq<Sector>, t: seq<nat>, c: nat, v: nat)
    requires Covers(g, d) && Covers(g, e) && IsPut(g, d, e, c, v) && HasEntry(g, c) && IsTable(g, d, t)
    ensures IsTable(g, e, t[c := Cut(g.fatType, v)])
    ensures Mirrored(g, d) ==> Mirrored(g, e)
    ensures g.fatType == Fat32 ==>
              forall f, c' | 0 <= f < g.numFats && 0 <= c' <= g.MaxCluster() ::
                TopNibble(g, e, f, c') == TopNibble(g, d, f, c')
  {
    forall c' | 0 <= c' <= g.MaxCluster()
      ensures t[c := Cut(g.fatType, v)][c'] == Entry(g, e, 0, c')
    {
      assert t[c'] == Entry(g, d, 0, c');
      if c' == c {
        EntryReadsBack(g, d, e, 0, c, v);
      } else {
        OtherEntryKept(g, d, e, 0, c, v, c');
      }
    }
    if g.fatType == Fat32 {
      forall f, c' | 0 <= f < g.numFats && 0 <= c' <= g.MaxCluster()
        ensures TopNibble(g, e, f, c') == TopNibble(g, d, f, c')
      {
        EntryFits(g, c');
        assert FatByte(g, e, f, 4 * c' + 3) == ByteAfterPut(Fat32, c, v, 4 * c' + 3, FatByte(g, d, f, 4 * c' + 3));
      }
    }
  }

  /** Writes outside the tables leave the decoded table and the mirroring alone. */
  lemma TableIgnoresData(g: Geometry, d: seq<Sector>, e: seq<Sector>, t: seq<nat>)
    requires Covers(g, d) && Covers(g, e) && IsTable(g, d, t)
    requires forall s | g.firstFat <= s < g.FatBase(g.numFats) :: e[s] == d[s]
    ensures IsTable(g, e, t)
    ensures Mirrored(g, d) ==> Mirrored(g, e)
  {
    forall f, i | 0 <= f < g.numFats && 0 <= i < g.fatSize * 512
      ensures FatByte(g, e, f, i) == FatByte(g, d, f, i)
    {
      FatBaseBounds(g, f, i);
    }
    forall c | 0 <= c <= g.MaxCluster()
      ensures Entry(g, e, 0, c) == Entry(g, d, 0, c)
    {
      EntryFits(g, c);
    }
  }
}
