/** File contents as seen through a cluster chain. */
module FatData {
  import opened Numbers
  import opened FatLayout
  import opened FatChains

  ghost predicate InVolume(g: Geometry, ch: seq<nat>) {
    g.Wf() && forall i | 0 <= i < |ch| :: g.IsCluster(ch[i])
  }

  function Capacity(g: Geometry, clusters: nat): nat {
    clusters * (g.secPerClus * 512)
  }

  lemma CapacityGrows(g: Geometry, a: nat, b: nat)
    requires a <= b
    ensures Capacity(g, a) <= Capacity(g, b)
  {
    MulMonotone(a, b, g.secPerClus * 512);
  }

  /** Index in its chain of the cluster that holds byte i of a file. */
  function ClusterIndex(g: Geometry, i: nat): nat
    requires g.secPerClus > 0
  {
    Quot(i / 512, g.secPerClus)
  }

  /** Sector of that cluster that holds the byte. */
  function SectorIndex(g: Geometry, i: nat): nat
    requires g.secPerClus > 0
  {
    Rem(i / 512, g.secPerClus)
  }

  /** The disk sector that holds sector j of a file. */
  function FileSector(g: Geometry, ch: seq<nat>, j: nat): nat
    requires g.Wf() && Quot(j, g.secPerClus) < |ch| && 2 <= ch[Quot(j, g.secPerClus)]
  {
    g.ClusterSector(ch[Quot(j, g.secPerClus)], Rem(j, g.secPerClus))
  }

  /** Byte i of the allocated space of a file. */
  function DataByte(g: Geometry, d: seq<Sector>, ch: seq<nat>, i: nat): Byte
    requires Covers(g, d) && InVolume(g, ch) && i < Capacity(g, |ch|)
  {
    PositionInClusters(i, g.secPerClus, |ch|);
    ClusterSectorBounds(g, ch[Quot(i / 512, g.secPerClus)], Rem(i / 512, g.secPerClus));
    d[FileSector(g, ch, i / 512)][i % 512]
  }

  /** Byte r of the q-th cluster of a chain is a byte of the file, so many clusters
      behind its start; it lies in that cluster's sector r / 512. */
  lemma ByteInCluster(g: Geometry, d: seq<Sector>, ch: seq<nat>, q: nat, r: nat, i: nat)
    requires Covers(g, d) && InVolume(g, ch) && q < |ch| && r < 512 * g.secPerClus
    requires i == q * (512 * g.secPerClus) + r && i < Capacity(g, |ch|) && g.IsCluster(ch[q])
    ensures var s := g.ClusterSector(ch[q], r / 512); s < |d| && DataByte(g, d, ch, i) == d[s][r % 512]
  {
    var spc := g.secPerClus;
    assert i == 512 * (q * spc + r / 512) + r % 512 by { assert q * (512 * spc) == 512 * (q * spc); }
    DivModUnique(i, 512, q * spc + r / 512, r % 512);
    QuotRemOf(q, r / 512, spc);
    ClusterSectorBounds(g, ch[q], r / 512);
  }

  /** All bytes of the clusters of a chain, in chain order. */
  function FileData(g: Geometry, d: seq<Sector>, ch: seq<nat>): (r: seq<Byte>)
    requires Covers(g, d) && InVolume(g, ch)
    ensures |r| == Capacity(g, |ch|)
  {
    seq(Capacity(g, |ch|), i requires 0 <= i < Capacity(g, |ch|) => DataByte(g, d, ch, i))
  }

  // ------------------------------------------------------------------
  // Which cluster a data sector belongs to
  // ------------------------------------------------------------------

  predicate InFat(g: Geometry, s: nat) {
    g.firstFat <= s < g.FatBase(g.numFats)
  }

  /** Sector s belongs to one of the clusters of ch. */
  predicate InChain(g: Geometry, ch: seq<nat>, s: nat)
    requires g.secPerClus > 0
  {
    s >= g.firstData && Quot(s - g.firstData, g.secPerClus) + 2 in ch
  }

  lemma OwnerOfSector(g: Geometry, c: nat, r: nat)
    requires g.Wf() && 2 <= c && r < g.secPerClus
    ensures g.ClusterSector(c, r) >= g.firstData
    ensures Quot(g.ClusterSector(c, r) - g.firstData, g.secPerClus) + 2 == c
  {
    QuotRemOf(c - 2, r, g.secPerClus);
  }

  /** Only table sectors and sectors of ch differ between the two disks. */
  ghost predicate OnlyTouches(g: Geometry, d: seq<Sector>, e: seq<Sector>, ch: seq<nat>)
    requires g.secPerClus > 0
  {
    && |d| == |e|
    && forall s | 0 <= s < |d| && !InFat(g, s) && !InChain(g, ch, s) :: e[s] == d[s]
  }

  lemma OnlyTouchesGrows(g: Geometry, d: seq<Sector>, m: seq<Sector>, e: seq<Sector>, ch: seq<nat>, ch': seq<nat>)
    requires g.Wf() && OnlyTouches(g, d, m, ch) && OnlyTouches(g, m, e, ch') && ch <= ch'
    ensures OnlyTouches(g, d, e, ch')
  {
  }

  /** A disjoint file keeps its data. */
  lemma DisjointDataKept(g: Geometry, d: seq<Sector>, e: seq<Sector>, ch: seq<nat>, other: seq<nat>)
    requires Covers(g, d) && Covers(g, e) && InVolume(g, other) && OnlyTouches(g, d, e, ch)
    requires forall c | c in other :: c !in ch
    ensures FileData(g, e, other) == FileData(g, d, other)
  {
    forall i | 0 <= i < Capacity(g, |other|) ensures DataByte(g, e, other, i) == DataByte(g, d, other, i) {
      PositionInClusters(i, g.secPerClus, |other|);
      var c, r := other[Quot(i / 512, g.secPerClus)], Rem(i / 512, g.secPerClus);
      ClusterSectorBounds(g, c, r);
      OwnerOfSector(g, c, r);
      assert c in other;
    }
  }

  /** Growing a chain, with only table sectors written, keeps the old bytes. */
  lemma GrowthKeepsData(g: Geometry, d: seq<Sector>, e: seq<Sector>, ch: seq<nat>, ch': seq<nat>)
    requires Covers(g, d) && Covers(g, e) && InVolume(g, ch') && ch <= ch' && SameOutsideFat(g, d, e)
    ensures InVolume(g, ch)
    ensures Capacity(g, |ch|) <= Capacity(g, |ch'|)
    ensures FileData(g, e, ch')[..Capacity(g, |ch|)] == FileData(g, d, ch)
  {
    CapacityGrows(g, |ch|, |ch'|);
    forall i | 0 <= i < |ch| ensures g.IsCluster(ch[i]) {
      assert ch'[i] == ch[i];
    }
    forall i | 0 <= i < Capacity(g, |ch|) ensures DataByte(g, e, ch', i) == DataByte(g, d, ch, i) {
      PositionInClusters(i, g.secPerClus, |ch|);
      ClusterSectorBounds(g, ch[Quot(i / 512, g.secPerClus)], Rem(i / 512, g.secPerClus));
    }
  }

  // ------------------------------------------------------------------
  // Writing one sector of a file
  // ------------------------------------------------------------------

  function Overlay(s: Sector, off: nat, data: seq<Byte>): Sector
    requires off + |data| <= 512
  {
    s[..off] + data + s[off + |data|..]
  }

  /** The old bytes with `data` laid over them from position p on, growing the
      sequence when the data sticks out. */
  function Splice(old_: seq<Byte>, p: nat, data: seq<Byte>): (r: seq<Byte>)
    requires p <= |old_|
    ensures |r| == if p + |data| > |old_| then p + |data| else |old_|
  {
    seq(if p + |data| > |old_| then p + |data| else |old_|,
        i requires 0 <= i < p + |data| || 0 <= i < |old_| => if p <= i < p + |data| then data[i - p] else old_[i])
  }

  lemma FileSectorInjective(g: Geometry, ch: seq<nat>, j: nat, j': nat)
    requires InVolume(g, ch) && Quot(j, g.secPerClus) < |ch| && Quot(j', g.secPerClus) < |ch|
    requires forall a, b | 0 <= a < b < |ch| :: ch[a] != ch[b]
    requires FileSector(g, ch, j) == FileSector(g, ch, j')
    ensures j == j'
  {
    var spc := g.secPerClus;
    ClusterSectorInjective(g, ch[Quot(j, spc)], Rem(j, spc), ch[Quot(j', spc)], Rem(j', spc));
    assert Quot(j, spc) == Quot(j', spc);
    SameParts(j, j', spc);
  }

  lemma SectorOfPosition(g: Geometry, d: seq<Sector>, ch: seq<nat>, p: nat)
    requires Covers(g, d) && InVolume(g, ch) && p < Capacity(g, |ch|)
    ensures Quot(p / 512, g.secPerClus) < |ch|
    ensures FileSector(g, ch, p / 512) < |d|
    ensures !InFat(g, FileSector(g, ch, p / 512)) && InChain(g, ch, FileSector(g, ch, p / 512))
    ensures p / 512 * 512 + 511 < Capacity(g, |ch|)
  {
    var spc := g.secPerClus;
    PositionInClusters(p, spc, |ch|);
    PositionInClusters(p / 512 * 512 + 511, spc, |ch|);
    var c := ch[Quot(p / 512, spc)];
    ClusterSectorBounds(g, c, Rem(p / 512, spc));
    OwnerOfSector(g, c, Rem(p / 512, spc));
    assert c in ch;
  }

  lemma OverlayByte(g: Geometry, d: seq<Sector>, ch: seq<nat>, p: nat, data: seq<Byte>, e: seq<Sector>, i: nat)
    requires Covers(g, d) && Covers(g, e) && InVolume(g, ch)
    requires forall a, b | 0 <= a < b < |ch| :: ch[a] != ch[b]
    requires p < Capacity(g, |ch|) && p % 512 + |data| <= 512 && i < Capacity(g, |ch|)
    requires Quot(p / 512, g.secPerClus) < |ch| && FileSector(g, ch, p / 512) < |d|
    requires var s := FileSector(g, ch, p / 512); e == d[s := Overlay(d[s], p % 512, data)]
    ensures DataByte(g, e, ch, i) == if p <= i < p + |data| then data[i - p] else DataByte(g, d, ch, i)
  {
    SectorOfPosition(g, d, ch, i);
    if i / 512 != p / 512 && FileSector(g, ch, i / 512) == FileSector(g, ch, p / 512) {
      FileSectorInjective(g, ch, i / 512, p / 512);
    }
  }

  /** Overlaying part of one file sector is splicing into the file. */
  lemma OverlayIsSplice(g: Geometry, d: seq<Sector>, ch: seq<nat>, p: nat, data: seq<Byte>)
    requires Covers(g, d) && InVolume(g, ch)
    requires forall a, b | 0 <= a < b < |ch| :: ch[a] != ch[b]
    requires p < Capacity(g, |ch|) && p % 512 + |data| <= 512
    ensures Quot(p / 512, g.secPerClus) < |ch| && FileSector(g, ch, p / 512) < |d|
    ensures p + |data| <= Capacity(g, |ch|)
    ensures var s := FileSector(g, ch, p / 512);
            var e := d[s := Overlay(d[s], p % 512, data)];
            && !InFat(g, s)
            && OnlyTouches(g, d, e, ch)
            && FileData(g, e, ch) == Splice(FileData(g, d, ch), p, data)
  {
    SectorOfPosition(g, d, ch, p);
    var s := FileSector(g, ch, p / 512);
    var e := d[s := Overlay(d[s], p % 512, data)];
    forall i | 0 <= i < Capacity(g, |ch|)
      ensures DataByte(g, e, ch, i) == if p <= i < p + |data| then data[i - p] else DataByte(g, d, ch, i)
    {
      OverlayByte(g, d, ch, p, data, e, i);
    }
    SpliceByIndex(FileData(g, d, ch), FileData(g, e, ch), p, data);
  }

  lemma SpliceByIndex(old_: seq<Byte>, new_: seq<Byte>, p: nat, data: seq<Byte>)
    requires p + |data| <= |old_| == |new_|
    requires forall i | 0 <= i < |old_| :: new_[i] == if p <= i < p + |data| then data[i - p] else old_[i]
    ensures new_ == Splice(old_, p, data)
  {
  }
}
