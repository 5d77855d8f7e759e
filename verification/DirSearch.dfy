/** Searching a directory: every search call reads the directory from its first sector
    on and skips the entries before a saved index. */
module DirSearch {
  import opened Numbers
  import opened FatVolume
  import L = FatLayout
  import C = FatChains
  import D = FatData

  const END: Byte := 0x00
  const DELETED: Byte := 0xE5
  const LONG_NAME: Byte := 0x0F
  const WILD: Byte := 0x3F

  /** The eleven name bytes and the attributes of a directory entry, with the rest
      of what a search reports. */
  datatype Entry = Entry(name: seq<Byte>, attr: Byte, size: nat, cluster: nat)

  predicate WfNames(es: seq<Entry>) { forall i | 0 <= i < |es| :: |es[i].name| == 11 }

  predicate WfSector(s: seq<Entry>) { |s| == 16 && WfNames(s) }

  /** An entry of a file or directory, as opposed to a deleted one, a piece of a
      long name or a volume label. */
  predicate Listed(e: Entry)
    requires |e.name| == 11
  {
    e.name[0] != DELETED && e.attr != LONG_NAME && e.attr / 8 % 2 == 0
  }

  predicate Matches(name: seq<Byte>, pattern: seq<Byte>)
    requires |name| == |pattern| == 11
  {
    forall i | 0 <= i < 11 :: pattern[i] == WILD || pattern[i] == name[i]
  }

  predicate Hit(e: Entry, pattern: seq<Byte>)
    requires |e.name| == |pattern| == 11
  {
    Listed(e) && Matches(e.name, pattern)
  }

  function Word(s: L.Sector, o: nat): nat
    requires o + 2 <= 512
  {
    var low: nat, high: nat := s[o], s[o + 1];
    low + 0x100 * high
  }

  /** Directory entry i of a sector. */
  function EntryAt(s: L.Sector, i: nat): (e: Entry)
    requires i < 16
    ensures |e.name| == 11
  {
    var o := 32 * i;
    Entry(s[o..o + 11], s[o + 11], Word(s, o + 28) + 0x1_0000 * Word(s, o + 30),
          Word(s, o + 26) + 0x1_0000 * Word(s, o + 20))
  }

  /** Byte k of a 32-bit number, lowest first. */
  function ByteOf(n: nat, k: nat): nat
    requires k < 4
  {
    if k == 0 then n % 0x100 else if k == 1 then n / 0x100 % 0x100
    else if k == 2 then n / 0x1_0000 % 0x100 else n / 0x100_0000
  }

  /** Where the fields of entry i lie: eleven bytes of name, the attributes behind
      them, the size in the last four bytes, and the first cluster in two halves. */
  lemma EntryBytes(s: L.Sector, i: nat)
    requires i < 16
    ensures var e, at := EntryAt(s, i), 32 * i;
            && (forall k | 0 <= k < 11 :: e.name[k] == s[at + k]) && e.attr == s[at + 11]
            && (forall k | 0 <= k < 4 :: ByteOf(e.size, k) == s[at + 28 + k])
            && (forall k | 0 <= k < 2 :: ByteOf(e.cluster, k) == s[at + 26 + k])
            && (forall k | 2 <= k < 4 :: ByteOf(e.cluster, k) == s[at + 18 + k])
  {
    var at := 32 * i;
    FourBytes(s[at + 28], s[at + 29], s[at + 30], s[at + 31]);
    FourBytes(s[at + 26], s[at + 27], s[at + 20], s[at + 21]);
  }

  lemma FourBytes(b0: nat, b1: nat, b2: nat, b3: nat)
    requires b0 < 0x100 && b1 < 0x100 && b2 < 0x100 && b3 < 0x100
    ensures var n := b0 + 0x100 * b1 + 0x1_0000 * (b2 + 0x100 * b3);
            ByteOf(n, 0) == b0 && ByteOf(n, 1) == b1 && ByteOf(n, 2) == b2 && ByteOf(n, 3) == b3
  {
  }

  function Decoded(s: L.Sector): (es: seq<Entry>)
    ensures WfSector(es)
  {
    seq(16, i requires 0 <= i < 16 => EntryAt(s, i))
  }

  predicate Readable(disk: seq<L.Sector>, lbas: seq<nat>) {
    forall k | 0 <= k < |lbas| :: lbas[k] < |disk|
  }

  /** The directory in these sectors: their entries up to the end mark. */
  function Listing(disk: seq<L.Sector>, lbas: seq<nat>): (es: seq<Entry>)
    requires Readable(disk, lbas)
    ensures WfNames(es)
    decreases |lbas|
  {
    if lbas == [] then []
    else
      var s := Decoded(disk[lbas[0]]);
      if Upto(s) < 16 then s[..Upto(s)] else s + Listing(disk, lbas[1..])
  }

  /** Entry k of a directory, sixteen to a sector. */
  function SlotAt(disk: seq<L.Sector>, lbas: seq<nat>, k: nat): (e: Entry)
    requires Readable(disk, lbas) && k < 16 * |lbas|
    ensures |e.name| == 11
  {
    EntryAt(disk[lbas[k / 16]], k % 16)
  }

  lemma SlotShift(disk: seq<L.Sector>, lbas: seq<nat>, k: nat)
    requires Readable(disk, lbas) && 16 <= k < 16 * |lbas|
    ensures SlotAt(disk, lbas, k) == SlotAt(disk, lbas[1..], k - 16)
  {
    assert (k - 16) / 16 == k / 16 - 1 && (k - 16) % 16 == k % 16;
  }

  /** A directory is its entries in order up to the first one whose name starts with a
      zero byte. */
  lemma {:induction false} ListingAt(disk: seq<L.Sector>, lbas: seq<nat>)
    requires Readable(disk, lbas)
    ensures var es, n := Listing(disk, lbas), |Listing(disk, lbas)|;
            && n <= 16 * |lbas|
            && (forall k | 0 <= k < n :: es[k] == SlotAt(disk, lbas, k) && es[k].name[0] != 0)
            && (n < 16 * |lbas| ==> SlotAt(disk, lbas, n).name[0] == 0)
    decreases |lbas|
  {
    if lbas != [] {
      var s, rest, es := Decoded(disk[lbas[0]]), Listing(disk, lbas[1..]), Listing(disk, lbas);
      ListingAt(disk, lbas[1..]);
      if Upto(s) == 16 {
        forall k | 0 <= k < |es| ensures es[k] == SlotAt(disk, lbas, k) && es[k].name[0] != 0 {
          if k >= 16 {
            SlotShift(disk, lbas, k);
            assert es[k] == rest[k - 16];
          }
        }
        if |es| < 16 * |lbas| {
          SlotShift(disk, lbas, |es|);
        }
      }
    }
  }

  /** A directory is the fixed root of FAT12/16 or the clusters of a chain. */
  datatype Place = Root | Chain(first: nat)

  /** The sectors of the fixed root directory from number k on. */
  function RootLbas(g: L.Geometry, k: nat): seq<nat>
    requires k <= g.rootSecs
    decreases g.rootSecs - k
  {
    if k == g.rootSecs then [] else [g.rootDir + k] + RootLbas(g, k + 1)
  }

  /** The sectors of a cluster from sector j on. */
  function ClusterLbas(g: L.Geometry, c: nat, j: nat): seq<nat>
    requires 2 <= c && j <= g.secPerClus
    decreases g.secPerClus - j
  {
    if j == g.secPerClus then [] else [g.ClusterSector(c, j)] + ClusterLbas(g, c, j + 1)
  }

  lemma ClusterTail(g: L.Geometry, c: nat, j: nat, rest: seq<nat>)
    requires 2 <= c && j < g.secPerClus
    ensures var lbas := ClusterLbas(g, c, j) + rest;
            lbas[0] == g.ClusterSector(c, j) && lbas[1..] == ClusterLbas(g, c, j + 1) + rest
  {
  }

  function ChainLbas(g: L.Geometry, ch: seq<nat>): seq<nat>
    requires forall k | 0 <= k < |ch| :: 2 <= ch[k]
  {
    if ch == [] then [] else ClusterLbas(g, ch[0], 0) + ChainLbas(g, ch[1..])
  }

  ghost predicate WfPlace(vol: Volume, place: Place)
    reads vol
  {
    match place
    case Root => vol.g.fatType != L.Fat32 && vol.g.rootDir + vol.g.rootSecs <= |vol.disk|
    case Chain(first) => first in vol.chains
  }

  ghost function Lbas(vol: Volume, place: Place): (lbas: seq<nat>)
    requires vol.Valid() && WfPlace(vol, place)
    reads vol
    ensures Readable(vol.disk, lbas)
  {
    match place
    case Root =>
      RootReadable(vol.g, vol.disk, 0);
      RootLbas(vol.g, 0)
    case Chain(first) =>
      ChainInVolume(vol.g, vol.disk, vol.fat, vol.chains, first);
      ChainReadable(vol.g, vol.disk, vol.chains[first]);
      ChainLbas(vol.g, vol.chains[first])
  }

  ghost function Entries(vol: Volume, place: Place): (es: seq<Entry>)
    requires vol.Valid() && WfPlace(vol, place)
    reads vol
    ensures WfNames(es)
  {
    Listing(vol.disk, Lbas(vol, place))
  }

  /** The fixed root directory is the sectors behind the tables, one after the other. */
  lemma {:induction false} RootLbasAt(g: L.Geometry, k: nat)
    requires k <= g.rootSecs
    ensures |RootLbas(g, k)| == g.rootSecs - k
    ensures forall j | 0 <= j < g.rootSecs - k :: RootLbas(g, k)[j] == g.rootDir + k + j
    decreases g.rootSecs - k
  {
    if k < g.rootSecs {
      RootLbasAt(g, k + 1);
    }
  }

  lemma {:induction false} ClusterLbasAt(g: L.Geometry, c: nat, j: nat)
    requires 2 <= c && j <= g.secPerClus
    ensures |ClusterLbas(g, c, j)| == g.secPerClus - j
    ensures forall k | 0 <= k < g.secPerClus - j :: ClusterLbas(g, c, j)[k] == g.ClusterSector(c, j + k)
    decreases g.secPerClus - j
  {
    if j < g.secPerClus {
      ClusterLbasAt(g, c, j + 1);
    }
  }

  /** Sector s of the q-th cluster of a directory's chain is so many clusters and
      sectors behind its first. */
  lemma {:induction false} ChainLbasAt(g: L.Geometry, ch: seq<nat>, q: nat, s: nat)
    requires (forall k | 0 <= k < |ch| :: 2 <= ch[k]) && q < |ch| && s < g.secPerClus
    ensures q * g.secPerClus + s < |ChainLbas(g, ch)|
    ensures ChainLbas(g, ch)[q * g.secPerClus + s] == g.ClusterSector(ch[q], s)
  {
    ClusterLbasAt(g, ch[0], 0);
    if q > 0 {
      ChainLbasAt(g, ch[1..], q - 1, s);
      assert q * g.secPerClus + s == g.secPerClus + ((q - 1) * g.secPerClus + s);
      Behind(ClusterLbas(g, ch[0], 0), ChainLbas(g, ch[1..]), (q - 1) * g.secPerClus + s);
    }
  }

  lemma Behind(a: seq<nat>, b: seq<nat>, i: nat)
    requires i < |b|
    ensures (a + b)[|a| + i] == b[i]
  {
  }

  lemma RootTail(g: L.Geometry, k: nat)
    requires k < g.rootSecs
    ensures RootLbas(g, k) != [] && RootLbas(g, k)[0] == g.rootDir + k && RootLbas(g, k)[1..] == RootLbas(g, k + 1)
  {
  }

  lemma {:induction false} RootReadable(g: L.Geometry, disk: seq<L.Sector>, k: nat)
    requires g.rootDir + g.rootSecs <= |disk| && k <= g.rootSecs
    ensures Readable(disk, RootLbas(g, k))
    decreases g.rootSecs - k
  {
    if k < g.rootSecs {
      RootReadable(g, disk, k + 1);
    }
  }

  lemma {:induction false} ClusterReadable(g: L.Geometry, disk: seq<L.Sector>, c: nat, j: nat)
    requires L.Covers(g, disk) && g.IsCluster(c) && j <= g.secPerClus
    ensures Readable(disk, ClusterLbas(g, c, j))
    decreases g.secPerClus - j
  {
    if j < g.secPerClus {
      L.ClusterSectorBounds(g, c, j);
      ClusterReadable(g, disk, c, j + 1);
    }
  }

  lemma {:induction false} ChainReadable(g: L.Geometry, disk: seq<L.Sector>, ch: seq<nat>)
    requires L.Covers(g, disk) && D.InVolume(g, ch)
    ensures (forall k | 0 <= k < |ch| :: 2 <= ch[k]) && Readable(disk, ChainLbas(g, ch))
  {
    if ch != [] {
      ClusterReadable(g, disk, ch[0], 0);
      ChainReadable(g, disk, ch[1..]);
    }
  }

  /** Index of the first end mark, or the length. */
  function Upto(s: seq<Entry>): (n: nat)
    requires WfNames(s)
    ensures n <= |s| && (n < |s| ==> s[n].name[0] == END) && forall i | 0 <= i < n :: s[i].name[0] != END
  {
    if s == [] || s[0].name[0] == END then 0
    else
      var r := Upto(s[1..]);
      assert forall i | 1 <= i < 1 + r :: s[i] == s[1..][i - 1];
      1 + r
  }

  /** First hit at or behind index skip, or the length. */
  function NextHit(es: seq<Entry>, pattern: seq<Byte>, skip: nat): (i: nat)
    requires WfNames(es) && |pattern| == 11 && skip <= |es|
    ensures skip <= i <= |es| && (i < |es| ==> Hit(es[i], pattern))
    ensures forall k | skip <= k < i :: !Hit(es[k], pattern)
    decreases |es| - skip
  {
    if skip == |es| || Hit(es[skip], pattern) then skip else NextHit(es, pattern, skip + 1)
  }

  // ------------------------------------------------------------------
  // The search
  // ------------------------------------------------------------------

  method MatchPattern(name: seq<Byte>, pattern: seq<Byte>) returns (ok: bool)
    requires |name| == |pattern| == 11
    ensures ok == Matches(name, pattern)
  {
    for i := 0 to 11
      invariant forall k | 0 <= k < i :: pattern[k] == WILD || pattern[k] == name[k]
    {
      if pattern[i] != WILD && pattern[i] != name[i] {
        return false;
      }
    }
    ok := true;
  }

  /** The entries of one sector, of which the first has index `start`. */
  method ScanSector(s: seq<Entry>, pattern: seq<Byte>, skip: nat, start: nat)
    returns (stop: bool, found: bool, current: nat)
    requires WfSector(s) && |pattern| == 11
    ensures found ==> start <= current < start + Upto(s) && skip <= current && Hit(s[current - start], pattern)
                      && forall k | 0 <= k < current - start && skip <= start + k :: !Hit(s[k], pattern)
    ensures !found ==> forall k | 0 <= k < Upto(s) && skip <= start + k :: !Hit(s[k], pattern)
    ensures !found ==> (stop <==> Upto(s) < 16) && (!stop ==> current == start + 16)
  {
    current := start;
    for i := 0 to 16
      invariant current == start + i && i <= Upto(s)
      invariant forall k | 0 <= k < i && skip <= start + k :: !Hit(s[k], pattern)
    {
      var e := s[i];
      if e.name[0] == END {
        return true, false, current;
      }
      if e.name[0] == DELETED || e.attr == LONG_NAME || e.attr / 8 % 2 == 1 {
        current := current + 1;
        continue;
      }
      if current < skip {
        current := current + 1;
        continue;
      }
      var ok := MatchPattern(e.name, pattern);
      if ok {
        return true, true, current;
      }
      current := current + 1;
    }
    stop, found := false, false;
  }

  datatype Outcome = Failed | Over | Found(index: nat, entry: Entry) | More

  /** The part of the directory before the sectors still to be read holds no hit. */
  ghost predicate Searched(es: seq<Entry>, before: seq<Entry>, tail: seq<Entry>, pattern: seq<Byte>, skip: nat) {
    && WfNames(before) && WfNames(tail) && |pattern| == 11 && es == before + tail
    && forall k | skip <= k < |before| :: !Hit(es[k], pattern)
  }

  /** What is left to read of the directory es. `Shown` keeps the definition folded. */
  ghost predicate Left(es: seq<Entry>, disk: seq<L.Sector>, before: seq<Entry>, rest: seq<nat>,
                       pattern: seq<Byte>, skip: nat) {
    && WfNames(es) && |pattern| == 11 && Readable(disk, rest)
    && forall z {:trigger Shown(z)} | Shown(z) :: Searched(es, before, Listing(disk, rest), pattern, skip)
  }

  lemma NothingRead(disk: seq<L.Sector>, lbas: seq<nat>, pattern: seq<Byte>, skip: nat)
    requires Readable(disk, lbas) && |pattern| == 11
    ensures Left(Listing(disk, lbas), disk, [], lbas, pattern, skip)
  {
    assert Listing(disk, lbas) == [] + Listing(disk, lbas);
  }

  lemma AllRead(es: seq<Entry>, disk: seq<L.Sector>, before: seq<Entry>, pattern: seq<Byte>, skip: nat)
    requires Left(es, disk, before, [], pattern, skip)
    ensures Right(es, pattern, skip, Over)
  {
    assert Shown(0);
    assert es == before;
    NoneLeft(es, pattern, skip);
  }

  /** Outcome o is right for the search of es from skip on. */
  ghost predicate Right(es: seq<Entry>, pattern: seq<Byte>, skip: nat, o: Outcome)
    requires WfNames(es) && |pattern| == 11
  {
    match o
    case Over => skip <= |es| ==> NextHit(es, pattern, skip) == |es|
    case Found(i, e) => skip <= i < |es| && NextHit(es, pattern, skip) == i && e == es[i]
    case _ => true
  }

  /** One sector of the directory, which may fail to be read. */
  method ScanLba(vol: Volume, lba: nat, pattern: seq<Byte>, skip: nat, start: nat,
                 ghost es: seq<Entry>, ghost before: seq<Entry>, ghost rest: seq<nat>)
    returns (o: Outcome)
    requires vol.Valid() && Left(es, vol.disk, before, rest, pattern, skip)
    requires rest != [] && rest[0] == lba && start == |before|
    modifies vol.sectorBuf
    ensures vol.Valid() && Right(es, pattern, skip, o)
    ensures o == More ==> Left(es, vol.disk, before + Decoded(vol.disk[lba]), rest[1..], pattern, skip)
  {
    var ok := vol.ReadSector(lba);
    if !ok {
      return Failed;
    }
    var s := Decoded(vol.sectorBuf[..]);
    var stop, found, current := ScanSector(s, pattern, skip, start);
    if found {
      SectorFound(es, vol.disk, before, rest, s, pattern, skip, current);
      return Found(current, s[current - start]);
    }
    SectorDone(es, vol.disk, before, rest, s, pattern, skip);
    o := if stop then Over else More;
  }

  lemma SectorFound(es: seq<Entry>, disk: seq<L.Sector>, before: seq<Entry>, rest: seq<nat>, s: seq<Entry>,
                    pattern: seq<Byte>, skip: nat, at: nat)
    requires Left(es, disk, before, rest, pattern, skip) && rest != [] && s == Decoded(disk[rest[0]])
    requires |before| <= at < |before| + Upto(s) && skip <= at && Hit(s[at - |before|], pattern)
    requires forall k | 0 <= k < at - |before| && skip <= |before| + k :: !Hit(s[k], pattern)
    ensures Right(es, pattern, skip, Found(at, s[at - |before|]))
  {
    assert Shown(0);
    var tail := Listing(disk, rest);
    assert tail[..Upto(s)] == s[..Upto(s)];
    SectorHit(before, tail, s, pattern, skip, at);
  }

  /** A sector without a hit ends the search, or leaves the sectors behind it. */
  lemma SectorDone(es: seq<Entry>, disk: seq<L.Sector>, before: seq<Entry>, rest: seq<nat>, s: seq<Entry>,
                   pattern: seq<Byte>, skip: nat)
    requires Left(es, disk, before, rest, pattern, skip) && rest != [] && s == Decoded(disk[rest[0]])
    requires forall k | 0 <= k < Upto(s) && skip <= |before| + k :: !Hit(s[k], pattern)
    ensures if Upto(s) < 16 then Right(es, pattern, skip, Over)
            else Left(es, disk, before + s, rest[1..], pattern, skip)
  {
    assert Shown(0);
    var tail := Listing(disk, rest);
    assert tail[..Upto(s)] == s[..Upto(s)];
    SectorMiss(before, tail, s, pattern, skip);
    if Upto(s) < 16 {
      NoneLeft(es, pattern, skip);
    } else {
      Regroup(before, s, Listing(disk, rest[1..]));
    }
  }

  /** The fixed root directory. */
  method ScanRoot(vol: Volume, pattern: seq<Byte>, skip: nat) returns (o: Outcome)
    requires vol.Valid() && WfPlace(vol, Root) && |pattern| == 11
    modifies vol.sectorBuf
    ensures vol.Valid() && o != More && Right(Entries(vol, Root), pattern, skip, o)
  {
    var g := vol.g;
    RootReadable(g, vol.disk, 0);
    ghost var es, before := Listing(vol.disk, RootLbas(g, 0)), [];
    NothingRead(vol.disk, RootLbas(g, 0), pattern, skip);
    for k := 0 to g.rootSecs
      invariant vol.Valid() && |before| == 16 * k && Left(es, vol.disk, before, RootLbas(g, k), pattern, skip)
    {
      RootTail(g, k);
      o := ScanLba(vol, g.rootDir + k, pattern, skip, 16 * k, es, before, RootLbas(g, k));
      if o != More {
        return;
      }
      before := before + Decoded(vol.disk[g.rootDir + k]);
    }
    AllRead(es, vol.disk, before, pattern, skip);
    o := Over;
  }

  /** The sectors of one cluster; rest are the sectors behind it. */
  method ScanCluster(vol: Volume, c: nat, pattern: seq<Byte>, skip: nat, start: nat,
                     ghost es: seq<Entry>, ghost before0: seq<Entry>, ghost rest: seq<nat>)
    returns (o: Outcome, ghost before: seq<Entry>)
    requires vol.Valid() && vol.g.IsCluster(c) && start == |before0|
    requires Left(es, vol.disk, before0, ClusterLbas(vol.g, c, 0) + rest, pattern, skip)
    modifies vol.sectorBuf
    ensures vol.Valid() && Right(es, pattern, skip, o)
    ensures o == More ==>
              |before| == start + 16 * vol.g.secPerClus && Left(es, vol.disk, before, rest, pattern, skip)
  {
    var g := vol.g;
    before := before0;
    for j := 0 to g.secPerClus
      invariant vol.Valid() && |before| == start + 16 * j
      invariant Left(es, vol.disk, before, ClusterLbas(g, c, j) + rest, pattern, skip)
    {
      ghost var lbas := ClusterLbas(g, c, j) + rest;
      ClusterTail(g, c, j, rest);
      o := ScanLba(vol, g.ClusterSector(c, j), pattern, skip, start + 16 * j, es, before, lbas);
      if o != More {
        return;
      }
      before := before + Decoded(vol.disk[g.ClusterSector(c, j)]);
    }
    assert ClusterLbas(g, c, g.secPerClus) + rest == rest;
    o := More;
  }

  /** A directory in a cluster chain. */
  method ScanChain(vol: Volume, first: nat, pattern: seq<Byte>, skip: nat) returns (o: Outcome)
    requires vol.Valid() && WfPlace(vol, Chain(first)) && |pattern| == 11
    modifies vol.sectorBuf
    ensures vol.Valid() && o != More && Right(Entries(vol, Chain(first)), pattern, skip, o)
  {
    var g := vol.g;
    ghost var ch, lbas := vol.chains[first], Lbas(vol, Chain(first));
    ghost var es, before, k: nat := Listing(vol.disk, lbas), [], 0;
    assert ch[0..] == ch;
    assert 0 < |ch| && ch[0] == first by { assert Shown(0); }
    ChainInVolume(g, vol.disk, vol.fat, vol.chains, first);
    NothingRead(vol.disk, lbas, pattern, skip);
    var clus, start := first, 0;
    vol.LinksAreNotMarks(first, 0);
    while !L.IsEoc(g.fatType, clus) && clus >= 2
      invariant vol.Valid() && k <= |ch| && start == |before|
      invariant if k < |ch| then clus == ch[k] && !L.IsEoc(g.fatType, clus) else L.IsEoc(g.fatType, clus)
      invariant Left(es, vol.disk, before, ChainLbas(g, ch[k..]), pattern, skip)
      decreases |ch| - k
    {
      assert ch[k..][1..] == ch[k + 1..];
      o, before := ScanCluster(vol, clus, pattern, skip, start, es, before, ChainLbas(g, ch[k + 1..]));
      if o != More {
        return;
      }
      start := start + 16 * g.secPerClus;
      clus := vol.FollowLink(first, k, clus);
      k := k + 1;
      if k < |ch| {
        vol.LinksAreNotMarks(first, k);
      }
    }
    assert ch[|ch|..] == [];
    AllRead(es, vol.disk, before, pattern, skip);
    o := Over;
  }

  /** No hit in a sector is no hit in its stretch of the directory. */
  lemma SectorMiss(before: seq<Entry>, tail: seq<Entry>, s: seq<Entry>, pattern: seq<Byte>, skip: nat)
    requires WfNames(before) && WfNames(tail) && WfSector(s) && |pattern| == 11
    requires Upto(s) <= |tail| && tail[..Upto(s)] == s[..Upto(s)]
    requires forall k | 0 <= k < Upto(s) && skip <= |before| + k :: !Hit(s[k], pattern)
    requires forall k | skip <= k < |before| :: !Hit((before + tail)[k], pattern)
    ensures forall k | skip <= k < |before| + Upto(s) :: !Hit((before + tail)[k], pattern)
  {
    forall k | skip <= k < |before| + Upto(s) ensures !Hit((before + tail)[k], pattern) {
      if k >= |before| {
        var j := k - |before|;
        assert (before + tail)[k] == tail[..Upto(s)][j] == s[..Upto(s)][j] == s[j];
      }
    }
  }

  lemma SectorHit(before: seq<Entry>, tail: seq<Entry>, s: seq<Entry>, pattern: seq<Byte>, skip: nat, at: nat)
    requires WfNames(before) && WfNames(tail) && WfSector(s) && |pattern| == 11
    requires Upto(s) <= |tail| && tail[..Upto(s)] == s[..Upto(s)]
    requires |before| <= at < |before| + Upto(s) && skip <= at && Hit(s[at - |before|], pattern)
    requires forall k | 0 <= k < at - |before| && skip <= |before| + k :: !Hit(s[k], pattern)
    requires forall k | skip <= k < |before| :: !Hit((before + tail)[k], pattern)
    ensures (before + tail)[at] == s[at - |before|] && NextHit(before + tail, pattern, skip) == at
  {
    var es := before + tail;
    assert es[at] == tail[..Upto(s)][at - |before|] == s[..Upto(s)][at - |before|];
    forall k | skip <= k < at ensures !Hit(es[k], pattern) {
      if k >= |before| {
        var j := k - |before|;
        assert es[k] == tail[..Upto(s)][j] == s[..Upto(s)][j] == s[j];
      }
    }
    HitIs(es, pattern, skip, at);
  }

  lemma {:induction false} HitIs(es: seq<Entry>, pattern: seq<Byte>, skip: nat, i: nat)
    requires WfNames(es) && |pattern| == 11 && skip <= i < |es| && Hit(es[i], pattern)
    requires forall k | skip <= k < i :: !Hit(es[k], pattern)
    ensures NextHit(es, pattern, skip) == i
  {
  }

  lemma NoneLeft(es: seq<Entry>, pattern: seq<Byte>, skip: nat)
    requires WfNames(es) && |pattern| == 11 && forall k | skip <= k < |es| :: !Hit(es[k], pattern)
    ensures skip <= |es| ==> NextHit(es, pattern, skip) == |es|
  {
  }

  class Search {
    const pattern: seq<Byte>
    const place: Place
    var dirIndex: nat

    /** A search in one directory before its first call. */
    constructor (p: seq<Byte>, d: Place)
      requires |p| == 11
      ensures pattern == p && place == d && dirIndex == 0
    {
      pattern, place, dirIndex := p, d, 0;
    }

    /** The next hit; the saved index moves behind it. Without one nothing moves, so
        later calls find nothing either. `ioError` reports a sector that could not be
        read. */
    method Next(vol: Volume) returns (found: bool, hit: Entry, ghost ioError: bool)
      requires vol.Valid() && WfPlace(vol, place) && |pattern| == 11
      modifies this, vol.sectorBuf
      ensures vol.Valid() && (ioError ==> !found && dirIndex == old(dirIndex))
      ensures var es, from := Entries(vol, place), old(dirIndex);
              !ioError ==>
                if from < |es| && NextHit(es, pattern, from) < |es| then
                  found && hit == es[NextHit(es, pattern, from)] && dirIndex == NextHit(es, pattern, from) + 1
                else !found && dirIndex == from
      ensures found ==>
                && |hit.name| == 11 && hit.name[0] != 0xE5 && hit.attr != 0x0F && hit.attr / 8 % 2 == 0
                && forall i | 0 <= i < 11 :: pattern[i] == 0x3F || pattern[i] == hit.name[i]
    {
      var o;
      match place {
        case Root => o := ScanRoot(vol, pattern, dirIndex);
        case Chain(first) => o := ScanChain(vol, first, pattern, dirIndex);
      }
      ioError := o == Failed;
      found, hit := o.Found?, Entry([], 0, 0, 0);
      if o.Found? {
        hit := o.entry;
        dirIndex := o.index + 1;
      }
    }

    /** Call Next until it fails, as a directory listing does. */
    method All(vol: Volume) returns (hits: seq<Entry>, ghost ioError: bool)
      requires vol.Valid() && WfPlace(vol, place) && |pattern| == 11 && dirIndex == 0
      modifies this, vol.sectorBuf
      ensures vol.Valid()
      ensures var es := Entries(vol, place);
              !ioError ==> hits == Picked(es, Finds(es, pattern, 0))
    {
      ghost var es := Entries(vol, place);
      NoneCollected(es, pattern);
      hits := [];
      var found := true;
      ioError := false;
      while found
        invariant vol.Valid() && WfPlace(vol, place) && es == Entries(vol, place)
        invariant Collected(es, pattern, hits, dirIndex)
        invariant !found && !ioError ==> NextHit(es, pattern, dirIndex) == |es|
        decreases found, |es| - dirIndex
      {
        found, hits, ioError := NextInto(vol, hits);
      }
      if !ioError {
        AllCollected(es, pattern, hits, dirIndex);
      }
    }

    method NextInto(vol: Volume, hits0: seq<Entry>) returns (found: bool, hits: seq<Entry>, ghost ioError: bool)
      requires vol.Valid() && WfPlace(vol, place) && Collected(Entries(vol, place), pattern, hits0, dirIndex)
      modifies this, vol.sectorBuf
      ensures vol.Valid() && WfPlace(vol, place) && Entries(vol, place) == old(Entries(vol, place))
      ensures Collected(Entries(vol, place), pattern, hits, dirIndex)
      ensures found ==> dirIndex > old(dirIndex)
      ensures !found && !ioError ==> NextHit(Entries(vol, place), pattern, dirIndex) == |Entries(vol, place)|
    {
      ghost var es, from := Entries(vol, place), dirIndex;
      var hit;
      found, hit, ioError := Next(vol);
      hits := if found then hits0 + [hit] else hits0;
      NextCollected(es, pattern, hits0, from, found, hit, dirIndex, ioError);
    }
  }

  predicate Inside(es: seq<Entry>, at: seq<nat>) { forall k | 0 <= k < |at| :: at[k] < |es| }

  /** The entries at these indices. */
  function Picked(es: seq<Entry>, at: seq<nat>): seq<Entry>
    requires Inside(es, at)
  {
    if at == [] then [] else [es[at[0]]] + Picked(es, at[1..])
  }

  /** The entries still to be found from an index on. */
  function Rest(es: seq<Entry>, pattern: seq<Byte>, from: nat): seq<Entry>
    requires WfNames(es) && |pattern| == 11 && from <= |es|
  {
    Picked(es, Finds(es, pattern, from))
  }

  /** These hits are those before index from. Folded by `Shown`. */
  ghost predicate Collected(es: seq<Entry>, pattern: seq<Byte>, hits: seq<Entry>, from: nat) {
    && WfNames(es) && |pattern| == 11 && from <= |es|
    && forall z {:trigger Shown(z)} | Shown(z) :: Rest(es, pattern, 0) == hits + Rest(es, pattern, from)
  }

  lemma NoneCollected(es: seq<Entry>, pattern: seq<Byte>)
    requires WfNames(es) && |pattern| == 11
    ensures Collected(es, pattern, [], 0)
  {
    assert Rest(es, pattern, 0) == [] + Rest(es, pattern, 0);
  }

  lemma OneCollected(es: seq<Entry>, pattern: seq<Byte>, hits: seq<Entry>, from: nat)
    requires Collected(es, pattern, hits, from) && NextHit(es, pattern, from) < |es|
    ensures var i := NextHit(es, pattern, from); Collected(es, pattern, hits + [es[i]], i + 1)
  {
    assert Shown(0);
    var i := NextHit(es, pattern, from);
    Regroup(hits, [es[i]], Rest(es, pattern, i + 1));
  }

  /** What one search call found, if anything, joins the hits. */
  lemma NextCollected(es: seq<Entry>, pattern: seq<Byte>, hits: seq<Entry>, from: nat, found: bool, hit: Entry,
                      to: nat, ioError: bool)
    requires Collected(es, pattern, hits, from) && (ioError ==> !found && to == from)
    requires !ioError ==>
               if from < |es| && NextHit(es, pattern, from) < |es| then
                 found && hit == es[NextHit(es, pattern, from)] && to == NextHit(es, pattern, from) + 1
               else !found && to == from
    ensures Collected(es, pattern, if found then hits + [hit] else hits, to)
    ensures found ==> to > from
    ensures !found && !ioError ==> NextHit(es, pattern, to) == |es|
  {
    if found {
      OneCollected(es, pattern, hits, from);
    }
  }

  lemma AllCollected(es: seq<Entry>, pattern: seq<Byte>, hits: seq<Entry>, from: nat)
    requires Collected(es, pattern, hits, from) && NextHit(es, pattern, from) == |es|
    ensures hits == Picked(es, Finds(es, pattern, 0))
  {
    assert Shown(0);
    assert hits + [] == hits;
  }

  /** What repeated search calls find, by index. */
  function Finds(es: seq<Entry>, pattern: seq<Byte>, from: nat): (f: seq<nat>)
    requires WfNames(es) && |pattern| == 11 && from <= |es|
    ensures Inside(es, f)
    decreases |es| - from
  {
    var i := NextHit(es, pattern, from);
    if i == |es| then [] else [i] + Finds(es, pattern, i + 1)
  }

  /** Every matching entry that is listed is found exactly once, in order, and
      nothing else is. */
  lemma {:induction false} FoundAll(es: seq<Entry>, pattern: seq<Byte>, from: nat)
    requires WfNames(es) && |pattern| == 11 && from <= |es|
    ensures var f := Finds(es, pattern, from);
            && (forall j, k | 0 <= j < k < |f| :: f[j] < f[k])
            && forall i: nat :: i in f <==> from <= i < |es| && Hit(es[i], pattern)
    decreases |es| - from
  {
    var i := NextHit(es, pattern, from);
    if i < |es| {
      FoundAll(es, pattern, i + 1);
      var f, rest := Finds(es, pattern, from), Finds(es, pattern, i + 1);
      forall j, k | 0 <= j < k < |f| ensures f[j] < f[k] {
        assert f[k] == rest[k - 1] && rest[k - 1] in rest;
        assert j > 0 ==> f[j] == rest[j - 1];
      }
    }
  }
}
