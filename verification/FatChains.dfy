/** Cluster chains over the decoded file allocation table. The table is a plain
    sequence of entries; files are a map from first cluster to chain. */
module FatChains {
  import opened FatLayout

  type Chains = map<nat, seq<nat>>

  /** The entry of the cluster before position i leads to position i. */
  ghost predicate LinkAt(fat: seq<nat>, ch: seq<nat>, i: nat)
    requires 1 <= i < |ch| && ch[i - 1] < |fat|
  {
    fat[ch[i - 1]] == ch[i]
  }

  /** ch follows the links of the table and stops at an end mark. */
  ghost predicate IsChain(t: FatType, fat: seq<nat>, ch: seq<nat>) {
    && 0 < |ch|
    && (forall i | 0 <= i < |ch| :: 2 <= ch[i] < |fat|)
    && (forall i {:trigger LinkAt(fat, ch, i)} | 1 <= i < |ch| :: LinkAt(fat, ch, i))
    && IsEoc(t, fat[ch[|ch| - 1]])
  }

  ghost predicate Disjoint(chains: Chains) {
    forall h, k, c | h in chains && k in chains && h != k && c in chains[h] :: c !in chains[k]
  }

  /** Every file has an end-marked chain and no two files share a cluster. */
  ghost predicate WfTable(t: FatType, fat: seq<nat>, chains: Chains) {
    && 2 <= |fat| <= EocFloor(t)
    && (forall h | h in chains :: IsChain(t, fat, chains[h]) && chains[h][0] == h)
    && Disjoint(chains)
  }

  ghost function FreeSet(fat: seq<nat>): set<nat> {
    set c | 2 <= c < |fat| && fat[c] == 0
  }

  ghost function Elements(ch: seq<nat>): set<nat> {
    set i | 0 <= i < |ch| :: ch[i]
  }

  /** All clusters that belong to some file. */
  ghost function Owned(chains: Chains): set<nat> {
    set h, i | h in chains && 0 <= i < |chains[h]| :: chains[h][i]
  }

  // ------------------------------------------------------------------
  // Acyclicity
  // ------------------------------------------------------------------

  /** An end-marked chain never visits a cluster twice. */
  lemma {:induction false} ChainAcyclic(t: FatType, fat: seq<nat>, ch: seq<nat>, i: nat, j: nat)
    requires |fat| <= EocFloor(t) && IsChain(t, fat, ch)
    requires i < j < |ch|
    ensures ch[i] != ch[j]
    decreases |ch| - j
  {
    if ch[i] == ch[j] {
      assert LinkAt(fat, ch, i + 1);
      if j + 1 < |ch| {
        assert LinkAt(fat, ch, j + 1);
        ChainAcyclic(t, fat, ch, i + 1, j + 1);
      }
    }
  }

  lemma ElementsCard(t: FatType, fat: seq<nat>, ch: seq<nat>, n: nat)
    requires |fat| <= EocFloor(t) && IsChain(t, fat, ch) && n <= |ch|
    ensures |Elements(ch[..n])| == n
  {
    forall i, j | 0 <= i < j < n ensures ch[i] != ch[j] {
      ChainAcyclic(t, fat, ch, i, j);
    }
    DistinctCard(ch[..n]);
  }

  lemma {:induction false} DistinctCard(s: seq<nat>)
    requires forall i, j | 0 <= i < j < |s| :: s[i] != s[j]
    ensures |Elements(s)| == |s|
  {
    if s == [] {
      assert Elements(s) == {};
    } else {
      var front, last := s[..|s| - 1], s[|s| - 1];
      DistinctCard(front);
      ElementsSnoc(front, last);
      assert s == front + [last] && last !in Elements(front);
    }
  }

  lemma ElementsSnoc(ch: seq<nat>, c: nat)
    ensures Elements(ch + [c]) == Elements(ch) + {c}
  {
    var e := ch + [c];
    forall x | x in Elements(ch) + {c} ensures x in Elements(e) {
      if x == c {
        assert e[|ch|] == c;
      } else {
        var i :| 0 <= i < |ch| && ch[i] == x;
        assert e[i] == x;
      }
    }
  }

  /** A chain does not notice changes to entries outside it. */
  lemma ChainKept(t: FatType, fat: seq<nat>, ch: seq<nat>, c: nat, v: nat)
    requires IsChain(t, fat, ch) && c < |fat| && c !in ch
    ensures IsChain(t, fat[c := v], ch)
  {
    var fat' := fat[c := v];
    assert forall i | 0 <= i < |ch| :: ch[i] in ch;
    forall i | 1 <= i < |ch| ensures LinkAt(fat', ch, i) {
      assert LinkAt(fat, ch, i);
    }
  }

  /** A free cluster belongs to no file. */
  lemma FreeNotOwned(t: FatType, fat: seq<nat>, chains: Chains, c: nat)
    requires WfTable(t, fat, chains) && c < |fat| && fat[c] == 0
    ensures forall h | h in chains :: c !in chains[h]
  {
    forall h | h in chains ensures c !in chains[h] {
      var ch := chains[h];
      forall i | 0 <= i < |ch| ensures ch[i] != c {
        if i + 1 < |ch| {
          assert LinkAt(fat, ch, i + 1);
        }
      }
    }
  }

  // ------------------------------------------------------------------
  // Allocation, linking, creation
  // ------------------------------------------------------------------

  /** Marking a free cluster leaves every file's chain alone. */
  lemma AllocKeeps(t: FatType, fat: seq<nat>, chains: Chains, c: nat, mark: nat)
    requires WfTable(t, fat, chains) && 2 <= c < |fat| && fat[c] == 0 && IsEoc(t, mark)
    ensures WfTable(t, fat[c := mark], chains)
    ensures FreeSet(fat[c := mark]) == FreeSet(fat) - {c}
  {
    FreeNotOwned(t, fat, chains, c);
    forall h | h in chains ensures IsChain(t, fat[c := mark], chains[h]) {
      ChainKept(t, fat, chains[h], c, mark);
    }
  }

  /** Linking an end-marked orphan behind the last cluster of a file extends
      that file's chain by one and leaves every other chain alone. */
  lemma LinkKeeps(t: FatType, fat: seq<nat>, chains: Chains, h: nat, c: nat)
    requires WfTable(t, fat, chains) && h in chains
    requires 2 <= c < |fat| && IsEoc(t, fat[c]) && forall k | k in chains :: c !in chains[k]
    ensures var ch := chains[h];
            WfTable(t, fat[ch[|ch| - 1] := c], chains[h := ch + [c]])
  {
    var ch := chains[h];
    var last := ch[|ch| - 1];
    var fat', chains' := fat[last := c], chains[h := ch + [c]];
    forall i | 0 <= i < |ch| - 1 ensures ch[i] != last {
      ChainAcyclic(t, fat, ch, i, |ch| - 1);
    }
    assert IsChain(t, fat', chains'[h]) by {
      forall i | 1 <= i < |ch| + 1 ensures LinkAt(fat', chains'[h], i) {
        if i < |ch| {
          assert ch[i - 1] != last && LinkAt(fat, ch, i);
        }
      }
    }
    forall k | k in chains' && k != h ensures IsChain(t, fat', chains'[k]) {
      assert last in ch;
      ChainKept(t, fat, chains[k], last, c);
    }
  }

  /** A freshly marked cluster is a one-cluster file. */
  lemma CreateKeeps(t: FatType, fat: seq<nat>, chains: Chains, c: nat, mark: nat)
    requires WfTable(t, fat, chains) && 2 <= c < |fat| && fat[c] == 0 && IsEoc(t, mark)
    ensures c !in chains
    ensures WfTable(t, fat[c := mark], chains[c := [c]])
  {
    assert forall k | k in chains :: chains[k][0] in chains[k];
    FreeNotOwned(t, fat, chains, c);
    AllocKeeps(t, fat, chains, c, mark);
  }

  // ------------------------------------------------------------------
  // Freeing
  // ------------------------------------------------------------------

  /** Following links from a member of s stays in s until the walk stops. */
  ghost predicate Closed(t: FatType, fat: seq<nat>, s: set<nat>) {
    forall c | c in s :: 2 <= c < |fat| && (fat[c] in s || fat[c] < 2 || IsEoc(t, fat[c]))
  }

  ghost function NonZero(fat: seq<nat>): set<nat> {
    set c | 0 <= c < |fat| && fat[c] != 0
  }

  predicate Stops(t: FatType, c: nat) {
    c < 2 || IsEoc(t, c)
  }

  /** Termination measure of the freeing loop. */
  ghost function FreeRank(t: FatType, fat: seq<nat>, c: nat): nat {
    2 * |NonZero(fat)| + if Stops(t, c) then 0 else 1
  }

  /** One turn of the freeing loop makes the measure smaller, whatever the
      table holds: a cluster met for the second time reads as zero. */
  lemma FreeRankDrops(t: FatType, fat: seq<nat>, c: nat)
    requires c < |fat| && !Stops(t, c)
    ensures FreeRank(t, fat[c := 0], fat[c]) < FreeRank(t, fat, c)
  {
    if fat[c] == 0 {
      assert fat[c := 0] == fat;
    } else {
      assert NonZero(fat[c := 0]) == NonZero(fat) - {c};
    }
  }

  /** The freeing loop as a function of the table. The set s only records why
      the walk stays inside the table. */
  ghost function FreeWalk(t: FatType, fat: seq<nat>, s: set<nat>, c: nat): seq<nat>
    requires Closed(t, fat, s) && (c in s || Stops(t, c))
    decreases FreeRank(t, fat, c)
  {
    if Stops(t, c) then fat
    else
      FreeRankDrops(t, fat, c);
      FreeWalk(t, fat[c := 0], s, fat[c])
  }

  /** On any in-range table, cyclic or not, the loop only ever zeroes entries
      of s and zeroes the entry it starts from. */
  lemma {:induction false} FreeWalkSound(t: FatType, fat: seq<nat>, s: set<nat>, c: nat)
    requires Closed(t, fat, s) && (c in s || Stops(t, c))
    ensures var r := FreeWalk(t, fat, s, c);
            && |r| == |fat|
            && (forall i | 0 <= i < |fat| :: r[i] == fat[i] || (r[i] == 0 && i in s))
            && (!Stops(t, c) ==> r[c] == 0)
    decreases FreeRank(t, fat, c)
  {
    if !Stops(t, c) {
      FreeRankDrops(t, fat, c);
      FreeWalkSound(t, fat[c := 0], s, fat[c]);
    }
  }

  ghost function Zeroed(fat: seq<nat>, ch: seq<nat>): seq<nat> {
    seq(|fat|, i requires 0 <= i < |fat| => if i in ch then 0 else fat[i])
  }

  lemma ChainClosed(t: FatType, fat: seq<nat>, ch: seq<nat>)
    requires IsChain(t, fat, ch)
    ensures Closed(t, fat, Elements(ch))
  {
    forall c | c in Elements(ch)
      ensures 2 <= c < |fat| && (fat[c] in Elements(ch) || fat[c] < 2 || IsEoc(t, fat[c]))
    {
      var i :| 0 <= i < |ch| && ch[i] == c;
      if i + 1 < |ch| {
        assert LinkAt(fat, ch, i + 1);
      }
    }
  }

  lemma {:induction false} FreeWalkFrom(t: FatType, fat: seq<nat>, ch: seq<nat>, k: nat)
    requires |fat| <= EocFloor(t) && IsChain(t, fat, ch) && k < |ch|
    requires Closed(t, Zeroed(fat, ch[..k]), Elements(ch))
    ensures FreeWalk(t, Zeroed(fat, ch[..k]), Elements(ch), ch[k]) == Zeroed(fat, ch)
    decreases |ch| - k
  {
    var z := Zeroed(fat, ch[..k]);
    forall i | 0 <= i < k ensures ch[i] != ch[k] {
      ChainAcyclic(t, fat, ch, i, k);
    }
    assert z[ch[k]] == fat[ch[k]];
    assert z[ch[k] := 0] == Zeroed(fat, ch[..k + 1]) by {
      assert ch[..k + 1] == ch[..k] + [ch[k]];
    }
    FreeRankDrops(t, z, ch[k]);
    if k + 1 < |ch| {
      assert LinkAt(fat, ch, k + 1);
      FreeWalkFrom(t, fat, ch, k + 1);
    } else {
      assert ch[..k + 1] == ch;
    }
  }

  /** On a file's chain the loop frees exactly the chain. */
  lemma FreeWalkOnChain(t: FatType, fat: seq<nat>, ch: seq<nat>)
    requires |fat| <= EocFloor(t) && IsChain(t, fat, ch)
    ensures Closed(t, fat, Elements(ch)) && ch[0] in Elements(ch)
    ensures FreeWalk(t, fat, Elements(ch), ch[0]) == Zeroed(fat, ch)
  {
    ChainClosed(t, fat, ch);
    assert Zeroed(fat, ch[..0]) == fat;
    FreeWalkFrom(t, fat, ch, 0);
  }

  /** Deleting a file returns exactly its clusters and nothing else changes. */
  lemma DeleteKeeps(t: FatType, fat: seq<nat>, chains: Chains, h: nat)
    requires WfTable(t, fat, chains) && h in chains
    ensures WfTable(t, Zeroed(fat, chains[h]), chains - {h})
    ensures FreeSet(Zeroed(fat, chains[h])) == FreeSet(fat) + Elements(chains[h])
    ensures FreeSet(fat) !! Elements(chains[h])
    ensures |FreeSet(Zeroed(fat, chains[h]))| == |FreeSet(fat)| + |chains[h]|
  {
    var ch := chains[h];
    var z := Zeroed(fat, ch);
    forall k | k in chains - {h} ensures IsChain(t, z, chains[k]) {
      assert forall i | 0 <= i < |chains[k]| :: chains[k][i] in chains[k] && chains[k][i] !in ch;
      forall i | 1 <= i < |chains[k]| ensures LinkAt(z, chains[k], i) {
        assert LinkAt(fat, chains[k], i) && chains[k][i - 1] !in ch;
      }
    }
    forall c | c in FreeSet(fat) ensures c !in Elements(ch) {
      FreeNotOwned(t, fat, chains, c);
    }
    assert FreeSet(z) == FreeSet(fat) + Elements(ch);
    ElementsCard(t, fat, ch, |ch|);
    assert ch[..|ch|] == ch;
  }

  // ------------------------------------------------------------------
  // Whole runs
  // ------------------------------------------------------------------

  datatype Op = Create | Extend(file: nat) | Delete(file: nat)

  ghost predicate LowestFree(fat: seq<nat>, c: nat) {
    c in FreeSet(fat) && forall k | 2 <= k < c :: fat[k] != 0
  }

  /** The effect of one directory-level operation on table and files. An
      operation on a missing file, or one that needs a cluster on a full
      volume, changes nothing. */
  ghost predicate Step(t: FatType, fat: seq<nat>, chains: Chains, op: Op, fat': seq<nat>, chains': Chains) {
    match op
    case Create =>
      if FreeSet(fat) == {} then fat' == fat && chains' == chains
      else exists c: nat :: LowestFree(fat, c) && fat' == fat[c := StoredMark(t)] && chains' == chains[c := [c]]
    case Extend(h) =>
      if FreeSet(fat) == {} || h !in chains || chains[h] == [] then fat' == fat && chains' == chains
      else
        var last := chains[h][|chains[h]| - 1];
        exists c: nat ::
          && LowestFree(fat, c) && last < |fat|
          && fat' == fat[c := StoredMark(t)][last := c] && chains' == chains[h := chains[h] + [c]]
    case Delete(h) =>
      if h !in chains then fat' == fat && chains' == chains
      else fat' == Zeroed(fat, chains[h]) && chains' == chains - {h}
  }

  /** Files and free space never overlap. */
  lemma FreeDisjointFromOwned(t: FatType, fat: seq<nat>, chains: Chains)
    requires WfTable(t, fat, chains)
    ensures FreeSet(fat) !! Owned(chains)
  {
    forall c | c in FreeSet(fat) ensures c !in Owned(chains) {
      FreeNotOwned(t, fat, chains, c);
    }
  }

  lemma ExtendKeeps(t: FatType, fat: seq<nat>, chains: Chains, h: nat, c: nat, mark: nat)
    requires WfTable(t, fat, chains) && h in chains
    requires 2 <= c < |fat| && fat[c] == 0 && IsEoc(t, mark)
    ensures var ch := chains[h];
            var fat' := fat[c := mark][ch[|ch| - 1] := c];
            && WfTable(t, fat', chains[h := ch + [c]])
            && FreeSet(fat') == FreeSet(fat) - {c}
  {
    AllocKeeps(t, fat, chains, c, mark);
    FreeNotOwned(t, fat, chains, c);
    LinkKeeps(t, fat[c := mark], chains, h, c);
  }

  lemma CreateStep(t: FatType, fat: seq<nat>, chains: Chains, fat': seq<nat>, chains': Chains)
    requires WfTable(t, fat, chains) && FreeSet(fat) != {} && Step(t, fat, chains, Create, fat', chains')
    ensures WfTable(t, fat', chains')
    ensures FreeSet(fat') + Owned(chains') == FreeSet(fat) + Owned(chains)
  {
    var mark := StoredMark(t);
    var c: nat :| LowestFree(fat, c) && fat' == fat[c := mark] && chains' == chains[c := [c]];
    AllocKeeps(t, fat, chains, c, mark);
    CreateKeeps(t, fat, chains, c, mark);
    OwnedAfterAdd(chains, c);
  }

  lemma ExtendStep(t: FatType, fat: seq<nat>, chains: Chains, h: nat, fat': seq<nat>, chains': Chains)
    requires WfTable(t, fat, chains) && h in chains && FreeSet(fat) != {}
    requires Step(t, fat, chains, Extend(h), fat', chains')
    ensures WfTable(t, fat', chains')
    ensures FreeSet(fat') + Owned(chains') == FreeSet(fat) + Owned(chains)
  {
    var mark := StoredMark(t);
    assert IsChain(t, fat, chains[h]);
    var last := chains[h][|chains[h]| - 1];
    var c: nat :| LowestFree(fat, c) && fat' == fat[c := mark][last := c] && chains' == chains[h := chains[h] + [c]];
    ExtendKeeps(t, fat, chains, h, c, mark);
    OwnedAfterGrow(chains, h, c);
  }

  lemma DeleteStep(t: FatType, fat: seq<nat>, chains: Chains, h: nat, fat': seq<nat>, chains': Chains)
    requires WfTable(t, fat, chains) && h in chains && Step(t, fat, chains, Delete(h), fat', chains')
    ensures WfTable(t, fat', chains')
    ensures FreeSet(fat') + Owned(chains') == FreeSet(fat) + Owned(chains)
  {
    DeleteKeeps(t, fat, chains, h);
    OwnedAfterDelete(chains, h);
    RegroupSets(FreeSet(fat), Elements(chains[h]), Owned(chains'));
  }

  lemma RegroupSets(a: set<nat>, b: set<nat>, c: set<nat>)
    ensures a + b + c == a + (c + b)
  {
  }

  /** One step keeps the files well formed and loses no cluster. */
  lemma StepKeeps(t: FatType, fat: seq<nat>, chains: Chains, op: Op, fat': seq<nat>, chains': Chains)
    requires WfTable(t, fat, chains) && Step(t, fat, chains, op, fat', chains')
    ensures WfTable(t, fat', chains')
    ensures FreeSet(fat') + Owned(chains') == FreeSet(fat) + Owned(chains)
  {
    if op.Create? && FreeSet(fat) != {} {
      CreateStep(t, fat, chains, fat', chains');
    } else if op.Extend? && op.file in chains && FreeSet(fat) != {} {
      ExtendStep(t, fat, chains, op.file, fat', chains');
    } else if op.Delete? && op.file in chains {
      DeleteStep(t, fat, chains, op.file, fat', chains');
    }
  }

  lemma OwnedAfterAdd(chains: Chains, c: nat)
    requires c !in chains
    ensures Owned(chains[c := [c]]) == Owned(chains) + {c}
  {
    var chains' := chains[c := [c]];
    forall x | x in Owned(chains) + {c} ensures x in Owned(chains') {
      if x == c {
        assert chains'[c][0] == c;
      } else {
        var h, i :| h in chains && 0 <= i < |chains[h]| && chains[h][i] == x;
        assert chains'[h][i] == x;
      }
    }
  }

  lemma OwnedAfterGrow(chains: Chains, h: nat, c: nat)
    requires h in chains
    ensures Owned(chains[h := chains[h] + [c]]) == Owned(chains) + {c}
  {
    var chains' := chains[h := chains[h] + [c]];
    forall x | x in Owned(chains) + {c} ensures x in Owned(chains') {
      if x == c {
        assert chains'[h][|chains[h]|] == c;
      } else {
        var k, i :| k in chains && 0 <= i < |chains[k]| && chains[k][i] == x;
        assert chains'[k][i] == x;
      }
    }
    forall x | x in Owned(chains') ensures x in Owned(chains) + {c} {
      var k, i :| k in chains' && 0 <= i < |chains'[k]| && chains'[k][i] == x;
      if k != h || i < |chains[h]| {
        assert chains[k][i] == x;
      }
    }
  }

  lemma OwnedAfterDelete(chains: Chains, h: nat)
    requires h in chains && Disjoint(chains)
    ensures Owned(chains - {h}) + Elements(chains[h]) == Owned(chains)
  {
    var rest := chains - {h};
    forall x | x in Owned(chains) ensures x in Owned(rest) + Elements(chains[h]) {
      var k, i :| k in chains && 0 <= i < |chains[k]| && chains[k][i] == x;
      if k != h {
        assert rest[k][i] == x;
      }
    }
    forall x | x in Owned(rest) ensures x in Owned(chains) {
      var k, i :| k in rest && 0 <= i < |rest[k]| && rest[k][i] == x;
      assert chains[k][i] == x;
    }
  }

  datatype State = State(fat: seq<nat>, chains: Chains)

  /** A run is a sequence of states linked by operations. */
  ghost predicate IsRun(t: FatType, states: seq<State>, ops: seq<Op>) {
    && |states| == |ops| + 1
    && WfTable(t, states[0].fat, states[0].chains)
    && forall i | 0 <= i < |ops| ::
         Step(t, states[i].fat, states[i].chains, ops[i], states[i + 1].fat, states[i + 1].chains)
  }

  /** Over every run of creations, extensions and deletions all chains stay
      end-marked and disjoint, hence acyclic, and every cluster that was free
      or owned at the start is free or owned, never both, at the end. */
  lemma {:induction false} RunKeepsFiles(t: FatType, states: seq<State>, ops: seq<Op>, n: nat)
    requires IsRun(t, states, ops) && n <= |ops|
    ensures WfTable(t, states[n].fat, states[n].chains)
    ensures FreeSet(states[n].fat) + Owned(states[n].chains) == FreeSet(states[0].fat) + Owned(states[0].chains)
    ensures FreeSet(states[n].fat) !! Owned(states[n].chains)
  {
    if n > 0 {
      RunKeepsFiles(t, states, ops, n - 1);
      StepKeeps(t, states[n - 1].fat, states[n - 1].chains, ops[n - 1], states[n].fat, states[n].chains);
    }
    FreeDisjointFromOwned(t, states[n].fat, states[n].chains);
  }
}
