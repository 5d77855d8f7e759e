/** A volume in use refines a plain map from files to bytes: what any run of calls
    reads is what the same run on the map reads. */
module FatSession {
  import opened Numbers
  import opened FatLayout
  import opened FatChains
  import opened FatData
  import opened FatVolume
  import opened FatFiles

  datatype Act =
    | New(mode: nat)
    | Open(first: nat, mode: nat)
    | Close(h: int)
    | Seek(h: int, offset: nat)
    | Read(h: int, count: nat)
    | Write(h: int, buffer: seq<Byte>)
    | Remove(first: nat)

  /** What an act returned: a cluster or a count, the bytes read, the size a write left;
      and whether a transfer failed. */
  datatype Outcome = Outcome(n: int, data: seq<Byte>, size: nat, fault: bool)

  /** The map: the bytes of every file by its first cluster, the size its directory
      entry gives, and the handles without their cluster. A handle or entry may know
      of fewer bytes than another handle has written. */
  datatype Fs = Fs(files: map<nat, seq<Byte>>, dir: map<nat, nat>, handles: seq<Handle>)
  {
    predicate IsOpen(h: int) { 0 <= h < MAX_HANDLES == |handles| && handles[h].active }

    predicate HandleWf(h: Handle) {
      h.first in files && h.position <= h.size <= |files[h.first]| && h.size < WORD32
    }

    predicate Wf() {
      && |handles| == MAX_HANDLES && dir.Keys == files.Keys
      && (forall f | f in dir && f in files :: dir[f] <= |files[f]| && dir[f] < WORD32)
      && forall h | 0 <= h < |handles| && handles[h].active :: HandleWf(handles[h])
    }
  }

  /** Index of the lowest handle not in use, or the length. */
  function FreeHandle(hs: seq<Handle>): (h: nat)
    ensures h <= |hs| && (h < |hs| ==> !hs[h].active)
    ensures forall k | 0 <= k < h :: hs[k].active
  {
    if hs == [] || !hs[0].active then 0
    else
      var r := FreeHandle(hs[1..]);
      assert forall k | 1 <= k < |hs| :: hs[k] == hs[1..][k - 1];
      1 + r
  }

  function Opened(hs: seq<Handle>, f: Handle): seq<Handle> {
    var h := FreeHandle(hs);
    if h == |hs| then hs else hs[h := f]
  }

  predicate Closed(handles: seq<Handle>, first: nat) {
    forall h | 0 <= h < |handles| && handles[h].active :: handles[h].first != first
  }

  /** Reads whose position and count reach 4 GB, and removals of open files, are left
      undone. */
  predicate Guarded(s: Fs, a: Act) {
    match a
    case Read(h, count) => s.IsOpen(h) && s.handles[h].position + count < WORD32
    case Write(h, _) => s.IsOpen(h) && s.handles[h].mode != 0
    case Remove(first) => first in s.files && Closed(s.handles, first)
    case Open(first, _) => first in s.dir
    case New(_) => true
    case _ => s.IsOpen(a.h)
  }

  /** What an act may return. */
  predicate Possible(s: Fs, a: Act, o: Outcome)
    requires s.Wf()
  {
    Guarded(s, a) ==>
      match a
      case New(_) => o.n == 0 || (o.n > 0 && o.n !in s.files)
      case Read(h, count) =>
        var f, left := s.handles[h], Min(count, s.handles[h].size - s.handles[h].position);
        && 0 <= o.n <= left && (!o.fault ==> o.n == left)
        && o.data == s.files[f.first][f.position..f.position + o.n]
      case Write(h, buffer) =>
        var f := s.handles[h];
        && 0 <= o.n <= |buffer| && f.size <= o.size <= Max(f.size, f.position + o.n) && o.size < WORD32
        && Wrap(f.position + o.n) <= o.size
        && (f.position + o.n < WORD32 ==> o.size == Max(f.size, f.position + o.n))
      case _ => true
  }

  /** The map after an act with this outcome. */
  function After(s: Fs, a: Act, o: Outcome): Fs
    requires s.Wf() && Possible(s, a, o)
  {
    if !Guarded(s, a) then s else
      match a
      case New(mode) =>
        if o.n == 0 then s
        else Fs(s.files[o.n := []], s.dir[o.n := 0], Opened(s.handles, Handle(true, mode, o.n, 0, 0, 0)))
      case Open(first, mode) =>
        s.(handles := Opened(s.handles, Handle(true, mode, first, 0, 0, s.dir[first])))
      case Close(h) =>
        var f := s.handles[h];
        Fs(s.files, if f.mode != 0 then s.dir[f.first := f.size] else s.dir, s.handles[h := f.(active := false)])
      case Seek(h, offset) =>
        s.(handles := s.handles[h := s.handles[h].(position := Min(offset, s.handles[h].size))])
      case Read(h, _) =>
        s.(handles := s.handles[h := s.handles[h].(position := s.handles[h].position + o.n)])
      case Write(h, buffer) =>
        var f := s.handles[h];
        s.(files := s.files[f.first := Splice(s.files[f.first], f.position, buffer[..o.n])],
           handles := s.handles[h := f.(position := Wrap(f.position + o.n), size := o.size)])
      case Remove(first) => s.(files := s.files - {first}, dir := s.dir - {first})
  }

  lemma AfterWf(s: Fs, a: Act, o: Outcome)
    requires s.Wf() && Possible(s, a, o)
    ensures After(s, a, o).Wf()
  {
  }

  // ------------------------------------------------------------------
  // The volume holds the map
  // ------------------------------------------------------------------

  /** A file's clusters start with these bytes. */
  ghost predicate Stored(g: Geometry, disk: seq<Sector>, ch: seq<nat>, bytes: seq<Byte>)
    requires Covers(g, disk)
  {
    InVolume(g, ch) && bytes <= FileData(g, disk, ch)
  }

  ghost predicate Stores(g: Geometry, disk: seq<Sector>, chains: Chains, files: map<nat, seq<Byte>>)
    requires Covers(g, disk)
  {
    && files.Keys == chains.Keys
    && forall f | f in files && f in chains :: Stored(g, disk, chains[f], files[f])
  }

  predicate SameHandles(hs: seq<Handle>, abstract_: seq<Handle>) {
    |hs| == |abstract_| && forall h | 0 <= h < |hs| :: abstract_[h] == hs[h].(current := abstract_[h].current)
  }

  ghost predicate Holds(vol: Volume, s: Fs)
    reads vol
  {
    vol.Valid() && Held(vol.g, vol.disk, vol.chains, vol.handles, s)
  }

  ghost predicate Held(g: Geometry, disk: seq<Sector>, chains: Chains, handles: seq<Handle>, s: Fs) {
    Covers(g, disk) && s.Wf() && Stores(g, disk, chains, s.files) && SameHandles(handles, s.handles)
  }

  /** The directory gives every file a size inside its clusters. */
  ghost predicate Lists(dir: map<nat, nat>, g: Geometry, chains: Chains) {
    && dir.Keys == chains.Keys
    && forall f | f in dir :: dir[f] < WORD32 && dir[f] <= Capacity(g, |chains[f]|)
  }

  /** Any sound volume without open files holds the map of its contents. */
  lemma MountedHolds(g: Geometry, disk: seq<Sector>, fat: seq<nat>, chains: Chains, dir: map<nat, nat>,
                     handles: seq<Handle>) returns (s: Fs)
    requires VolumeOk(g, disk, fat, chains) && Lists(dir, g, chains)
    requires |handles| == MAX_HANDLES && forall h | 0 <= h < MAX_HANDLES :: !handles[h].active
    ensures Held(g, disk, chains, handles, s) && s.dir == dir
    ensures forall f | f in dir :: InVolume(g, chains[f]) && s.files[f] == FileData(g, disk, chains[f])[..dir[f]]
  {
    forall f | f in dir ensures InVolume(g, chains[f]) {
      ChainInVolume(g, disk, fat, chains, f);
    }
    s := Fs(map f | f in dir :: FileData(g, disk, chains[f])[..dir[f]], dir, handles);
  }

  /** Table writes do not change what files hold. */
  lemma StoresKept(g: Geometry, d: seq<Sector>, e: seq<Sector>, chains: Chains, files: map<nat, seq<Byte>>)
    requires Covers(g, d) && Covers(g, e) && SameOutsideFat(g, d, e) && Stores(g, d, chains, files)
    ensures Stores(g, e, chains, files)
  {
    forall f | f in files ensures Stored(g, e, chains[f], files[f]) {
      assert Stored(g, d, chains[f], files[f]);
      GrowthKeepsData(g, d, e, chains[f], chains[f]);
    }
  }

  lemma SplicedBytes(bytes: seq<Byte>, space: seq<Byte>, p: nat, data: seq<Byte>, after: seq<Byte>)
    requires p <= |bytes| && bytes <= space && Splice(space, p, data) <= after
    ensures Splice(bytes, p, data) <= after
  {
  }

  /** A write splices its data into the file's bytes and leaves all others alone. */
  lemma WriteStores(v0: View, v: View, data: seq<Byte>, files: map<nat, seq<Byte>>)
    requires Wrote(v0, v, data) && Stores(v0.g, v0.disk, v0.chains, files)
    requires v0.f.first in files && v0.f.position <= |files[v0.f.first]|
    ensures Stores(v.g, v.disk, v.chains, files[v0.f.first := Splice(files[v0.f.first], v0.f.position, data)])
  {
    var first := v0.f.first;
    assert Stored(v0.g, v0.disk, v0.chains[first], files[first]);
    WriteStored(v0, v, data, files[first]);
    forall f | f in files && f != first ensures f in v.chains && Stored(v.g, v.disk, v.chains[f], files[f]) {
      assert Stored(v0.g, v0.disk, v0.chains[f], files[f]);
      OtherFilesKept(v0, v, data, f);
    }
  }

  lemma WriteStored(v0: View, v: View, data: seq<Byte>, bytes: seq<Byte>)
    requires Wrote(v0, v, data) && v0.f.position <= |bytes| && bytes <= v0.Space()
    ensures v.chains.Keys == v0.chains.Keys
    ensures Stored(v.g, v.disk, v.chains[v0.f.first], Splice(bytes, v0.f.position, data))
  {
    assert Shown(0);
    SplicedBytes(bytes, v0.Space(), v0.f.position, data, v.Space());
  }

  /** How a write moves its handle is what the map allows, and the volume holds the
      map afterwards. */
  lemma WriteHeld(s: Fs, h: int, v0: View, v: View, hs: seq<Handle>, buffer: seq<Byte>, o: Outcome)
    requires 0 <= h < |hs| && hs[h] == v0.f && v0.f.active && v0.f.mode != 0
    requires v0.Ok() && Held(v0.g, v0.disk, v0.chains, hs, s)
    requires 0 <= o.n <= |buffer| && o.size == v.f.size < WORD32 && Wrote(v0, v, buffer[..o.n])
    ensures Possible(s, Write(h, buffer), o)
    ensures Held(v.g, v.disk, v.chains, hs[h := v.f], After(s, Write(h, buffer), o))
  {
    WritePossible(s, h, v0.f, v.f, buffer, o);
    WriteStores(v0, v, buffer[..o.n], s.files);
    AfterWf(s, Write(h, buffer), o);
  }

  lemma WritePossible(s: Fs, h: int, f0: Handle, f: Handle, buffer: seq<Byte>, o: Outcome)
    requires s.Wf() && 0 <= h < |s.handles| && s.handles[h] == f0.(current := s.handles[h].current)
    requires f0.active && f0.mode != 0
    requires 0 <= o.n <= |buffer| && o.size == f.size < WORD32 && Moved(f0, f, o.n)
    ensures Possible(s, Write(h, buffer), o)
  {
  }

  /** What a read takes from the file's space lies inside its bytes. */
  lemma ReadBytes(g: Geometry, disk: seq<Sector>, ch: seq<nat>, bytes: seq<Byte>, p: nat, n: nat)
    requires Covers(g, disk) && Stored(g, disk, ch, bytes) && p + n <= |bytes|
    ensures p + n <= |FileData(g, disk, ch)| && FileData(g, disk, ch)[p..p + n] == bytes[p..p + n]
  {
  }

  lemma ReadHeld(s: Fs, h: int, v0: View, hs: seq<Handle>, f: Handle, count: nat, o: Outcome)
    requires 0 <= h < |hs| && hs[h] == v0.f && v0.f.active && v0.f.position + count < WORD32
    requires v0.Ok() && Held(v0.g, v0.disk, v0.chains, hs, s)
    requires var p, space := v0.f.position, v0.Space();
             && 0 <= o.n <= BytesRead(p, count, v0.f.size, |space|) && p + o.n <= |space|
             && o.data == space[p..p + o.n]
             && (!o.fault ==> o.n == BytesRead(p, count, v0.f.size, |space|))
             && f == v0.f.(current := f.current, position := Wrap(p + o.n))
    ensures Possible(s, Read(h, count), o)
    ensures Held(v0.g, v0.disk, v0.chains, hs[h := f], After(s, Read(h, count), o))
    ensures After(s, Read(h, count), o).dir == s.dir
  {
    var f0 := v0.f;
    assert Stored(v0.g, v0.disk, v0.chains[f0.first], s.files[f0.first]);
    ReadBytes(v0.g, v0.disk, v0.chains[f0.first], s.files[f0.first], f0.position, o.n);
  }

  /** A new file holds nothing and takes the lowest handle. */
  lemma NewHeld(s: Fs, g: Geometry, d: seq<Sector>, e: seq<Sector>, chains: Chains, first: nat, mode: nat,
                hs: seq<Handle>, o: Outcome)
    requires Held(g, d, chains, hs, s) && |e| == |d| && SameOutsideFat(g, d, e)
    requires first != 0 && first !in chains && InVolume(g, [first]) && o.n == first
    ensures Possible(s, New(mode), o)
    ensures Held(g, e, chains[first := [first]], Opened(hs, Handle(true, mode, first, first, 0, 0)),
                 After(s, New(mode), o))
    ensures After(s, New(mode), o).dir == s.dir[first := 0]
  {
    StoresKept(g, d, e, chains, s.files);
    SameFree(hs, s.handles);
    AfterWf(s, New(mode), o);
  }

  lemma {:induction false} SameFree(hs: seq<Handle>, abstract_: seq<Handle>)
    requires SameHandles(hs, abstract_)
    ensures FreeHandle(hs) == FreeHandle(abstract_)
  {
    if hs != [] {
      SameFree(hs[1..], abstract_[1..]);
    }
  }

  // ------------------------------------------------------------------
  // One act
  // ------------------------------------------------------------------

  /** Read counts and buffer lengths are 32-bit words. */
  predicate WfAct(a: Act) { (a.Read? ==> a.count < WORD32) && (a.Write? ==> |a.buffer| < WORD32) }

  /** One act on a volume and its directory is the act on the map. */
  method Do(vol: Volume, dir: map<nat, nat>, ghost s: Fs, a: Act)
    returns (dir': map<nat, nat>, n: int, data: seq<Byte>, ghost o: Outcome)
    requires Holds(vol, s) && dir == s.dir && WfAct(a)
    modifies vol, vol.sectorBuf
    ensures Possible(s, a, o) && n == o.n && data == o.data
    ensures Holds(vol, After(s, a, o)) && dir' == After(s, a, o).dir
  {
    dir', n, data, o := dir, 0, [], Outcome(0, [], 0, false);
    match a
    case New(mode) => dir', n, o := DoNew(vol, dir, s, mode);
    case Open(first, mode) => DoOpen(vol, dir, s, first, mode, o);
    case Close(h) => dir' := DoClose(vol, dir, s, h, o);
    case Seek(h, offset) => DoSeek(vol, s, h, offset, o);
    case Read(h, count) => n, data, o := DoRead(vol, s, h, count);
    case Write(h, buffer) => n, o := DoWrite(vol, s, h, buffer);
    case Remove(first) => dir' := DoRemove(vol, dir, s, first, o);
  }

  method DoOpen(vol: Volume, dir: map<nat, nat>, ghost s: Fs, first: nat, mode: nat, ghost o: Outcome)
    requires Holds(vol, s) && dir == s.dir
    modifies vol`handles
    ensures Holds(vol, After(s, Open(first, mode), o)) && dir == After(s, Open(first, mode), o).dir
  {
    if first in dir {
      assert Stored(vol.g, vol.disk, vol.chains[first], s.files[first]);
      var h := vol.OpenFile(first, dir[first], mode);
    }
  }

  method DoClose(vol: Volume, dir: map<nat, nat>, ghost s: Fs, h: int, ghost o: Outcome) returns (dir': map<nat, nat>)
    requires Holds(vol, s) && dir == s.dir
    modifies vol`handles
    ensures Holds(vol, After(s, Close(h), o)) && dir' == After(s, Close(h), o).dir
  {
    dir' := dir;
    if vol.IsOpen(h) && vol.handles[h].mode != 0 {
      dir' := dir[vol.handles[h].first := vol.handles[h].size];
    }
    var r := vol.CloseFile(h);
  }

  method DoSeek(vol: Volume, ghost s: Fs, h: int, offset: nat, ghost o: Outcome)
    requires Holds(vol, s)
    modifies vol`handles
    ensures Holds(vol, After(s, Seek(h, offset), o)) && After(s, Seek(h, offset), o).dir == s.dir
  {
    var r := vol.Seek(h, offset);
  }

  method DoRemove(vol: Volume, dir: map<nat, nat>, ghost s: Fs, first: nat, ghost o: Outcome)
    returns (dir': map<nat, nat>)
    requires Holds(vol, s) && dir == s.dir
    modifies vol
    ensures Holds(vol, After(s, Remove(first), o)) && dir' == After(s, Remove(first), o).dir
  {
    dir' := dir;
    if first in dir && Closed(vol.handles, first) {
      ghost var disk, chains := vol.disk, vol.chains;
      vol.DeleteFile(first);
      StoresKept(vol.g, disk, vol.disk, chains, s.files);
      dir' := dir - {first};
    }
  }

  method DoNew(vol: Volume, dir: map<nat, nat>, ghost s: Fs, mode: nat)
    returns (dir': map<nat, nat>, n: int, ghost o: Outcome)
    requires Holds(vol, s) && dir == s.dir
    modifies vol
    ensures Possible(s, New(mode), o) && n == o.n && o.data == []
    ensures Holds(vol, After(s, New(mode), o)) && dir' == After(s, New(mode), o).dir
  {
    ghost var disk, chains, hs := vol.disk, vol.chains, vol.handles;
    var first := vol.CreateFile();
    n, o := first, Outcome(first, [], 0, false);
    dir' := dir;
    if first == 0 {
      StoresKept(vol.g, disk, vol.disk, chains, s.files);
    } else {
      ChainInVolume(vol.g, vol.disk, vol.fat, vol.chains, first);
      NewHeld(s, vol.g, disk, vol.disk, chains, first, mode, hs, o);
      dir' := dir[first := 0];
      var h := vol.OpenFile(first, 0, mode);
    }
  }

  method DoRead(vol: Volume, ghost s: Fs, h: int, count: nat) returns (n: int, data: seq<Byte>, ghost o: Outcome)
    requires Holds(vol, s) && count < WORD32
    modifies vol`handles, vol.sectorBuf
    ensures Possible(s, Read(h, count), o) && n == o.n && data == o.data
    ensures Holds(vol, After(s, Read(h, count), o))
  {
    n, data, o := 0, [], Outcome(0, [], 0, false);
    if vol.IsOpen(h) && vol.handles[h].position + count < WORD32 {
      ghost var v, hs := vol.ViewOf(h), vol.handles;
      ghost var ioError;
      n, data, ioError := vol.Read(h, count);
      o := Outcome(n, data, 0, ioError);
      ReadHeld(s, h, v, hs, vol.handles[h], count, o);
    }
  }

  method DoWrite(vol: Volume, ghost s: Fs, h: int, buffer: seq<Byte>) returns (n: int, ghost o: Outcome)
    requires Holds(vol, s) && |buffer| < WORD32
    modifies vol, vol.sectorBuf
    ensures Possible(s, Write(h, buffer), o) && n == o.n && o.data == []
    ensures Holds(vol, After(s, Write(h, buffer), o)) && After(s, Write(h, buffer), o).dir == s.dir
  {
    n, o := 0, Outcome(0, [], 0, false);
    if !vol.IsOpen(h) || vol.handles[h].mode == 0 {
      return;
    }
    ghost var v0, hs := vol.ViewOf(h), vol.handles;
    ghost var ioError;
    n, ioError := vol.Write(h, buffer);
    ghost var v := vol.ViewOf(h);
    o := Outcome(n, [], v.f.size, ioError);
    WriteHeld(s, h, v0, v, hs, buffer, o);
  }

  // ------------------------------------------------------------------
  // Runs
  // ------------------------------------------------------------------

  /** Act i is possible in state i and leads to state i + 1. */
  ghost predicate Linked(t: seq<Fs>, acts: seq<Act>, os: seq<Outcome>, i: nat)
    requires i < |acts| && |t| == |acts| + 1 && |os| == |acts|
  {
    t[i].Wf() && Possible(t[i], acts[i], os[i]) && t[i + 1] == After(t[i], acts[i], os[i])
  }

  /** The states of a run of acts with these outcomes. */
  ghost predicate Runs(t: seq<Fs>, acts: seq<Act>, os: seq<Outcome>) {
    && |t| == |acts| + 1 && |os| == |acts| && t[|acts|].Wf()
    && forall i {:trigger Linked(t, acts, os, i)} | 0 <= i < |acts| :: Linked(t, acts, os, i)
  }

  lemma RunsFirst(s: Fs, t: seq<Fs>, a: Act, acts: seq<Act>, o: Outcome, os: seq<Outcome>)
    requires Runs(t, acts, os) && s.Wf() && Possible(s, a, o) && t[0] == After(s, a, o)
    ensures Runs([s] + t, [a] + acts, [o] + os)
  {
    forall i | 0 <= i < |acts| + 1 ensures Linked([s] + t, [a] + acts, [o] + os, i) {
      if i > 0 {
        assert Linked(t, acts, os, i - 1);
      }
    }
  }

  /** Any run on a volume is the run on the map with the outcomes of the volume: every
      read returns the bytes of the map, afterwards the volume holds the resulting map,
      the table copies agree and the chains are sound. */
  method Session(vol: Volume, start: map<nat, nat>, ghost s: Fs, acts: seq<Act>)
    returns (dir: map<nat, nat>, output: seq<seq<Byte>>, ghost os: seq<Outcome>, ghost t: seq<Fs>)
    requires Holds(vol, s) && start == s.dir && forall a | a in acts :: WfAct(a)
    modifies vol, vol.sectorBuf
    ensures Runs(t, acts, os) && t[0] == s && |output| == |os| && forall k | 0 <= k < |os| :: output[k] == os[k].data
    ensures Holds(vol, t[|acts|]) && dir == t[|acts|].dir
    ensures Mirrored(vol.g, vol.disk) && WfTable(vol.g.fatType, vol.fat, vol.chains)
    decreases |acts|
  {
    assert Shown(0);
    if acts == [] {
      return start, [], [], [s];
    }
    var n, data, rest;
    ghost var o, later, states;
    dir, n, data, o := Do(vol, start, s, acts[0]);
    dir, rest, later, states := Session(vol, dir, After(s, acts[0], o), acts[1..]);
    RunsFirst(s, states, acts[0], acts[1..], o, later);
    assert [acts[0]] + acts[1..] == acts;
    output, os, t := [data] + rest, [o] + later, [s] + states;
  }

  // ------------------------------------------------------------------
  // What runs promise
  // ------------------------------------------------------------------

  predicate Touches(s: Fs, a: Act, f: nat) {
    match a
    case Write(h, _) => s.IsOpen(h) && s.handles[h].first == f
    case Remove(first) => first == f
    case _ => false
  }

  /** No act from number i to before j writes or removes file f. */
  predicate Untouched(t: seq<Fs>, acts: seq<Act>, i: nat, j: nat, f: nat)
    requires i <= j <= |acts| < |t|
  {
    forall k {:trigger acts[k]} | i <= k < j :: !Touches(t[k], acts[k], f)
  }

  /** No run changes a file that none of its acts writes or removes. */
  lemma {:induction false} UntouchedKept(t: seq<Fs>, acts: seq<Act>, os: seq<Outcome>, i: nat, j: nat, f: nat)
    requires Runs(t, acts, os) && i <= j <= |acts| && f in t[i].files && Untouched(t, acts, i, j, f)
    ensures f in t[j].files && t[j].files[f] == t[i].files[f]
    decreases j
  {
    if i < j {
      UntouchedKept(t, acts, os, i, j - 1, f);
      assert Linked(t, acts, os, j - 1);
      assert !Touches(t[j - 1], acts[j - 1], f);
    }
  }

  /** Act i writes n bytes to a file; nothing touches the file until act j reads from
      it, through any handle, inside the written range: without a fault it returns
      these bytes, as far as its handle knows of them. */
  lemma ReadsLastWrite(t: seq<Fs>, acts: seq<Act>, os: seq<Outcome>, i: nat, j: nat)
    requires Runs(t, acts, os) && i < j < |acts| && acts[i].Write? && acts[j].Read?
    requires t[i].IsOpen(acts[i].h) && t[i].handles[acts[i].h].mode != 0 && t[j].IsOpen(acts[j].h)
    requires t[j].handles[acts[j].h].first == t[i].handles[acts[i].h].first
    requires Untouched(t, acts, i + 1, j, t[i].handles[acts[i].h].first)
    requires var p, q, n := t[i].handles[acts[i].h].position, t[j].handles[acts[j].h].position, os[i].n;
             p <= q && q + acts[j].count <= p + n && q + acts[j].count < WORD32
    ensures var p, f := t[i].handles[acts[i].h].position, t[j].handles[acts[j].h];
            var m := Min(acts[j].count, f.size - f.position);
            && 0 <= os[j].n <= m && (!os[j].fault ==> os[j].n == m)
            && f.position - p + os[j].n <= |acts[i].buffer|
            && os[j].data == acts[i].buffer[f.position - p..f.position - p + os[j].n]
  {
    var w, r := t[i].handles[acts[i].h], t[j].handles[acts[j].h];
    assert Linked(t, acts, os, i) && Linked(t, acts, os, j);
    UntouchedKept(t, acts, os, i + 1, j, w.first);
    SplicedSlice(t[i].files[w.first], w.position, acts[i].buffer[..os[i].n], r.position, os[j].n);
    SlicedTwice(acts[i].buffer, os[i].n, r.position - w.position, os[j].n);
  }

  lemma SplicedSlice(old_: seq<Byte>, p: nat, data: seq<Byte>, q: nat, n: nat)
    requires p <= |old_| && p <= q && q + n <= p + |data|
    ensures Splice(old_, p, data)[q..q + n] == data[q - p..q - p + n]
  {
  }

  lemma SlicedTwice(s: seq<Byte>, n: nat, a: nat, k: nat)
    requires a + k <= n <= |s|
    ensures s[..n][a..a + k] == s[a..a + k]
  {
  }

  /** The act closes a handle that may have written file f, or removes f. */
  predicate Resizes(s: Fs, a: Act, f: nat) {
    match a
    case Close(h) => s.IsOpen(h) && s.handles[h].first == f && s.handles[h].mode != 0
    case Remove(first) => first == f
    case _ => false
  }

  lemma {:induction false} SizeStays(t: seq<Fs>, acts: seq<Act>, os: seq<Outcome>, i: nat, j: nat, f: nat)
    requires Runs(t, acts, os) && i <= j <= |acts| && f in t[i].dir
    requires forall k {:trigger acts[k]} | i <= k < j :: !Resizes(t[k], acts[k], f)
    ensures f in t[j].dir && t[j].dir[f] == t[i].dir[f]
    decreases j
  {
    if i < j {
      SizeStays(t, acts, os, i, j - 1, f);
      assert Linked(t, acts, os, j - 1);
      assert !Resizes(t[j - 1], acts[j - 1], f);
    }
  }

  /** Act i closes a writable handle; until act j opens the file no other writable
      handle on it is closed and it is not removed: the new handle starts at 0 with the
      size the closed one had. */
  lemma CloseThenOpen(t: seq<Fs>, acts: seq<Act>, os: seq<Outcome>, i: nat, j: nat, h: nat)
    requires Runs(t, acts, os) && i < j < |acts| && acts[i].Close? && acts[j].Open?
    requires t[i].IsOpen(acts[i].h) && t[i].handles[acts[i].h].mode != 0
    requires acts[j].first == t[i].handles[acts[i].h].first
    requires forall k {:trigger acts[k]} | i < k < j :: !Resizes(t[k], acts[k], acts[j].first)
    requires h < |t[j].handles| && !t[j].handles[h].active && forall k | 0 <= k < h :: t[j].handles[k].active
    ensures h < |t[j + 1].handles| && var f := t[j + 1].handles[h];
            && f.active && f.first == acts[j].first && f.mode == acts[j].mode && f.position == 0
            && f.size == t[i].handles[acts[i].h].size
  {
    assert Linked(t, acts, os, i) && Linked(t, acts, os, j);
    SizeStays(t, acts, os, i + 1, j, acts[j].first);
  }

  /** Other handles, and the position and size of one that no act names, stay. */
  lemma HandleKept(t: seq<Fs>, acts: seq<Act>, os: seq<Outcome>, i: nat, h: nat)
    requires Runs(t, acts, os) && i < |acts| && t[i].IsOpen(h)
    requires match acts[i] case Close(k) => k != h case Seek(k, _) => k != h case Read(k, _) => k != h
             case Write(k, _) => k != h case _ => true
    ensures t[i + 1].IsOpen(h) && t[i + 1].handles[h] == t[i].handles[h]
  {
    assert Linked(t, acts, os, i);
  }

  /** A new file, a write, close, open and a read: what was written comes back. */
  method StoreAndFetch(vol: Volume, start: map<nat, nat>, ghost s: Fs, bytes: seq<Byte>)
    returns (dir: map<nat, nat>, written: int, data: seq<Byte>, ghost fault: bool)
    requires Holds(vol, s) && start == s.dir && |bytes| < WORD32
    requires exists h :: 0 <= h < MAX_HANDLES && !vol.handles[h].active
    modifies vol, vol.sectorBuf
    ensures -1 <= written <= |bytes|
    ensures written >= 0 ==> data <= bytes[..written] && (!fault ==> data == bytes[..written])
  {
    var first;
    ghost var s';
    dir, first, written, s' := StoreNew(vol, start, s, bytes);
    data, fault := [], false;
    if written >= 0 {
      data, fault, s' := Fetch(vol, dir, s', first, written);
    }
  }

  /** Create a file, write to it and close it. */
  method StoreNew(vol: Volume, start: map<nat, nat>, ghost s: Fs, bytes: seq<Byte>)
    returns (dir: map<nat, nat>, first: nat, written: int, ghost s': Fs)
    requires Holds(vol, s) && start == s.dir && |bytes| < WORD32
    requires exists h :: 0 <= h < MAX_HANDLES && !vol.handles[h].active
    modifies vol, vol.sectorBuf
    ensures Holds(vol, s') && dir == s'.dir && -1 <= written <= |bytes|
    ensures written >= 0 ==> first in s'.files && s'.dir[first] == written && s'.files[first] == bytes[..written]
    ensures FreeHandle(s'.handles) < MAX_HANDLES
  {
    var n, data;
    ghost var o;
    var h := FreeHandle(vol.handles);
    SameFree(vol.handles, s.handles);
    dir, n, data, o := Do(vol, start, s, New(1));
    s' := After(s, New(1), o);
    if n <= 0 {
      return dir, 0, -1, s';
    }
    first := n;
    assert s'.IsOpen(h) && s'.handles[h] == Handle(true, 1, first, 0, 0, 0) && s'.files[first] == [];
    dir, written, s' := WriteAndClose(vol, dir, s', h, first, bytes);
  }

  method WriteAndClose(vol: Volume, start: map<nat, nat>, ghost s: Fs, h: nat, ghost first: nat, bytes: seq<Byte>)
    returns (dir: map<nat, nat>, written: int, ghost s': Fs)
    requires Holds(vol, s) && start == s.dir && |bytes| < WORD32
    requires s.IsOpen(h) && s.handles[h] == Handle(true, 1, first, 0, 0, 0) && s.files[first] == []
    modifies vol, vol.sectorBuf
    ensures Holds(vol, s') && dir == s'.dir && 0 <= written <= |bytes|
    ensures first in s'.files && s'.dir[first] == written && s'.files[first] == bytes[..written]
    ensures h < |s'.handles| && FreeHandle(s'.handles) <= h
  {
    var n, data;
    ghost var o;
    dir, written, data, o := Do(vol, start, s, Write(h, bytes));
    s' := After(s, Write(h, bytes), o);
    WrittenNew(s, h, first, bytes, o);
    ghost var full := s';
    dir, n, data, o := Do(vol, dir, s', Close(h));
    s' := After(s', Close(h), o);
    ClosedNew(full, h, o);
  }

  lemma WrittenNew(s: Fs, h: nat, first: nat, bytes: seq<Byte>, o: Outcome)
    requires s.Wf() && s.IsOpen(h) && s.handles[h] == Handle(true, 1, first, 0, 0, 0) && s.files[first] == []
    requires |bytes| < WORD32 && Possible(s, Write(h, bytes), o)
    ensures var s' := After(s, Write(h, bytes), o);
            && 0 <= o.n <= |bytes| && s'.IsOpen(h) && s'.handles[h] == Handle(true, 1, first, 0, o.n, o.n)
            && first in s'.files && s'.files[first] == bytes[..o.n]
  {
  }

  lemma ClosedNew(s: Fs, h: nat, o: Outcome)
    requires s.Wf() && s.IsOpen(h) && s.handles[h].mode != 0
    ensures var s', f := After(s, Close(h), o), s.handles[h];
            && s'.files == s.files && f.first in s'.dir && s'.dir[f.first] == f.size
            && h < |s'.handles| && FreeHandle(s'.handles) <= h
  {
    assert !After(s, Close(h), o).handles[h].active;
  }

  /** Open a file and read all its directory entry promises. */
  method Fetch(vol: Volume, start: map<nat, nat>, ghost s: Fs, first: nat, size: nat)
    returns (data: seq<Byte>, ghost fault: bool, ghost s': Fs)
    requires Holds(vol, s) && start == s.dir && first in s.files && s.dir[first] == size
    requires FreeHandle(s.handles) < MAX_HANDLES
    modifies vol, vol.sectorBuf
    ensures data <= s.files[first][..size] && (!fault ==> data == s.files[first][..size])
  {
    var dir, n;
    ghost var o;
    var h := FreeHandle(vol.handles);
    SameFree(vol.handles, s.handles);
    dir, n, data, o := Do(vol, start, s, Open(first, 0));
    s' := After(s, Open(first, 0), o);
    assert s'.IsOpen(h) && s'.handles[h] == Handle(true, 0, first, 0, 0, size);
    dir, n, data, o := Do(vol, dir, s', Read(h, size));
    fault, s' := o.fault, After(s', Read(h, size), o);
  }
}
