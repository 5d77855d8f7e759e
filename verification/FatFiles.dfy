/** What reads and writes mean for the abstract contents of files. */
module FatFiles {
  import opened Numbers
  import opened FatLayout
  import opened FatChains
  import opened FatData
  import opened FatVolume

  /** The bytes of the open file: its space cut at its size. */
  ghost function Contents(v: View): seq<Byte>
    requires v.Ok() && v.f.size <= |v.Space()|
  {
    v.Space()[..v.f.size]
  }

  /** As long as the written range ends below 4 GB, a write of k bytes turns the
      old contents into the old contents with those bytes spliced in at the old
      position, and the size into the larger of the old size and the end of the
      range. A position behind the end, where a wrapped read may leave it, takes the
      bytes between into the file. */
  lemma WriteSplicesContents(v0: View, v: View, data: seq<Byte>)
    requires Wrote(v0, v, data) && v0.f.size <= |v0.Space()| && v0.f.position <= |v0.Space()|
    requires v0.f.position + |data| < WORD32 && (data != [] || v0.f.position <= v0.f.size)
    ensures v.f.size <= |v.Space()|
    ensures v.f.size == Max(v0.f.size, v0.f.position + |data|)
    ensures Contents(v) == Splice(v0.Space()[..Max(v0.f.size, v0.f.position)], v0.f.position, data)
    ensures v0.f.position <= v0.f.size ==> Contents(v) == Splice(Contents(v0), v0.f.position, data)
    ensures forall k | 0 <= k < v.f.size ::
              Contents(v)[k] == if v0.f.position <= k < v0.f.position + |data| then data[k - v0.f.position]
                                else v0.Space()[k]
  {
    assert Shown(0);
    var spliced := Splice(v0.Space(), v0.f.position, data);
    assert spliced[..v.f.size] == v.Space()[..v.f.size];
    SplicedPrefix(v0.Space(), Max(v0.f.size, v0.f.position), v0.f.position, data, v.f.size);
  }

  lemma SplicedPrefix(base: seq<Byte>, size: nat, p: nat, data: seq<Byte>, size': nat)
    requires p <= size <= |base| && size' == Max(size, p + |data|)
    ensures size' <= |Splice(base, p, data)|
    ensures Splice(base, p, data)[..size'] == Splice(base[..size], p, data)
  {
  }

  /** The size law holds exactly for writes that end below 4 GB, and write something
      when the position is behind the end: the 32-bit size field holds no more. */
  lemma SizeLawIff(v0: View, v: View, data: seq<Byte>)
    requires Wrote(v0, v, data) && v.f.size < WORD32
    ensures v.f.size == Max(v0.f.size, v0.f.position + |data|) <==>
            v0.f.position + |data| < WORD32 && (data != [] || v0.f.position <= v0.f.size)
  {
  }

  /** Two bytes appended to a file of 2^32 - 1 bytes: both are written, the position
      is 1, and the size is not that of the longer file. */
  method SizeLawFails(vol: Volume, h: int, a: Byte, b: Byte) returns (written: int)
    requires vol.Valid() && vol.IsOpen(h) && vol.handles[h].mode != 0 && vol.handles[h].size == WORD32 - 1
    modifies vol, vol.sectorBuf
    ensures vol.Valid() && vol.IsOpen(h)
    ensures written == 2 ==> vol.handles[h].position == 1 && vol.handles[h].size < WORD32 - 1 + written
  {
    var r := vol.Seek(h, WORD32 - 1);
    ghost var ioError;
    written, ioError := vol.Write(h, [a, b]);
  }

  /** No other file changes by a write: neither its chain nor its bytes. */
  lemma OtherFilesKept(v0: View, v: View, data: seq<Byte>, k: nat)
    requires Wrote(v0, v, data) && k in v0.chains && k != v0.f.first
    ensures k in v.chains && v.chains[k] == v0.chains[k] && InVolume(v.g, v.chains[k])
    ensures FileData(v.g, v.disk, v.chains[k]) == FileData(v0.g, v0.disk, v0.chains[k])
  {
    assert Shown(0);
    ChainInVolume(v.g, v.disk, v.fat, v.chains, k);
    assert forall c | c in v.chains[k] :: c !in v.chains[v.f.first];
    DisjointDataKept(v0.g, v0.disk, v.disk, v.chains[v.f.first], v.chains[k]);
  }

  /** Sectors outside the tables and the written file's clusters keep their
      bytes: the boot sector, directories, free space and foreign clusters. */
  lemma ForeignSectorsKept(v0: View, v: View, data: seq<Byte>, s: nat)
    requires Wrote(v0, v, data) && s < |v0.disk|
    requires !InFat(v0.g, s) && !InChain(v0.g, v.chains[v.f.first], s)
    ensures |v.disk| == |v0.disk| && v.disk[s] == v0.disk[s]
  {
    assert Shown(0);
  }

  // ------------------------------------------------------------------
  // The read clamp
  // ------------------------------------------------------------------

  /** A read returns the rest of the file at most exactly when position + count does
      not wrap, or there is nothing allocated behind the file's end or the position. */
  lemma ClampIff(p: nat, count: nat, size: nat, space: nat)
    requires p <= space && p < WORD32 && size <= space && size < WORD32 && count < WORD32
    ensures BytesRead(p, count, size, space) == Min(count, Max(0, size - p)) <==>
            if p <= size then p + count < WORD32 || size == space else p == space
  {
  }

  /** Ten bytes written to a new file, and 2^32 - 1 bytes read from position 5 on:
      without faults the read returns everything up to the end of the last cluster and
      leaves the position behind the end of the file. */
  method ClampFails(vol: Volume, h: int, ten: seq<Byte>) returns (written: int, n: int, ghost ioError: bool)
    requires vol.Valid() && vol.IsOpen(h) && |ten| == 10
    requires vol.handles[h].mode != 0 && vol.handles[h].position == vol.handles[h].size == 0
    modifies vol, vol.sectorBuf
    ensures vol.Valid() && vol.IsOpen(h)
    ensures var space := |vol.ViewOf(h).Space()|;
            written == 10 && !ioError && space < WORD32 ==> n == space - 5 >= 507 && vol.handles[h].position > 10
  {
    ghost var writeError;
    written, writeError := vol.Write(h, ten);
    var r := vol.Seek(h, 5);
    var data;
    ghost var v := vol.ViewOf(h);
    SpaceOfCluster(v);
    n, data, ioError := vol.Read(h, WORD32 - 1);
  }

  lemma SpaceOfCluster(v: View)
    requires v.Ok()
    ensures |v.Space()| >= 512
  {
    assert Shown(0);
  }

  // ------------------------------------------------------------------
  // Reading back
  // ------------------------------------------------------------------

  /** Writing, seeking back and reading the same number of bytes returns what
      was written. */
  method WriteSeekRead(vol: Volume, h: int, buffer: seq<Byte>)
    returns (written: int, data: seq<Byte>, ghost ioError: bool)
    requires vol.Valid() && vol.IsOpen(h) && vol.handles[h].mode != 0
    requires vol.handles[h].position + |buffer| < WORD32
    modifies vol, vol.sectorBuf
    ensures vol.Valid() && 0 <= written <= |buffer|
    ensures data <= buffer[..written]
    ensures !ioError ==> data == buffer[..written]
  {
    var start := vol.handles[h].position;
    ghost var v0 := vol.ViewOf(h);
    ghost var writeError: bool;
    written, writeError := vol.Write(h, buffer);
    ghost var v1 := vol.ViewOf(h);
    if written > 0 {
      WriteSplicesContents(v0, v1, buffer[..written]);
    }
    WrittenRange(v0, v1, buffer[..written]);
    var r := vol.Seek(h, start);
    var n: int;
    n, data, ioError := vol.Read(h, written);
    if written > 0 {
      SlicePrefix(v1.Space(), start, n, written);
    }
  }

  lemma WrittenRange(v0: View, v: View, data: seq<Byte>)
    requires Wrote(v0, v, data)
    ensures v0.f.position + |data| <= |v.Space()|
    ensures v.Space()[v0.f.position..v0.f.position + |data|] == data
  {
    assert Shown(0);
    var spliced := Splice(v0.Space(), v0.f.position, data);
    assert spliced[v0.f.position..v0.f.position + |data|] == data;
  }

  lemma SlicePrefix(s: seq<Byte>, p: nat, a: nat, b: nat)
    requires p + a <= |s| && p + b <= |s| && a <= b
    ensures s[p..p + a] <= s[p..p + b]
  {
  }
}
