// Directory objects: a directory table on the disk, read and written entry by entry through the window.
module Directory {
  import opened Words
  import opened Layout
  import opened Clusters
  import opened FileImage
  import opened FileSystem
  import opened Lfn
  import opened DirTable
  import opened DirMap
  import RawSearch
  import FatTable
  import NumName

  // ----- the table on the disk -----

  /** Entry k of the table whose sectors are s. */
  function Row(v: seq<Sector>, s: seq<nat>, k: nat): Entry
    requires k / 16 < |s| && s[k / 16] < |v|
  {
    var o := k % 16 * 32;
    v[s[k / 16]][o..o + 32]
  }

  ghost function Rows(v: seq<Sector>, s: seq<nat>): (t: seq<Entry>)
    requires Within(s, |v|)
    ensures |t| == 16 * |s|
    ensures forall k :: 0 <= k < |t| ==> t[k] == Row(v, s, k)
  {
    seq(16 * |s|, k requires 0 <= k < 16 * |s| => Row(v, s, k))
  }

  /** Replacing an entry within its sector replaces that entry of the table. */
  lemma RowWritten(v: seq<Sector>, s: seq<nat>, k: nat, e: Entry)
    requires Within(s, |v|) && Distinct(s) && k < 16 * |s|
    ensures var sect, o := s[k / 16], k % 16 * 32;
      Rows(v[sect := Put(v[sect], o, e)], s) == Rows(v, s)[k := e]
  {
    var sect, o := s[k / 16], k % 16 * 32;
    var v' := v[sect := Put(v[sect], o, e)];
    forall j | 0 <= j < 16 * |s|
      ensures Row(v', s, j) == if j == k then e else Row(v, s, j)
    {
      if j / 16 == k / 16 {
        if j != k { PutApart(v[sect], o, e, j % 16 * 32); }
      } else if j / 16 < k / 16 {
        assert s[j / 16] != s[k / 16];
      } else {
        assert s[k / 16] != s[j / 16];
      }
    }
  }

  lemma PutApart(b: Sector, o: nat, e: Entry, p: nat)
    requires o + 32 <= 512 && p + 32 <= 512 && (p + 32 <= o || o + 32 <= p)
    ensures Put(b, o, e)[p..p + 32] == b[p..p + 32]
  {
    assert forall i :: p <= i < p + 32 ==> Put(b, o, e)[i] == b[i];
  }

  /** The table depends on its own sectors only. */
  lemma RowsFrame(v: seq<Sector>, v': seq<Sector>, s: seq<nat>)
    requires Within(s, |v|) && |v'| == |v|
    requires forall i :: 0 <= i < |s| ==> v'[s[i]] == v[s[i]]
    ensures Rows(v', s) == Rows(v, s)
  {
    assert forall k :: 0 <= k < 16 * |s| ==> Row(v', s, k) == Row(v, s, k);
  }

  /** The table grows by zero sectors. */
  lemma RowsGrown(v: seq<Sector>, s: seq<nat>, more: seq<nat>)
    requires Within(s, |v|) && Within(more, |v|) && forall i :: 0 <= i < |more| ==> v[more[i]] == ZeroSector()
    ensures Within(s + more, |v|)
    ensures Rows(v, s + more) == Rows(v, s) + EmptyRows(16 * |more|)
  {
    forall k | 0 <= k < 16 * |s + more|
      ensures Row(v, s + more, k) == if k < 16 * |s| then Row(v, s, k) else ZeroEntry()
    {
      if k >= 16 * |s| {
        assert (s + more)[k / 16] == more[k / 16 - |s|];
        assert ZeroSector()[k % 16 * 32..k % 16 * 32 + 32] == ZeroEntry();
      }
    }
  }

  /** The sectors of a static root table. */
  function RootSectors(g: Geometry): seq<nat>
  {
    seq<nat>(g.nRootdir / 16, (i: nat) => g.dirbase + i)
  }

  lemma RootFacts(g: Geometry)
    ensures Distinct(RootSectors(g))
  {
  }

  lemma DistinctIntro(s: seq<nat>)
    requires forall i, j :: 0 <= i < j < |s| ==> s[i] != s[j]
    ensures Distinct(s)
  {
  }

  /** The mask picks the sector within the cluster. */
  lemma MaskSector(g: Geometry, k: nat)
    requires g.csize > 0 && IsPow2(g.csize)
    ensures And(k, g.csize - 1) == SectorInCluster(g, k)
  {
    AndMask(k, g.csize);
  }

  lemma PathClusters(t: Fat, p: seq<nat>)
    requires Path(t, p)
    ensures forall i :: 0 <= i < |p| ==> 2 <= p[i] < |t|
  {
  }

  lemma {:induction false} SmallPower(c: nat, m: nat)
    requires IsPow2(c) && c <= m && m in [1, 2, 4, 8, 16, 32, 64, 128]
    ensures c in [1, 2, 4, 8, 16, 32, 64, 128]
  {
    if c > 1 { SmallPower(c / 2, m / 2); }
  }

  /** In a sequence of distinct elements, the front and the rest have none in common. */
  lemma Apart(s: seq<nat>, more: seq<nat>)
    requires Distinct(s + more)
    ensures forall i :: 0 <= i < |s| ==> s[i] !in more
  {
    forall i, j | 0 <= i < |s| && 0 <= j < |more|
      ensures s[i] != more[j]
    {
      assert (s + more)[i] == s[i] && (s + more)[|s| + j] == more[j];
    }
  }

  /** The sectors of a cluster's block are the sectors of the cluster. */
  lemma BlockMember(g: Geometry, c: nat, s: nat)
    requires 2 <= c < g.nFatent < 0x1_0000_0000
    ensures InBlock(g, c, s) ==> s in ClusterSectors(g, c)
  {
    if InBlock(g, c, s) {
      assert ClusterSectors(g, c)[s - Clust2Sect(g, c)] == s;
    }
  }

  /** What one entry tells dir_find. */
  datatype Verdict = Stop | Hit | Go

  lemma SliceFront(w: array<Byte>, o: nat)
    requires o + 32 <= w.Length
    ensures w[o..o + 32][..11] == w[o..o + 11]
  {
  }

  /** The first n entries, or all if there are fewer. */
  function Prefix(t: seq<Entry>, n: nat): seq<Entry>
  {
    if n <= |t| then t[..n] else t
  }

  /** The numbered name n of the eleven bytes src is in the table t. */
  ghost predicate NumberTaken(name: seq<Word>, src: seq<Byte>, t: seq<Entry>, n: nat)
    requires |src| == 11
  {
    n < 0x1_0000 && Occupied(t, 0, NumName.Numbered(src, NumName.NumberOf(name, n)))
  }

  ghost predicate NumbersTaken(name: seq<Word>, src: seq<Byte>, t: seq<Entry>)
    requires |src| == 11
  {
    forall j :: 1 <= j < 100 ==> NumberTaken(name, src, t, j)
  }

  /** The eleven bytes sfn are the numbered name for the first number whose name is not in the table t. */
  ghost predicate FirstNumber(name: seq<Word>, src: seq<Byte>, t: seq<Entry>, sfn: seq<Byte>)
    requires |src| == 11
  {
    exists n: nat :: 1 <= n < 100 && sfn == NumName.Numbered(src, NumName.NumberOf(name, n))
      && !NumberTaken(name, src, t, n) && forall j :: 1 <= j < n ==> NumberTaken(name, src, t, j)
  }

  /** What a client sees of a directory and the volume it lies on. */
  datatype Picture = Picture(shot: Shot, table: Fat, chain: seq<nat>, sects: seq<nat>)

  /**
   * From a to b, the directory may have grown by clusters that were free: nothing else of the FAT changed, and
   * nothing of the volume outside the FAT and the sectors of the directory.
   */
  ghost predicate Grew(a: Picture, b: Picture)
  {
    && SameBut(a.shot, b.shot, b.sects) && (forall s :: s in a.sects ==> s in b.sects)
    && Extends(a.table, a.chain, b.table, b.chain)
    && Distinct(b.chain) && (b.chain == [] || Chain(b.table, b.chain))
  }

  lemma GrewTrans(a: Picture, b: Picture, c: Picture)
    requires Grew(a, b) && Grew(b, c)
    ensures Grew(a, c)
  {
    hide SameBut, Extends, Chain;
    SameButTrans(a.shot, b.shot, c.shot, b.sects, c.sects);
    ExtendsTrans(a.table, a.chain, b.table, b.chain, c.table, c.chain);
  }

  /** Growth brings in no value 1, and frees no cluster. */
  lemma GrewBack(a: Picture, b: Picture)
    requires Grew(a, b)
    ensures HasOne(b.table) ==> HasOne(a.table)
    ensures Full(a.table) ==> Full(b.table)
  {
    hide SameBut, Extends, Chain, HasOne, Full;
    if HasOne(b.table) { ExtendsHasOne(a.table, a.chain, b.table, b.chain); }
    if Full(a.table) { ExtendsFull(a.table, a.chain, b.table, b.chain); }
  }

  /** Growth takes one free cluster for each one it adds. */
  lemma GrewCount(a: Picture, b: Picture)
    requires Grew(a, b) && (a.chain == [] || Chain(a.table, a.chain))
    ensures |a.chain| + FreeCount(a.table) == |b.chain| + FreeCount(b.table)
  {
    hide SameBut, Extends, Chain, FreeCount;
    ChainAndFree(a.table, a.chain, b.table, b.chain);
  }

  class Dir {
    const fs: Volume
    const sclust: nat           // 0 for the root directory
    const fn: array<Byte>       // short name and status of the searched object
    const lfnbuf: array<Word>   // its long name
    const up: Word -> Word
    var long: bool              // whether there is a long name: lfn is not null
    var index: nat
    var clust: nat
    var sect: nat
    var dir: nat                // offset of the entry in the window
    var lfnIdx: nat

    ghost var chain: seq<nat>   // the clusters of the directory, none for a static root table

    constructor (v: Volume, start: nat, u: Word -> Word, max: nat, ghost clusters: seq<nat>)
      ensures fs == v && sclust == start && up == u && chain == clusters
      ensures fresh(fn) && fn.Length == 12 && fresh(lfnbuf) && lfnbuf.Length == max + 1
    {
      fs, sclust, up, chain := v, start, u, clusters;
      fn := new Byte[12](_ => 0);
      lfnbuf := new Word[max + 1](_ => 0);
      long, index, clust, sect, dir, lfnIdx := true, 0, 0, 0, 0, 0xFFFF;
    }

    predicate Static()
      reads fs`geo
    {
      sclust == 0 && fs.geo.fsType != Fat32
    }

    /** The first cluster; cluster number 0 stands for the root directory on FAT32. */
    function Top(): nat
      reads fs`geo
    {
      if sclust == 0 then fs.geo.dirbase else sclust
    }

    /** The sectors of the table, in order. */
    ghost function Sects(): seq<nat>
      reads `chain, fs`geo
    {
      if Static() then RootSectors(fs.geo) else Sectors(fs.geo, chain)
    }

    ghost predicate Base()
      reads `chain, fs, fs.win, fs.dev
      ensures Base() ==> fs.Valid() && !fs.strayed
    {
      && fs.Valid() && !fs.strayed && WellFormed(fs.Table())
      && (if Static() then chain == [] else Chain(fs.Table(), chain) && chain[0] == Top())
    }

    lemma SectsFacts()
      requires Base()
      ensures Within(Sects(), |fs.dev.sectors|) && Distinct(Sects()) && |fs.View()| == |fs.dev.sectors|
      ensures forall k :: 0 <= k < |Sects()| ==>
        fs.geo.fatbase < FatEnd(fs.geo) <= Sects()[k] && !InFat(fs.geo, Sects()[k])
      ensures fs.geo.csize > 0 && IsPow2(fs.geo.csize) && fs.geo.csize <= 128 && AllClusters(fs.geo, chain)
      ensures Static() ==> |Sects()| == fs.geo.nRootdir / 16 && fs.geo.nRootdir % 16 == 0
      ensures 3 <= fs.geo.nFatent < 0x1000_0000
    {
      hide Volume.Valid, Volume.Table, Sectors, IsPow2, Span, Path, Clust2Sect, Overlay, Distinct, WellFormed;
      fs.Facts();
      if Static() {
        RootFacts(fs.geo);
      } else {
        PathClusters(fs.Table(), chain);
        PathsDistinct(fs.Table(), chain);
        assert Distinct(chain) by { DistinctIntro(chain); }
        SectorsDistinct(fs.geo, chain, |fs.dev.sectors|);
        forall k | 0 <= k < |Sects()|
          ensures fs.geo.database <= Sects()[k] < |fs.dev.sectors|
        {
          SectorInBlock(fs.geo, chain, k, |fs.dev.sectors|);
        }
      }
    }

    /** The entries of the directory. */
    ghost function Entries(): (t: seq<Entry>)
      reads `chain, fs, fs.win, fs.dev
      requires Base()
      ensures |t| == 16 * |Sects()|
    {
      SectsFacts();
      Rows(fs.View(), Sects())
    }

    /** The current cluster is that of sector i of the table. */
    ghost predicate InChain(i: nat)
      reads `clust, `chain, fs`geo
    {
      fs.geo.csize > 0 && ClusterIndex(fs.geo, i) < |chain| && clust == chain[ClusterIndex(fs.geo, i)]
    }

    /** Cluster and sector are those of entry k. */
    ghost predicate Placed(k: nat)
      reads `clust, `sect, `chain, fs`geo
    {
      && k < 16 * |Sects()| && sect == Sects()[k / 16]
      && if Static() then clust == 0 else InChain(k / 16)
    }

    /** The object stands at entry k. */
    ghost predicate At(k: nat)
      reads `index, `clust, `sect, `dir, `chain, fs`geo
    {
      Placed(k) && k < 0x1_0000 && index == k && dir == k % 16 * 32
    }

    /** The outcome can be relied on: no transfer failed on the way. */
    predicate Sure(res: FResult)
      reads fs`strayed
    {
      res != FR_DISK_ERR && !fs.strayed
    }

    ghost function Here(): Picture
      reads `chain, fs, fs.win, fs.dev
    {
      Picture(fs.Snap(), if fs.Valid() then fs.Table() else [], chain, Sects())
    }

    /** The frame of the operations on a directory. */
    twostate predicate Confined()
      reads `chain, fs, fs.win, fs.dev
    {
      fs.geo == old(fs.geo) && Grew(old(Here()), Here())
    }

    /** The window shows what it showed, none of the data area, or a sector of the table. */
    twostate predicate Near()
      reads `chain, fs
    {
      fs.winsect == old(fs.winsect) || fs.winsect < fs.geo.database || fs.winsect in Sects()
    }

    /** Of the volume, at most the sectors of the table changed. */
    twostate lemma Wrote()
      requires unchanged(`chain) && fs.geo == old(fs.geo) && fs.SameCount()
      requires old(Base()) && Base() && fs.Table() == old(fs.Table())
      requires |fs.View()| == |old(fs.View())| && Near()
      requires forall k :: 0 <= k < |fs.View()| && k !in Sects() ==> fs.View()[k] == old(fs.View())[k]
      ensures Confined()
    {
      hide Volume.Valid, Volume.View, Volume.Table, Sectors, SameBut, Volume.Snap, Path, WellFormed, Sound;
      SectsFacts();
      fs.SnapData(Sects());
      ExtendsSame(fs.Table(), chain);
      BaseChain();
      PathsDistinct(fs.Table(), chain);
      assert Distinct(chain) by { DistinctIntro(chain); }
    }

    /** Nothing changed but the window, perhaps. */
    twostate lemma Still()
      requires unchanged(`chain) && fs.geo == old(fs.geo) && fs.SameCount()
      requires old(Base()) && Base() && fs.View() == old(fs.View()) && Near()
      ensures Confined()
    {
      hide Base, Volume.Valid, Volume.View, Volume.Table, Sectors, Grew, SameBut, Volume.Snap;
      fs.SameTable();
      Wrote();
    }

    /** An operation of the volume that left its contents alone left the directory alone. */
    twostate lemma Kept()
      requires unchanged(`chain) && fs.geo == old(fs.geo) && fs.strayed == old(fs.strayed)
      requires old(Base()) && fs.Valid() && fs.View() == old(fs.View())
      ensures Base() && Entries() == old(Entries())
    {
      hide Volume.Valid, Sectors, Volume.View;
    }

    // ----- moving around -----

    /** The successor of cluster c of the chain, from the FAT. */
    method FollowFat(cl: Dword, ghost c: nat) returns (v: nat)
      requires c < |chain| && cl == chain[c]
      requires Base()
      modifies fs.dev`sectors, fs.win, fs`wflag, fs`winsect
      ensures fs.dev.reliable ==> v != DISK_ERROR
      ensures v != DISK_ERROR ==> 1 < v < 0x1000_0000 && Base() && fs.View() == old(fs.View())
      ensures v != DISK_ERROR ==> Confined() && Near()
      ensures v != DISK_ERROR ==> fs.Table() == old(fs.Table())
      ensures v != DISK_ERROR ==>
        if c + 1 < |chain| then v == chain[c + 1] < fs.geo.nFatent else v >= fs.geo.nFatent
    {
      hide Volume.Valid, Volume.View, Sectors, Sound, WellFormed, InFat, Grew;
      fs.Facts();
      BaseChain();
      ChainEntry(fs.Table(), chain, c);
      v := fs.GetFat(cl);
      if v != DISK_ERROR { Kept(); Still(); }
    }

    lemma BaseChain()
      requires Base()
      ensures chain == [] <==> Static()
      ensures chain != [] ==> Chain(fs.Table(), chain) && chain[0] == Top()
      ensures |fs.Table()| == fs.geo.nFatent
    {
      hide Volume.Valid, Volume.View, Sectors, Sound, WellFormed;
      fs.Facts();
    }

    /** Follow the chain for the whole clusters in front of entry idx0. */
    method SeekChain(idx0: nat) returns (res: FResult, clst: nat, idx: nat, ghost c: nat)
      requires !Static()
      requires Base()
      modifies fs.dev`sectors, fs.win, fs`wflag, fs`winsect
      ensures res == FR_OK || (res == FR_DISK_ERR && !fs.dev.reliable) || res == FR_INT_ERR
      ensures res != FR_DISK_ERR ==> Base() && fs.View() == old(fs.View()) && Near()
      ensures res == FR_OK ==>
        c < |chain| && clst == chain[c] && idx < 16 * fs.geo.csize && idx0 == 16 * Span(fs.geo, c) + idx
      ensures res == FR_INT_ERR ==> idx0 >= 16 * Span(fs.geo, |chain|)
    {
      hide Base, Volume.Valid, Volume.View, Volume.Table, Sectors, Sound, Span, Path;
      fs.Facts();
      SectsFacts();
      BaseChain();
      SpanZero(fs.geo);
      c, clst, idx := 0, Top(), idx0;
      var ic := 16 * fs.geo.csize;
      while idx >= ic
        invariant Base() && Near() && fs.View() == old(fs.View()) && fs.geo == old(fs.geo)
        invariant c < |chain| && clst == chain[c] < fs.geo.nFatent && idx0 == 16 * Span(fs.geo, c) + idx
        decreases idx
      {
        SpanMono(fs.geo, c, c + 1);
        clst := FollowFat(clst, c);
        if clst == DISK_ERROR { return FR_DISK_ERR, clst, idx, c; }
        if clst < 2 || clst >= fs.geo.nFatent { return FR_INT_ERR, clst, idx, c; }
        idx := idx - ic;
        c := c + 1;
      }
      return FR_OK, clst, idx, c;
    }

    /** Where entry idx0 = 16 * Span(c) + idx lies. */
    lemma ChainPosition(idx0: nat, idx: nat, c: nat)
      requires !Static() && c < |chain| && idx < 16 * fs.geo.csize && idx0 == 16 * Span(fs.geo, c) + idx
      requires Base()
      ensures idx0 < 16 * |Sects()| && chain[c] < 0x1_0000_0000
      ensures ClusterIndex(fs.geo, idx0 / 16) == c && SectorInCluster(fs.geo, idx0 / 16) == idx / 16
      ensures Sects()[idx0 / 16] == Clust2Sect(fs.geo, chain[c]) + idx / 16
    {
      hide Volume.Valid, Volume.Table, Sectors, Sound, Span, Clust2Sect, ClusterIndex, SectorInCluster, WellFormed;
      SectsFacts();
      assert idx0 / 16 == Span(fs.geo, c) + idx / 16;
      PositionUnique(fs.geo, idx0 / 16, c, idx / 16);
      SectorsLength(fs.geo, chain);
      PositionBelow(fs.geo, idx0 / 16, |chain|);
      SectorAt(fs.geo, chain, idx0 / 16);
    }

    lemma ChainLength()
      requires !Static()
      ensures |Sects()| == Span(fs.geo, |chain|)
    {
      SectorsLength(fs.geo, chain);
    }

    /** Where entry idx of a static table lies. */
    lemma RootPosition(idx: nat)
      requires Static()
      requires Base()
      ensures 16 * |Sects()| == fs.geo.nRootdir
      ensures idx < fs.geo.nRootdir ==> Sects()[idx / 16] == fs.geo.dirbase + idx / 16
    {
      hide Volume.Valid, Volume.Table, WellFormed, Chain;
      SectsFacts();
    }

    /** dir_sdi: make the object stand at entry idx0. */
    method Sdi(idx0: nat) returns (res: FResult)
      requires idx0 < 0x1_0000
      requires Base()
      modifies `index, `clust, `sect, `dir, fs.dev`sectors, fs.win, fs`wflag, fs`winsect
      ensures res == FR_OK || (res == FR_DISK_ERR && !fs.dev.reliable) || res == FR_INT_ERR
      ensures res != FR_DISK_ERR ==> fs.View() == old(fs.View()) && (res == FR_OK <==> idx0 < 16 * |Sects()|)
      ensures res == FR_OK ==> At(idx0)
      ensures res != FR_DISK_ERR ==> Base() && Near()
    {
      hide Volume.Sane, Distinct, Sects, RootSectors, IsPow2, EndSector, Base, Volume.Valid, Volume.View, Volume.Table,
        Sectors, Sound, Span, Path, ClusterIndex, SectorInCluster, Clust2Sect, InFat, Chain;
      fs.Facts();
      BaseChain();
      var idx := idx0;
      index := idx;
      var clst := sclust;
      if !Static() { StartCluster(); ChainLength(); }
      if clst == 1 || clst >= fs.geo.nFatent { return FR_INT_ERR; }
      if clst == 0 && fs.geo.fsType == Fat32 { clst := fs.geo.dirbase; }
      if clst == 0 {
        RootPosition(idx);
        clust := clst;
        if idx >= fs.geo.nRootdir { return FR_INT_ERR; }
        sect := fs.geo.dirbase + idx / 16;
      } else {
        ghost var c;
        res, clst, idx, c := SeekChain(idx0);
        if res != FR_OK { return; }
        ChainPosition(idx0, idx, c);
        clust := clst;
        sect := Clust2Sect(fs.geo, clst);
        sect := sect + idx / 16;
      }
      dir := idx % 16 * 32;
      return FR_OK;
    }

    lemma StartCluster()
      requires !Static()
      requires Base()
      ensures 2 <= Top() < fs.geo.nFatent
    {
      hide Volume.Valid, Volume.Table, Sectors, Sound, WellFormed;
      SectsFacts();
      PathClusters(fs.Table(), chain);
      fs.Facts();
    }

    /** One entry further, inside the sector. */
    lemma NextInSector(k: nat)
      requires Placed(k) && (k + 1) % 16 != 0
      ensures Placed(k + 1)
    {
      hide Sectors, ClusterIndex;
      assert (k + 1) / 16 == k / 16;
    }

    /** One entry further, in the next sector of a static table. */
    lemma NextInRoot(k: nat)
      requires Static() && Placed(k) && (k + 1) % 16 == 0
      requires Base()
      ensures k + 1 <= fs.geo.nRootdir == 16 * |Sects()|
      ensures k + 1 < 16 * |Sects()| <==> k + 1 < fs.geo.nRootdir
      ensures k + 1 < fs.geo.nRootdir ==> Sects()[(k + 1) / 16] == sect + 1
    {
      SectsFacts();
    }

    /** One entry further, in the next sector of the same cluster. */
    lemma NextInCluster(k: nat)
      requires !Static() && Placed(k) && (k + 1) % 16 == 0 && SectorInCluster(fs.geo, (k + 1) / 16) != 0
      requires Base()
      ensures (k + 1) / 16 == k / 16 + 1 < |Sects()| && Sects()[k / 16 + 1] == Sects()[k / 16] + 1
      ensures ClusterIndex(fs.geo, k / 16 + 1) == ClusterIndex(fs.geo, k / 16)
    {
      hide Volume.Valid, Volume.Table, Sectors, Sound, Span, Clust2Sect, ClusterIndex, SectorInCluster, WellFormed;
      SectsFacts();
      var i := k / 16;
      PositionNext(fs.geo, i);
      SectorsLength(fs.geo, chain);
      PositionBelow(fs.geo, i, |chain|);
      PositionBelow(fs.geo, i + 1, |chain|);
      SectorAt(fs.geo, chain, i);
      SectorAt(fs.geo, chain, i + 1);
    }

    /** One entry further, in the next cluster if there is one. */
    lemma NextCluster(k: nat)
      requires !Static() && Placed(k) && (k + 1) % 16 == 0 && SectorInCluster(fs.geo, (k + 1) / 16) == 0
      requires Base()
      ensures var c := ClusterIndex(fs.geo, k / 16);
        && ClusterIndex(fs.geo, k / 16 + 1) == c + 1 && SectorInCluster(fs.geo, k / 16 + 1) == 0
        && k + 1 == 16 * Span(fs.geo, c + 1)
        && (c + 1 == |chain| ==> k + 1 == 16 * |Sects()|)
        && (c + 1 < |chain| ==>
             k / 16 + 1 < |Sects()| && chain[c + 1] < 0x1_0000_0000 &&
             Sects()[k / 16 + 1] == Clust2Sect(fs.geo, chain[c + 1]))
    {
      hide Volume.Valid, Volume.Table, Sectors, Sound, Span, Clust2Sect, ClusterIndex, SectorInCluster, WellFormed;
      SectsFacts();
      var i := k / 16;
      PositionNext(fs.geo, i);
      Position(fs.geo, i + 1);
      SectorsLength(fs.geo, chain);
      PositionBelow(fs.geo, i + 1, |chain|);
      if ClusterIndex(fs.geo, i) + 1 < |chain| { SectorAt(fs.geo, chain, i + 1); }
    }

    /** The sectors of the table when it has grown by cluster n. */
    lemma GrownSects(c0: seq<nat>, n: nat)
      requires !Static() && chain == c0 + [n] && 2 <= n < fs.geo.nFatent < 0x1000_0000
      ensures Sects() == Sectors(fs.geo, c0) + ClusterSectors(fs.geo, n)
      ensures forall i :: 0 <= i < fs.geo.csize ==> ClusterSectors(fs.geo, n)[i] == Clust2Sect(fs.geo, n) + i
    {
      SectorsAppend(fs.geo, c0, n);
    }

    /** The table from before the growth, with zero entries behind it. */
    lemma GrownEntries(v0: seq<Sector>, c0: seq<nat>, n: nat)
      requires !Static() && chain == c0 + [n] && 2 <= n < fs.geo.nFatent
      requires Base() && |v0| == |fs.View()| && Within(Sectors(fs.geo, c0), |v0|)
      requires forall s :: 0 <= s < |v0| && !InFat(fs.geo, s) ==>
        fs.View()[s] == if InBlock(fs.geo, n, s) then ZeroSector() else v0[s]
      ensures Entries() == Rows(v0, Sectors(fs.geo, c0)) + EmptyRows(16 * fs.geo.csize)
    {
      hide Volume.Valid, Volume.View, Volume.Table, Sectors, Sound, Clust2Sect, WellFormed, Path, Row;
      fs.Facts();
      SectsFacts();
      GrownSects(c0, n);
      ghost var s0, more := Sectors(fs.geo, c0), ClusterSectors(fs.geo, n);
      assert forall i :: 0 <= i < |s0| ==> Sects()[i] == s0[i];
      assert forall i :: 0 <= i < |more| ==> Sects()[|s0| + i] == more[i];
      Apart(s0, more);
      forall i | 0 <= i < |s0|
        ensures fs.View()[s0[i]] == v0[s0[i]]
      {
        BlockMember(fs.geo, n, s0[i]);
      }
      RowsFrame(v0, fs.View(), s0);
      RowsGrown(fs.View(), s0, more);
    }

    /** A power of two up to 128 divides the number of sectors an index can reach. */
    lemma Room(k: nat)
      requires fs.geo.csize <= 128 && IsPow2(fs.geo.csize) && 16 * Span(fs.geo, k) < 0x1_0000
      ensures 16 * Span(fs.geo, k + 1) <= 0x1_0000
    {
      hide IsPow2;
      SmallPower(fs.geo.csize, 128);
      assert 4096 / fs.geo.csize * fs.geo.csize == 4096;
      if k >= 4096 / fs.geo.csize { SpanOrder(fs.geo, 4096 / fs.geo.csize, k); }
      SpanOrder(fs.geo, k + 1, 4096 / fs.geo.csize);
    }

    /** The cluster n behind the table, free before, was linked to it and filled with zeros; mid is from in between. */
    lemma Lengthened(p: Picture, mid: Shot, n: nat)
      requires !Static() && chain == p.chain + [n] && p.sects == Sectors(fs.geo, p.chain)
      requires SameBut(p.shot, mid, []) && SameBut(mid, fs.Snap(), Sects())
      requires Base()
      requires Extends(p.table, p.chain, fs.Table(), chain)
      ensures Grew(p, Here())
    {
      hide Volume.Valid, Volume.View, Volume.Table, Sectors, SameBut, Volume.Snap, Path, WellFormed, Sound, InBlock,
        Extends;
      SectorsAppend(fs.geo, p.chain, n);
      SameButTrans(p.shot, mid, fs.Snap(), [], Sects());
      BaseChain();
      PathsDistinct(fs.Table(), chain);
      assert Distinct(chain) by { DistinctIntro(chain); }
      assert forall s :: s in p.sects ==> s in Sects();
    }

    /** Outside the sectors of the table, clearing the cluster n changes nothing. */
    lemma Elsewhere(c0: seq<nat>, n: nat, v0: seq<Sector>)
      requires !Static() && 2 <= n < fs.geo.nFatent < 0x1000_0000 && chain == c0 + [n] && fs.win.Length == 512
      requires |fs.View()| == |v0|
      requires forall s :: 0 <= s < |fs.View()| && !InBlock(fs.geo, n, s) ==> fs.View()[s] == v0[s]
      ensures fs.geo.csize > 0 ==> Clust2Sect(fs.geo, n) in Sects()
      ensures forall k :: 0 <= k < |fs.View()| && k !in Sects() ==> fs.View()[k] == v0[k]
    {
      hide Volume.View, Sectors, InBlock;
      GrownSects(c0, n);
      if fs.geo.csize > 0 {
        assert ClusterSectors(fs.geo, n)[0] == Clust2Sect(fs.geo, n) && ClusterSectors(fs.geo, n)[0] in ClusterSectors(fs.geo, n);
      }
      forall k | 0 <= k < |fs.View()| && k !in Sects()
        ensures fs.View()[k] == v0[k]
      {
        BlockMember(fs.geo, n, k);
      }
    }

    /** Nothing changed but the window, and a FAT that shows the same table. */
    twostate lemma OnlyFat()
      requires unchanged(`chain) && fs.geo == old(fs.geo) && fs.FatOnly()
      requires old(Base()) && Base() && fs.Table() == old(fs.Table())
      ensures Confined()
    {
      hide Volume.Valid, Volume.View, Volume.Table, Sectors, SameBut, Volume.Snap, Path, WellFormed, Sound;
      fs.SnapFat(Sects());
      ExtendsSame(fs.Table(), chain);
      BaseChain();
      PathsDistinct(fs.Table(), chain);
      assert Distinct(chain) by { DistinctIntro(chain); }
    }

    /** The cluster just linked behind the table is filled with zeros, and belongs to the table from now on. */
    method AddCluster(clst: Dword, ghost p: Picture) returns (res: FResult)
      requires !Static() && 2 <= clst < fs.geo.nFatent && !fs.strayed && chain == p.chain && Sects() == p.sects
      requires fs.Valid() && WellFormed(fs.Table()) && Chain(fs.Table(), chain + [clst]) && chain != [] && chain[0] == Top()
      requires SameBut(p.shot, fs.Snap(), []) && Extends(p.table, p.chain, fs.Table(), chain + [clst])
      requires Within(Sects(), |fs.View()|)
      modifies `chain, fs.dev`sectors, fs.win, fs`wflag, fs`winsect
      ensures res == FR_OK || (res == FR_DISK_ERR && !fs.dev.reliable)
      ensures res == FR_OK ==> chain == old(chain) + [clst] && Base() && Grew(p, Here())
      ensures res == FR_OK ==> Entries() == Rows(old(fs.View()), old(Sects())) + EmptyRows(16 * fs.geo.csize)
    {
      hide Static, Volume.Valid, Volume.View, Volume.Table, Sectors, Sound, Clust2Sect, WellFormed, Path, Row, InBlock,
        SameBut, Volume.Snap, Grew, Extends;
      fs.Facts();
      res := fs.ClearCluster(clst);
      if res != FR_OK { return; }
      chain := chain + [clst];
      assert Base();
      GrownEntries(old(fs.View()), old(chain), clst);
      Elsewhere(old(chain), clst, old(fs.View()));
      SectsFacts();
      fs.SnapData(Sects());
      Lengthened(p, old(fs.Snap()), clst);
    }

    /** The end of the chain is reached: stretch the table by a zero-filled cluster. */
    method Stretch(ghost c: nat) returns (res: FResult, clst: nat)
      requires !Static() && c + 1 == |chain| && clust == chain[c]
      requires Base()
      modifies `chain, fs.dev`sectors, fs.win, fs`wflag, fs`winsect, fs`log, fs`freeClust, fs`fsiFlag, fs`lastClust,
        fs`strayed
      ensures res == FR_OK || (res == FR_DISK_ERR && !fs.dev.reliable) || res == FR_INT_ERR || res == FR_DENIED
      ensures fs.dev.reliable ==> !fs.strayed
      ensures !fs.strayed ==> fs.LoggedWellFormed()
      ensures !fs.strayed && res == FR_INT_ERR ==> HasOne(old(fs.Table()))
      ensures !fs.strayed && res == FR_OK ==> clst < fs.geo.nFatent
      ensures Sure(res) ==> Base() && chain == old(chain) + (if res == FR_OK then [clst] else [])
      ensures Sure(res) && res == FR_DENIED ==> Full(fs.Table())
      ensures Sure(res) ==>
        Entries() == old(Entries()) + EmptyRows(if res == FR_OK then 16 * fs.geo.csize else 0)
      ensures Sure(res) ==> Confined()
    {
      hide Distinct, InFat, Zeros, RootSectors, Volume.Valid, Volume.View, Volume.Table, Sectors, Sound, Clust2Sect,
        WellFormed, Path, Row, HasOne, Full, Allocated, FatTable.EndMark, NoneFree, InBlock, SameBut, Volume.Snap,
        Grew, AllWell, Extends;
      BaseChain();
      SectsFacts();
      fs.Facts();
      ghost var p, t0, c0, v0, mark := Here(), fs.Table(), chain, fs.View(), FatTable.EndMark(fs.geo.fsType);
      ChainEntry(t0, c0, c);
      ghost var intact;
      clst, intact := fs.CreateChain(clust);
      if clst == DISK_ERROR { return FR_DISK_ERR, clst; }
      if fs.strayed {   // a volume that strayed is followed no further
        res := if clst == 0 then FR_DENIED else if clst == 1 then FR_INT_ERR else FR_OK;
        return;
      }
      fs.SnapTable();
      fs.SnapFat([]);
      if clst < 2 {
        RowsFrame(v0, fs.View(), Sects());
        assert old(Entries()) + EmptyRows(0) == old(Entries());
        OnlyFat();
        res := if clst == 0 then FR_DENIED else FR_INT_ERR;
        return;
      }
      AllocatedChain(t0, c0, clst, mark);
      AllocatedWellFormed(t0, c0[c], clst, mark);
      AllocatedExtends(t0, c0, c0[c], clst, mark);
      RowsFrame(v0, fs.View(), Sects());
      res := AddCluster(clst, p);
    }

    /** Entries that an index can reach: it has 16 bits. */
    ghost function Reach(): nat
      reads `chain, fs`geo
    {
      if 16 * |Sects()| <= 0x1_0000 then 16 * |Sects()| else 0x1_0000
    }

    /** The table has grown by zero entries at most. */
    twostate predicate Extended()
      reads `chain, fs, fs.win, fs.dev
      requires old(Base()) && Base()
    {
      old(chain) <= chain && |old(Entries())| <= |Entries()| &&
      Entries() == old(Entries()) + EmptyRows(|Entries()| - |old(Entries())|)
    }

    /** The same view and the same chain show the same entries. */
    twostate lemma EntriesKept()
      requires old(Base()) && Base() && chain == old(chain) && fs.geo == old(fs.geo)
      requires fs.View() == old(fs.View())
      ensures Entries() == old(Entries())
    {
      hide Volume.Valid, Sectors, Volume.View, WellFormed, Chain;
      fs.Facts();
    }

    twostate lemma NotExtended()
      requires old(Base()) && Base() && chain == old(chain) && Entries() == old(Entries())
      ensures Extended()
    {
    }

    /** Step to the next cluster, stretching the chain if asked to. */
    method ToCluster(stretch: bool, ghost c: nat) returns (res: FResult)
      requires !Static() && c < |chain| && clust == chain[c]
      requires Base()
      modifies `clust, `sect, `chain, fs.dev`sectors, fs.win, fs`wflag, fs`winsect, fs`log, fs`freeClust, fs`fsiFlag,
        fs`lastClust, fs`strayed
      ensures res in {FR_OK, FR_DISK_ERR, FR_INT_ERR, FR_DENIED, FR_NO_FILE} && (res == FR_DISK_ERR ==> !fs.dev.reliable)
      ensures fs.dev.reliable || !stretch ==> !fs.strayed
      ensures !fs.strayed ==> fs.LoggedWellFormed()
      ensures Sure(res) && res == FR_OK ==>
        c + 1 < |chain| && clust == chain[c + 1] < 0x1_0000_0000 && sect == Clust2Sect(fs.geo, clust)
      ensures res == FR_NO_FILE ==> c + 1 == |chain| && !stretch
      ensures (Sure(res) && res != FR_OK) || !stretch ==> chain == old(chain)
      ensures Sure(res) ==> |chain| <= |old(chain)| + 1 && (|chain| > |old(chain)| ==> c + 1 == |old(chain)|)
      ensures Sure(res) && res == FR_INT_ERR ==> stretch && HasOne(old(fs.Table()))
      ensures res == FR_DENIED ==> stretch && (Sure(res) ==> c + 1 == |chain|)
      ensures Sure(res) ==> Base()
      ensures Sure(res) && res == FR_DENIED ==> Full(fs.Table())
      ensures Sure(res) ==> Extended() && Confined()
      ensures !stretch ==> fs.log == old(fs.log) && fs.SameCount()
      ensures Sure(res) && !stretch ==> fs.View() == old(fs.View()) && Near()
    {
      hide Sects, Entries, Chain, Base, Volume.Valid, Volume.View, Volume.Table, Sectors, Sound, Clust2Sect, Path, Row,
        HasOne, Full, ClusterIndex, Span, IsPow2, EmptyRows, Grew, AllWell, SameBut, Volume.Snap;
      fs.Facts();
      SectsFacts();
      AllWellSelf(fs.log);
      var clst := FollowFat(clust, c);
      if clst == DISK_ERROR { return FR_DISK_ERR; }
      if clst <= 1 { return FR_INT_ERR; }
      EntriesKept();
      NotExtended();
      if clst >= fs.geo.nFatent {
        if !stretch { return FR_NO_FILE; }
        ghost var p := Here();
        res, clst := Stretch(c);
        if Sure(res) { GrewTrans(old(Here()), p, Here()); }
        if res != FR_OK || fs.strayed { return; }
      }
      clust := clst;
      sect := Clust2Sect(fs.geo, clst);
      return FR_OK;
    }

    /** The sector behind that of entry k is that of entry k + 1, within a cluster or the root table. */
    ghost predicate Onward(k: nat, next: nat)
      reads `clust, `chain, fs`geo
    {
      && k + 1 < 16 * |Sects()| && next == Sects()[(k + 1) / 16]
      && if Static() then clust == 0 else InChain((k + 1) / 16)
    }

    /** What the three tests of dir_next at a sector boundary tell. */
    lemma SectorStep(k: nat)
      requires Placed(k) && (k + 1) % 16 == 0
      requires Base()
      ensures clust == 0 <==> Static()
      ensures Static() ==> if k + 1 < fs.geo.nRootdir then Onward(k, sect + 1) else k + 1 == 16 * |Sects()|
      ensures fs.geo.csize > 0 && And((k + 1) / 16, fs.geo.csize - 1) == SectorInCluster(fs.geo, (k + 1) / 16)
      ensures !Static() && SectorInCluster(fs.geo, (k + 1) / 16) != 0 ==> Onward(k, sect + 1)
      ensures !Static() && SectorInCluster(fs.geo, (k + 1) / 16) == 0 ==>
        var c := ClusterIndex(fs.geo, k / 16);
        c < |chain| && clust == chain[c] && k + 1 == 16 * Span(fs.geo, c + 1) && (c + 1 == |chain| ==> k + 1 == 16 * |Sects()|)
    {
      hide Base, Volume.Valid, Volume.View, Volume.Table, Sectors, Sound, Clust2Sect, Path, ClusterIndex,
        SectorInCluster, Span, And, IsPow2;
      SectsFacts();
      MaskSector(fs.geo, (k + 1) / 16);
      if Static() {
        NextInRoot(k);
      } else if SectorInCluster(fs.geo, (k + 1) / 16) != 0 {
        NextInCluster(k);
      } else {
        NextCluster(k);
      }
    }

    lemma EntriesLength()
      requires !Static()
      requires Base()
      ensures |Entries()| == 16 * Span(fs.geo, |chain|)
    {
      ChainLength();
    }

    /** A table that was lengthened behind an entry the index can reach has no more entries than it can reach. */
    lemma RoomAfter(was: nat, c: nat, i: nat)
      requires !Static() && i < 0x1_0000 && was <= |chain| <= was + 1
      requires |chain| > was ==> c + 1 == was && i == 16 * Span(fs.geo, c + 1)
      requires Base()
      ensures 16 * Span(fs.geo, was) <= 0x1_0000 ==> |Entries()| <= 0x1_0000
    {
      hide Base, Sectors, Span, IsPow2, Volume.Valid;
      SectsFacts();
      EntriesLength();
      if |chain| > was { Room(c + 1); }
    }

    /** Step from the last entry of a sector to the next sector. */
    method NextSector(i: nat, stretch: bool) returns (res: FResult)
      requires i > 0 && Placed(i - 1) && i % 16 == 0 && i < 0x1_0000
      requires Base()
      modifies `clust, `sect, `chain, fs.dev`sectors, fs.win, fs`wflag, fs`winsect, fs`log, fs`freeClust, fs`fsiFlag,
        fs`lastClust, fs`strayed
      ensures res in {FR_OK, FR_DISK_ERR, FR_INT_ERR, FR_DENIED, FR_NO_FILE} && (res == FR_DISK_ERR ==> !fs.dev.reliable)
      ensures fs.dev.reliable || !stretch || Static() ==> !fs.strayed
      ensures !fs.strayed ==> fs.LoggedWellFormed()
      ensures Static() ==> res == FR_OK || res == FR_NO_FILE
      ensures Sure(res) && res == FR_OK ==> Placed(i)
      ensures Sure(res) && res == FR_NO_FILE ==> i == 16 * |Sects()| && (stretch ==> Static())
      ensures (Sure(res) && res != FR_OK) || !stretch ==> chain == old(chain)
      ensures Sure(res) && res == FR_INT_ERR ==> stretch && HasOne(old(fs.Table()))
      ensures res == FR_DENIED ==> stretch && (Sure(res) ==> i == 16 * |Sects()|)
      ensures Sure(res) ==> Base()
      ensures Sure(res) && res == FR_DENIED ==> Full(fs.Table())
      ensures Sure(res) ==> Extended() && Confined()
      ensures Sure(res) && |old(Entries())| <= 0x1_0000 ==> |Entries()| <= 0x1_0000
      ensures !stretch ==> fs.log == old(fs.log) && fs.SameCount()
      ensures Sure(res) && !stretch ==> fs.View() == old(fs.View()) && Near()
    {
      hide Static, Volume.Sane, EndSector, RootSectors, Chain, Entries, Base, Volume.Valid, Volume.View, Volume.Table,
        Sectors, Sound, Clust2Sect, Path, Row, HasOne, Full, ClusterIndex, SectorInCluster, Span, And, IsPow2,
        EmptyRows, Grew, AllWell, SameBut, Volume.Snap;
      fs.Facts();
      NotExtended();
      Still();
      AllWellSelf(fs.log);
      SectorStep(i - 1);
      sect := sect + 1;
      if clust == 0 {
        if i >= fs.geo.nRootdir { return FR_NO_FILE; }
      } else {
        if And(i / 16, fs.geo.csize - 1) == 0 {
          ghost var c := ClusterIndex(fs.geo, (i - 1) / 16);
          EntriesLength();
          res := ToCluster(stretch, c);
          if Sure(res) {
            RoomAfter(|old(chain)|, c, i);
            if res == FR_OK { ChainPosition(i, 0, c + 1); }
          }
          return;
        }
      }
      return FR_OK;
    }

    /** dir_next: step to the next entry; the table is stretched at its end if asked to. */
    method Next(stretch: bool) returns (res: FResult)
      requires At(index)
      requires Base()
      modifies `index, `clust, `sect, `dir, `chain, fs.dev`sectors, fs.win, fs`wflag, fs`winsect, fs`log, fs`freeClust,
        fs`fsiFlag, fs`lastClust, fs`strayed
      ensures res in {FR_OK, FR_DISK_ERR, FR_INT_ERR, FR_DENIED, FR_NO_FILE} && (res == FR_DISK_ERR ==> !fs.dev.reliable)
      ensures fs.dev.reliable || !stretch || Static() ==> !fs.strayed
      ensures !fs.strayed ==> fs.LoggedWellFormed()
      ensures Static() ==> res == FR_OK || res == FR_NO_FILE
      ensures Sure(res) && res == FR_OK ==> At(old(index) + 1)
      ensures Sure(res) && res == FR_NO_FILE ==>
        old(index) + 1 == Reach() && (stretch ==> Static() || old(index) == 0xFFFF)
      ensures (Sure(res) && res != FR_OK) || !stretch ==> chain == old(chain)
      ensures Sure(res) && res == FR_INT_ERR ==> stretch && HasOne(old(fs.Table()))
      ensures res == FR_DENIED ==> stretch && (Sure(res) ==> old(index) + 1 == 16 * |Sects()|)
      ensures Sure(res) ==> Base()
      ensures Sure(res) && res == FR_DENIED ==> Full(fs.Table())
      ensures Sure(res) ==> Extended() && Confined()
      ensures Sure(res) && |old(Entries())| <= 0x1_0000 ==> |Entries()| <= 0x1_0000
      ensures !stretch ==> fs.log == old(fs.log) && fs.SameCount()
      ensures Sure(res) && !stretch ==> fs.View() == old(fs.View()) && Near()
    {
      hide Base, Volume.Valid, Volume.View, Volume.Table, Sectors, Sound, Clust2Sect, Path, Row, HasOne, Full,
        EmptyRows, Placed, Sects, Grew, AllWell, SameBut, Volume.Snap;
      fs.Facts();
      NotExtended();
      Still();
      AllWellSelf(fs.log);
      PlacedBound(index);
      var i := (index + 1) % 0x1_0000;
      if i == 0 || sect == 0 { return FR_NO_FILE; }
      if i % 16 == 0 {
        res := NextSector(i, stretch);
        if res != FR_OK { return; }
      } else {
        NextInSector(index);
      }
      index := i;
      dir := i % 16 * 32;
      return FR_OK;
    }

    lemma PlacedBound(k: nat)
      requires Placed(k)
      requires Base()
      ensures k < 16 * |Sects()| && sect > 0
    {
      SectsFacts();
    }

    /** Positions are determined by the entry number: two objects at the same entry agree in every member. */
    lemma SamePosition(other: Dir, k: nat)
      requires other.fs == fs && other.sclust == sclust && other.chain == chain
      requires At(k) && other.At(k)
      ensures index == other.index && clust == other.clust && sect == other.sect && dir == other.dir
    {
    }

    /** dir_sdi(0) followed by k calls of dir_next: it arrives where dir_sdi(k) does, and fails where that fails. */
    method WalkTo(k: nat) returns (res: FResult)
      requires k < 0x1_0000
      requires Base()
      modifies `index, `clust, `sect, `dir, `chain, fs.dev`sectors, fs.win, fs`wflag, fs`winsect, fs`log, fs`freeClust,
        fs`fsiFlag, fs`lastClust, fs`strayed
      ensures res == FR_DISK_ERR ==> !fs.dev.reliable
      ensures res != FR_DISK_ERR ==> fs.View() == old(fs.View()) && chain == old(chain)
      ensures res != FR_DISK_ERR ==> (res == FR_OK <==> k < 16 * |Sects()|)
      ensures res == FR_OK ==> At(k)
      ensures res != FR_DISK_ERR ==> Base() && Confined()
    {
      hide Near, Base, Volume.Valid, Volume.View, Volume.Table, Placed, Sects, Extended, HasOne, Full, Sound, Grew, SameBut,
        Volume.Snap;
      fs.Facts();
      res := Sdi(0);
      if res != FR_DISK_ERR { Still(); }
      if res != FR_OK { return; }
      for i := 0 to k
        invariant res == FR_OK && Confined() && Base() && At(i) && fs.View() == old(fs.View()) && chain == old(chain)
      {
        PlacedBound(i);
        ghost var p := Here();
        res := Next(false);
        if Sure(res) { GrewTrans(old(Here()), p, Here()); }
        if res != FR_OK { return; }
      }
      PlacedBound(k);
    }

    // ----- searching -----

    /** The name to be searched, as dir_find sees it. */
    function Wanted(): Query
      reads `long, lfnbuf, fn
      requires fn.Length == 12
    {
      Query(up, long, lfnbuf[..], fn[..11], fn[11] % 2 == 1)
    }

    /** The name buffers are apart from the window. */
    ghost predicate Buffers()
      reads fs`geo
    {
      Upper(up) && fn.Length == 12 && 0 < lfnbuf.Length <= 256 && fn != fs.win
    }

    /** Entries the index can reach. */
    ghost function Table(): (t: seq<Entry>)
      reads `chain, fs, fs.win, fs.dev
      requires Base()
    {
      Prefix(Entries(), Reach())
    }

    /** Bring the current entry into the window. */
    method LoadEntry() returns (res: FResult)
      requires At(index)
      requires Base()
      modifies fs.dev`sectors, fs.win, fs`wflag, fs`winsect
      ensures res == FR_OK || (res == FR_DISK_ERR && !fs.dev.reliable)
      ensures dir + 32 <= 512 == fs.win.Length
      ensures res == FR_OK ==> fs.View() == old(fs.View()) && fs.winsect == sect && Near()
      ensures res == FR_OK ==> Base() && index < |Table()| && fs.win[dir..dir + 32] == Table()[index]
      ensures res == FR_OK ==> fs.geo.fatbase <= sect && !InFat(fs.geo, sect)
    {
      hide Volume.Valid, Volume.Table, Sectors, Path, WellFormed, Overlay;
      fs.Facts();
      SectsFacts();
      res := fs.MoveWindow(sect);
      if res == FR_OK {
        Kept();
        fs.WindowShown();
      }
    }

    /** dir_find on a long-name entry in the window. */
    method MatchPart(ord: Byte, sum: Byte) returns (ord': Byte, sum': Byte)
      requires Buffers() && fs.win.Length == 512 && dir + 32 <= 512
      modifies `lfnIdx
      ensures Track(ord', sum', lfnIdx) ==
        PartStep(Wanted(), fs.win[dir..dir + 32], index, Track(ord, sum, old(lfnIdx)))
    {
      hide Accepts;
      ghost var e: Entry := fs.win[dir..dir + 32];
      assert e[0] == fs.win[dir] && e[13] == fs.win[dir + 13];
      ord', sum' := ord, sum;
      if long {
        var c := fs.win[dir];
        if c / 64 % 2 == 1 {
          sum' := fs.win[dir + 13];
          c := c - 64;
          ord' := c;
          lfnIdx := index;
        }
        var ok := false;
        if c == ord' && sum' == fs.win[dir + 13] {
          ok := CmpLfn(up, lfnbuf, fs.win, dir);
          assert ok == Accepts(up, |lfnbuf[..]| - 1, lfnbuf[..], e);
        }
        ord' := if ok then (ord' + 255) % 256 else 0xFF;
      }
    }

    /** How the search goes on, or ends, after a verdict on the current entry. */
    ghost function Outcome(v: Verdict, t: seq<Entry>, s: Track): Result
      reads `long, lfnbuf, fn, `index, `lfnIdx
      requires fn.Length == 12 && lfnbuf.Length > 0
    {
      match v
      case Stop => Missing
      case Hit => Found(index, lfnIdx)
      case Go => Scan(Wanted(), t, index + 1, s)
    }

    /** dir_find on the entry in the window. */
    method Examine(ord: Byte, sum: Byte, ghost t: seq<Entry>) returns (v: Verdict, ord': Byte, sum': Byte)
      requires Buffers() && fs.win.Length == 512 && dir + 32 <= 512
      requires index < |t| && t[index] == fs.win[dir..dir + 32]
      modifies `lfnIdx
      ensures Scan(Wanted(), t, index, Track(ord, sum, old(lfnIdx))) == Outcome(v, t, Track(ord', sum', lfnIdx))
    {
      hide SumOf, PartStep;
      ghost var e: Entry := fs.win[dir..dir + 32];
      ghost var q := Wanted();
      ord', sum' := ord, sum;
      var c := fs.win[dir];
      if c == 0 { return Stop, ord', sum'; }
      var a := fs.win[dir + 11] % 64;
      if c == DDE || (a / 8 % 2 == 1 && a != AM_LFN) {
        ord' := 0xFF;
      } else if a == AM_LFN {
        ord', sum' := MatchPart(ord, sum);
      } else {
        if ord == 0 {
          var x := SumSfn(fs.win, dir);
          SliceFront(fs.win, dir);
          SumPrefix(fs.win[dir..dir + 11], e, 11);
          if sum == x { return Hit, ord', sum'; }
        }
        ord' := 0xFF;
        lfnIdx := 0xFFFF;
        if fn[11] % 2 == 0 && fs.win[dir..dir + 32][..11] == fn[..11] { return Hit, ord', sum'; }
      }
      return Go, ord', sum';
    }

    /** One round of dir_find. */
    method FindStep(ord: Byte, sum: Byte, ghost t: seq<Entry>) returns (res: FResult, v: Verdict, ord': Byte, sum': Byte)
      requires Buffers() && At(index)
      requires Base()
      requires t == Table()
      modifies `lfnIdx, fs.dev`sectors, fs.win, fs`wflag, fs`winsect
      ensures res == FR_OK || (res == FR_DISK_ERR && !fs.dev.reliable)
      ensures Wanted() == old(Wanted())
      ensures res == FR_OK ==> fs.View() == old(fs.View()) && Near()
      ensures res == FR_OK ==> Base() && Table() == t
      ensures res == FR_OK ==>
        Scan(Wanted(), t, index, Track(ord, sum, old(lfnIdx))) == Outcome(v, t, Track(ord', sum', lfnIdx))
    {
      hide Base, Volume.Valid, Volume.View, Volume.Table, Placed, Sects, Sound, Scan;
      fs.Facts();
      v, ord', sum' := Stop, ord, sum;
      res := LoadEntry();
      if res != FR_OK { return; }
      TableKept();
      v, ord', sum' := Examine(ord, sum, t);
    }

    /** In terms of bytes, r is the first file or directory in the table t that the search is for. */
    ghost predicate FoundFirst(t: seq<Entry>, r: DirTable.Result)
      reads `long, lfnbuf, fn
    {
      && fn.Length == 12 && 0 < lfnbuf.Length && RawSearch.FirstHit(Wanted(), t, r)
      && (r.Found? ==> r.at < |t| && t[r.at][0] !in {0x00, 0xE5} && t[r.at][11] / 8 % 2 == 0)
    }

    lemma FoundIs(t: seq<Entry>, idx: nat)
      requires fn.Length == 12 && 0 < lfnbuf.Length <= 256 && |t| <= 0x1_0000
      ensures FoundFirst(t, Search(Wanted(), t, idx))
    {
      hide Search;
      RawSearch.SearchRaw(Wanted(), t, idx);
    }

    /** dir_find: search the directory for the wanted name. */
    method Find() returns (res: FResult)
      requires Buffers()
      requires Base()
      modifies `index, `clust, `sect, `dir, `lfnIdx, `chain, fs.dev`sectors, fs.win, fs`wflag, fs`winsect, fs`log,
        fs`freeClust, fs`fsiFlag, fs`lastClust, fs`strayed
      ensures res == FR_OK || res == FR_NO_FILE || (res == FR_DISK_ERR && !fs.dev.reliable)
      ensures res == FR_OK ==> At(index)
      ensures !fs.strayed && fs.log == old(fs.log) && fs.SameCount()
      ensures res != FR_DISK_ERR ==> fs.View() == old(fs.View()) && chain == old(chain) && Near()
      ensures res != FR_DISK_ERR ==> Base() && Confined()
      ensures res != FR_DISK_ERR ==> Table() == old(Table())
      // it refines the search of the table; in terms of bytes: the first file or directory that matches
      ensures res != FR_DISK_ERR ==>
        Search(Wanted(), old(Table()), old(lfnIdx)) == if res == FR_OK then Found(index, lfnIdx) else Missing
      ensures res != FR_DISK_ERR ==> FoundFirst(old(Table()), if res == FR_OK then Found(index, lfnIdx) else Missing)
    {
      hide Base, Volume.Valid, Volume.View, Volume.Table, Placed, Sects, Search, FoundFirst, Table, Confined, Near, Reach;
      ghost var t, idx := Table(), lfnIdx;
      TableSize();
      res := FindLoop();
      FoundIs(t, idx);
    }

    /** The next entry of a table that is only read. */
    method Onwards(ghost t: seq<Entry>) returns (res: FResult)
      requires At(index)
      requires Base()
      requires t == Table()
      modifies `index, `clust, `sect, `dir, `chain, fs.dev`sectors, fs.win, fs`wflag, fs`winsect, fs`log, fs`freeClust,
        fs`fsiFlag, fs`lastClust, fs`strayed
      ensures res == FR_OK || res == FR_NO_FILE || (res == FR_DISK_ERR && !fs.dev.reliable)
      ensures !fs.strayed && fs.log == old(fs.log) && fs.SameCount()
      ensures res != FR_DISK_ERR ==> Base() && fs.View() == old(fs.View()) && chain == old(chain) && fs.geo == old(fs.geo)
      ensures res != FR_DISK_ERR ==> Table() == t && Near() && Entries() == old(Entries()) && Confined()
      ensures res != FR_DISK_ERR ==> fs.Table() == old(fs.Table())
      ensures res == FR_OK ==> At(old(index) + 1)
      ensures res == FR_NO_FILE ==> old(index) + 1 == |t|
    {
      hide IsPow2, EndSector, Chain, Base, Volume.Valid, Volume.View, Volume.Table, Placed, Sects, Extended, HasOne, Full,
        Sound, Grew, SameBut, Volume.Snap, AllWell, Confined;
      TableSize();
      res := Next(false);
      if res != FR_DISK_ERR {
        TableKept();
        EntriesKept();
        fs.SameTable();
        Still();
      }
    }

    /** The loop of dir_find over the entries of the table. */
    method FindLoop() returns (res: FResult)
      requires Buffers()
      requires Base()
      modifies `index, `clust, `sect, `dir, `lfnIdx, `chain, fs.dev`sectors, fs.win, fs`wflag, fs`winsect, fs`log,
        fs`freeClust, fs`fsiFlag, fs`lastClust, fs`strayed
      ensures res == FR_OK || res == FR_NO_FILE || (res == FR_DISK_ERR && !fs.dev.reliable)
      ensures res == FR_OK ==> At(index)
      ensures !fs.strayed && fs.log == old(fs.log) && fs.SameCount()
      ensures res != FR_DISK_ERR ==> fs.View() == old(fs.View()) && chain == old(chain) && Near()
      ensures res != FR_DISK_ERR ==> Base() && Confined()
      ensures res != FR_DISK_ERR ==> Table() == old(Table())
      ensures res != FR_DISK_ERR ==>
        Search(Wanted(), old(Table()), old(lfnIdx)) == if res == FR_OK then Found(index, lfnIdx) else Missing
    {
      hide Volume.Sane, IsPow2, EndSector, Chain, Reach, Base, Volume.Valid, Volume.View, Volume.Table, Placed,
        Sects, Extended, HasOne, Full, Sound, Scan, Grew, SameBut, Volume.Snap, AllWell, Confined;
      fs.Facts();
      TableSize();
      ghost var q, t := Wanted(), Table();
      res := Sdi(0);
      if res != FR_OK {
        return;
      }
      var ord: Byte, sum: Byte := 0xFF, 0xFF;
      while true
        invariant Base() && At(index) && fs.View() == old(fs.View()) && chain == old(chain) && fs.geo == old(fs.geo)
        invariant fs.log == old(fs.log) && fs.SameCount() && !fs.strayed
        invariant Wanted() == q && Table() == t && Near()
        invariant Search(q, t, old(lfnIdx)) == Scan(q, t, index, Track(ord, sum, lfnIdx))
        decreases 0x1_0000 - index
      {
        var v;
        res, v, ord, sum := FindStep(ord, sum, t);
        if res != FR_OK { return; }
        if v.Stop? || v.Hit? { Still(); }
        if v.Stop? { return FR_NO_FILE; }
        if v.Hit? { return FR_OK; }
        ghost var k := index;
        res := Onwards(t);
        if res == FR_DISK_ERR { return; }
        if res != FR_OK {
          Still();
          ScanEnd(q, t, k + 1, Track(ord, sum, lfnIdx));
          return;
        }
      }
    }

    twostate lemma TableKept()
      requires old(Base()) && Base() && chain == old(chain) && fs.geo == old(fs.geo)
      requires fs.View() == old(fs.View())
      ensures Table() == old(Table())
    {
      hide Volume.Valid, Volume.View, Base;
      fs.Facts();
      EntriesKept();
    }

    lemma TableSize()
      requires Base()
      ensures 0 < |Table()| == Reach() <= 0x1_0000
    {
    }

    // ----- changing entries -----

    /** The current entry was replaced in the window. */
    twostate lemma EntryWritten(e: Entry)
      requires At(index) && unchanged(`chain) && unchanged(fs.dev) && fs.geo == old(fs.geo) && fs.SameCount() && fs.wflag
      requires fs.winsect == old(fs.winsect) == sect && fs.mirrored == old(fs.mirrored)
      requires fs.geo.fatbase <= sect && !InFat(fs.geo, sect)
      requires old(Base())
      requires !fs.strayed
      requires fs.win.Length == 512 && fs.win[..] == Put(old(fs.win[..]), dir, e)
      ensures Base() && Entries() == old(Entries())[index := e] && fs.Table() == old(fs.Table()) && Confined()
    {
      hide Volume.Valid, Volume.Table, Volume.View, Sectors, Path, WellFormed, Grew, Row, Put;
      fs.Edited();
      assert Base();
      SectsFacts();
      RowWritten(old(fs.View()), Sects(), index, e);
      Wrote();
    }

    /** The first entry of the object that was found. */
    function FirstSlot(): nat
      reads `index, `lfnIdx
    {
      if lfnIdx == 0xFFFF then index else lfnIdx
    }

    /** Mark the current entry as deleted. */
    method MarkDeleted() returns (res: FResult)
      requires At(index)
      requires Base()
      modifies fs.dev`sectors, fs.win, fs`wflag, fs`winsect
      ensures res == FR_OK || (res == FR_DISK_ERR && !fs.dev.reliable)
      ensures res == FR_OK ==> Confined() && Base() && index < |old(Entries())|
      ensures res == FR_OK ==> fs.Table() == old(fs.Table())
      ensures res == FR_OK ==> Entries() == Deleted(old(Entries()), index, index + 1)
    {
      hide Reach, IsPow2, Static, Near, Volume.Valid, Volume.Table, Volume.View, Sectors, Path, WellFormed, Base,
        Placed, Sects, Deleted, Grew, SameBut, Volume.Snap;
      fs.Facts();
      TableSize();
      res := LoadEntry();
      if res == FR_OK {
        EntriesKept();
        fs.SameTable();
        Still();
        ghost var p := Here();
        label Loaded:
        ghost var e := fs.win[dir..dir + 32];
        fs.win[dir] := DDE;
        fs.wflag := true;
        assert fs.win[..] == Put(old@Loaded(fs.win[..]), dir, e[0 := DDE]);
        EntryWritten@Loaded(e[0 := DDE]);
        GrewTrans(old(Here()), p, Here());
      }
    }

    /** dir_remove: mark the long-name entries, if any, and the short one as deleted. */
    method Remove() returns (res: FResult)
      requires At(index) && (lfnIdx == 0xFFFF || lfnIdx <= index)
      requires Base()
      modifies `index, `clust, `sect, `dir, `chain, fs.dev`sectors, fs.win, fs`wflag, fs`winsect, fs`log, fs`freeClust,
        fs`fsiFlag, fs`lastClust, fs`strayed
      ensures res == FR_OK || (res == FR_DISK_ERR && !fs.dev.reliable)
      ensures !fs.strayed && fs.log == old(fs.log) && fs.SameCount()
      ensures res == FR_OK ==> Base() && Confined() && chain == old(chain)
      ensures res == FR_OK ==> fs.Table() == old(fs.Table())
      ensures res == FR_OK ==> Entries() == Deleted(old(Entries()), old(FirstSlot()), old(index) + 1)
    {
      hide Volume.Sane, WellFormed, Near, IsPow2, EndSector, Base, Volume.Valid, Volume.View, Volume.Table, Placed,
        Sects, Extended, HasOne, Full, Sound, Deleted, Entries, InFat, Top, Grew, SameBut, Volume.Snap, AllWell;
      ghost var p0 := Here();
      fs.Facts();
      var i := index;
      var first := FirstSlot();
      PlacedBound(i);
      ghost var t := Entries();
      DeletedStep(t, first, i);
      res := Sdi(first);
      if res != FR_OK { return; }
      EntriesKept();
      fs.SameTable();
      Still();
      while true
        invariant Base() && At(index) && first <= index <= i && chain == old(chain) && fs.geo == old(fs.geo)
        invariant !fs.strayed && fs.log == old(fs.log) && fs.SameCount() && Grew(p0, Here())
        invariant fs.Table() == old(fs.Table()) && Entries() == Deleted(t, first, index)
        decreases i - index
      {
        DeletedStep(t, first, index);
        ghost var p := Here();
        res := MarkDeleted();
        if res != FR_OK { return; }
        GrewTrans(p0, p, Here());
        if index >= i { break; }
        PlacedBound(index);
        p := Here();
        res := Onwards(Table());
        if res == FR_DISK_ERR { return; }
        GrewTrans(p0, p, Here());
      }
    }

    // ----- reserving entries -----

    /** The entries are those of t, with zero entries behind them. */
    ghost predicate Padded(t: seq<Entry>)
      reads `chain, fs, fs.win, fs.dev
      requires Base()
    {
      |t| <= |Entries()| && Entries() == t + EmptyRows(|Entries()| - |t|)
    }

    twostate lemma PadMore(t: seq<Entry>)
      requires old(Base()) && Base() && Extended() && old(Padded(t))
      ensures Padded(t) && |old(Entries())| <= |Entries()| && old(Entries()) == Entries()[..|old(Entries())|]
    {
      hide Base, Entries;
      ghost var a, b := old(Entries()), Entries();
      assert b == t + EmptyRows(|a| - |t|) + EmptyRows(|b| - |a|);
    }

    /** Look at the current entry: is it blank? */
    method Inspect() returns (res: FResult, blank: bool)
      requires At(index)
      requires Base()
      modifies fs.dev`sectors, fs.win, fs`wflag, fs`winsect
      ensures res == FR_OK || (res == FR_DISK_ERR && !fs.dev.reliable)
      ensures res == FR_OK ==> Base() && index < |Entries()| && blank == IsBlank(Entries()[index])
      ensures res == FR_OK ==> Confined() && fs.Table() == old(fs.Table())
      ensures res == FR_OK ==> Entries() == old(Entries())
    {
      hide Near, Base, Volume.Valid, Volume.View, Volume.Table, Placed, Sects, Sound, Grew, SameBut, Volume.Snap;
      blank := false;
      res := LoadEntry();
      if res == FR_OK {
        EntriesKept();
        fs.SameTable();
        Still();
        var c := fs.win[dir];
        blank := c == DDE || c == 0;
      }
    }

    /** The next entry, of a table that may grow. */
    method NextGrow(ghost t: seq<Entry>) returns (res: FResult)
      requires At(index)
      requires Base() && Padded(t)
      modifies `index, `clust, `sect, `dir, `chain, fs.dev`sectors, fs.win, fs`wflag, fs`winsect, fs`log, fs`freeClust,
        fs`fsiFlag, fs`lastClust, fs`strayed
      ensures res in {FR_OK, FR_DISK_ERR, FR_INT_ERR, FR_DENIED, FR_NO_FILE} && (res == FR_DISK_ERR ==> !fs.dev.reliable)
      ensures fs.dev.reliable || Static() ==> !fs.strayed
      ensures !fs.strayed ==> fs.LoggedWellFormed()
      ensures Static() ==> res == FR_OK || res == FR_NO_FILE
      ensures Sure(res) && res == FR_OK ==> At(old(index) + 1)
      ensures Sure(res) ==> Base() && Padded(t) && Confined()
      ensures Sure(res) ==> |old(Entries())| <= |Entries()| && old(Entries()) == Entries()[..|old(Entries())|]
      ensures Sure(res) && |old(Entries())| <= 0x1_0000 ==> |Entries()| <= 0x1_0000
      ensures Sure(res) && (res == FR_NO_FILE || res == FR_DENIED) ==> old(index) + 1 == Reach() == |Table()|
      ensures Sure(res) && res == FR_NO_FILE ==> Static() || Reach() == 0x1_0000
      ensures Sure(res) && res == FR_DENIED ==> Full(fs.Table())
      ensures Sure(res) && res == FR_INT_ERR ==> HasOne(old(fs.Table()))
    {
      hide Base, Volume.Valid, Volume.View, Volume.Table, Placed, Sects, Extended, HasOne, Full, Sound, EmptyRows,
        Grew, SameBut, Volume.Snap, AllWell;
      fs.Facts();
      PlacedBound(index);
      res := Next(true);
      if Sure(res) {
        GrownBy();
        PadMore(t);
        TableSize();
      }
    }

    twostate lemma GrownBy()
      requires old(Base()) && Base() && Extended()
      ensures |old(Entries())| <= |Entries()|
    {
    }

    lemma TablePrefix(n: nat, k: nat)
      requires Base()
      requires NoRun(Entries(), n, k) && k == |Table()|
      ensures NoRun(Table(), n, |Table()|)
    {
      hide Base, Entries;
      forall j: nat | j + n <= k
        ensures !BlankRun(Table(), j, n)
      {
        assert !BlankRun(Entries(), j, n);
        assert forall i :: j <= i < j + n ==> Table()[i] == Entries()[i];
      }
    }

    /** A static table does not grow. */
    twostate lemma StaticSame()
      requires unchanged(fs`geo)
      requires old(Base()) && Base() && Padded(old(Entries()))
      ensures Static() ==> Entries() == old(Entries()) && Table() == old(Table())
    {
      hide Volume.Valid, Volume.View, Volume.Table, WellFormed, EmptyRows;
      if Static() { assert Entries() == old(Entries()) + EmptyRows(0); }
    }

    lemma RunFound(k: nat, n: nat)
      requires n > 0 && At(index) && k == index + 1
      requires Base()
      requires Trailing(Entries(), k, n)
      ensures !NoRun(Table(), n, |Table()|)
    {
      hide Base, Entries, IsBlank;
      SizeFacts();
      assert BlankRun(Entries(), k - n, n);
      assert forall i :: k - n <= i < k ==> Table()[i] == Entries()[i];
      assert BlankRun(Table(), k - n, n);
    }

    /** Why no ne blank entries were found; t0 and e0 are FAT and table from before. */
    ghost predicate Reason(res: FResult, ne: nat, t0: Fat, e0: seq<Entry>)
      reads `chain, fs, fs.win, fs.dev
    {
      && Failed(res, ne, t0)
      // a static table that could be read: exactly when there is no such run
      && (Static() ==> (res == FR_NO_FILE <==> NoRun(e0, ne, |e0|)))
    }

    lemma ReasonNone(ne: nat, t0: Fat, e0: seq<Entry>)
      requires Base() && Reason(FR_OK, ne, t0, e0)
      ensures Static() ==> !NoRun(e0, ne, |e0|)
    {
    }

    lemma ReasonAny(ne: nat, t0: Fat, e0: seq<Entry>)
      requires Base() && (Static() ==> !NoRun(e0, ne, |e0|))
      ensures Reason(FR_OK, ne, t0, e0)
    {
    }

    lemma ReasonFound(ne: nat, t0: Fat, e0: seq<Entry>)
      requires ne > 0 && At(index)
      requires Base()
      requires Trailing(Entries(), index + 1, ne) && (Static() ==> Table() == e0)
      ensures Reason(FR_OK, ne, t0, e0)
    {
      hide Base, Entries, Table, NoRun, Reason, Trailing;
      RunFound(index + 1, ne);
      ReasonAny(ne, t0, e0);
    }

    /** The last n of the entries in front of entry k are blank, from entry first on; no ne blank ones lie in a row before. */
    ghost predicate Searching(ne: nat, k: nat, first: nat, n: nat)
      reads `chain, fs, fs.win, fs.dev
      requires Base()
    {
      n < ne && Trailing(Entries(), k, n) && NoRun(Entries(), ne, k) && (n > 0 ==> first + n == k)
    }

    lemma SearchingStart(ne: nat)
      requires Base() && ne > 0
      ensures Searching(ne, 0, 0, 0)
    {
      hide Base, Entries;
      TrailingStart(Entries(), ne);
    }

    /** The step to the next entry in the search for ne blank ones, n of which lie at the end of the part searched. */
    method ReserveNext(ne: nat, ghost first: nat, ghost n: nat, ghost t: seq<Entry>) returns (res: FResult)
      requires At(index) && n < ne && (n > 0 ==> first + n == index + 1)
      requires Base() && Padded(t) && Trailing(Entries(), index + 1, n) && NoRun(Entries(), ne, index + 1)
      modifies `index, `clust, `sect, `dir, `chain, fs.dev`sectors, fs.win, fs`wflag, fs`winsect, fs`log, fs`freeClust,
        fs`fsiFlag, fs`lastClust, fs`strayed
      ensures res in {FR_OK, FR_DISK_ERR, FR_INT_ERR, FR_DENIED, FR_NO_FILE} && (res == FR_DISK_ERR ==> !fs.dev.reliable)
      ensures fs.dev.reliable || Static() ==> !fs.strayed
      ensures !fs.strayed ==> fs.LoggedWellFormed()
      ensures Static() ==> res != FR_INT_ERR && res != FR_DENIED
      ensures Sure(res) ==> Base() && Padded(t) && Confined()
      ensures Sure(res) && |old(Entries())| <= 0x1_0000 ==> |Entries()| <= 0x1_0000
      ensures Sure(res) && res == FR_OK ==> At(index) && index == old(index) + 1 && Searching(ne, index, first, n)
      ensures Sure(res) && res != FR_OK ==> Failed(res, ne, old(fs.Table()))
    {
      hide Near, EndSector, Base, Volume.Valid, Volume.View, Volume.Table, Placed, Sects, Full, Sound, Entries, Table,
        Padded, NoRun, HasOne, Trailing, IsBlank, BlankRun, IsPow2, Chain, Path, Top, Reach, InFat, Grew, SameBut,
        Volume.Snap, AllWell, Confined;
      ghost var e, k := Entries(), index;
      PlacedBound(index);
      res := NextGrow(t);
      if !Sure(res) { return; }
      TrailingGrown(e, Entries(), k + 1, n, ne);
      if res == FR_NO_FILE || res == FR_DENIED { SizeFacts(); TablePrefix(ne, k + 1); }
    }

    /** One round of the search for ne blank entries: look at the current one, and step on unless it was the last needed. */
    method ReserveStep(ne: nat, first0: nat, n0: nat, ghost t: seq<Entry>) returns (res: FResult, first: nat, n: nat)
      requires At(index)
      requires Base() && Padded(t) && Searching(ne, index, first0, n0)
      modifies `index, `clust, `sect, `dir, `chain, fs.dev`sectors, fs.win, fs`wflag, fs`winsect, fs`log, fs`freeClust,
        fs`fsiFlag, fs`lastClust, fs`strayed
      ensures res in {FR_OK, FR_DISK_ERR, FR_INT_ERR, FR_DENIED, FR_NO_FILE} && (res == FR_DISK_ERR ==> !fs.dev.reliable)
      ensures fs.dev.reliable || Static() ==> !fs.strayed
      ensures !fs.strayed ==> fs.LoggedWellFormed()
      ensures Static() ==> res != FR_INT_ERR && res != FR_DENIED
      ensures Sure(res) ==> Base() && Padded(t) && Confined()
      ensures Sure(res) && |old(Entries())| <= 0x1_0000 ==> |Entries()| <= 0x1_0000
      ensures Sure(res) && n == ne ==>
        && res == FR_OK && At(index) && index == old(index) && first + ne == index + 1
        && Trailing(Entries(), index + 1, ne) && NoRun(Entries(), ne, index)
      ensures Sure(res) && res == FR_OK && n != ne ==>
        At(index) && index == old(index) + 1 && Searching(ne, index, first, n)
      ensures Sure(res) && res != FR_OK ==> n < ne && Failed(res, ne, old(fs.Table()))
    {
      hide Near, EndSector, Base, Volume.Valid, Volume.View, Volume.Table, Placed, Sects, Full, Sound, Entries, Table,
        Padded, NoRun, HasOne, Trailing, IsBlank, BlankRun, IsPow2, Chain, Path, Top, Reach, InFat, Grew, SameBut,
        Volume.Snap, AllWell;
      ghost var p0 := Here();
      first, n := first0, n0;
      ghost var e, k := Entries(), index;
      AllWellSelf(fs.log);
      var blank;
      res, blank := Inspect();
      if res != FR_OK { return; }
      ghost var p := Here();
      PadKept(t);
      TrailingStep(e, k, n, ne);
      if blank {
        if n == 0 { first := index; }
        n := n + 1;
        if n == ne { return; }
      } else {
        n := 0;
      }
      res := ReserveNext(ne, first, n, t);
      if Sure(res) { GrewTrans(p0, p, Here()); }
    }

    /** Why the step to the next entry failed. */
    ghost predicate Failed(res: FResult, ne: nat, t0: Fat)
      reads `chain, fs, fs.win, fs.dev
    {
      && Base()
      && (res == FR_NO_FILE || res == FR_DENIED ==> NoRun(Table(), ne, |Table()|))
      && (res == FR_NO_FILE ==> Static() || Reach() == 0x1_0000)
      && (res == FR_DENIED ==> !Static() && Full(fs.Table()))
      && (res == FR_INT_ERR ==> !Static() && HasOne(t0))
    }

    /** The value 1 was in the FAT from the start. */
    lemma ReasonSince(res: FResult, ne: nat, t: Fat, p: Picture, e0: seq<Entry>)
      requires Base() && Failed(res, ne, t) && (HasOne(t) ==> HasOne(p.table))
      requires Static() ==> res == FR_NO_FILE && Table() == e0
      ensures Reason(res, ne, p.table, e0)
    {
      hide HasOne, Full, NoRun, Base, Table;
    }

    /** dir_register: find ne blank entries in a row, stretching the table if need be. */
    method Reserve(ne: nat) returns (res: FResult, first: nat)
      requires ne > 0
      requires Base()
      modifies `index, `clust, `sect, `dir, `chain, fs.dev`sectors, fs.win, fs`wflag, fs`winsect, fs`log, fs`freeClust,
        fs`fsiFlag, fs`lastClust, fs`strayed
      ensures res in {FR_OK, FR_DISK_ERR, FR_INT_ERR, FR_DENIED, FR_NO_FILE} && (res == FR_DISK_ERR ==> !fs.dev.reliable)
      ensures fs.dev.reliable || Static() ==> !fs.strayed
      ensures !fs.strayed ==> fs.LoggedWellFormed()
      ensures Static() ==> res != FR_INT_ERR && res != FR_DENIED
      ensures Sure(res) && res == FR_OK ==> At(index) && first + ne == index + 1
      ensures Sure(res) ==> Base() && Confined()
      ensures Sure(res) ==> Padded(old(Entries()))
      ensures Sure(res) && |old(Entries())| <= 0x1_0000 ==> |Entries()| <= 0x1_0000
      ensures Sure(res) && res == FR_OK ==> Trailing(Entries(), index + 1, ne) && NoRun(Entries(), ne, index)
      ensures Sure(res) ==> Reason(res, ne, old(fs.Table()), old(Table()))
    {
      hide Near, Reason, EndSector, Searching, Failed, Base, Volume.Valid, Volume.View, Volume.Table, Placed, Sects, Full,
        Sound, Entries, Table, Padded, NoRun, HasOne, Trailing, IsBlank, BlankRun, IsPow2, Chain, Path, Top, Reach,
        InFat, Grew, SameBut, Volume.Snap, AllWell;
      fs.Facts();
      ghost var t, p0, l0 := Entries(), Here(), fs.log;
      first := 0;
      SizeFacts();
      AllWellSelf(fs.log);
      res := Sdi(0);
      if res == FR_DISK_ERR { return; }
      EntriesKept();
      Still();
      PadNone(t);
      SearchingStart(ne);
      var n := 0;
      while true
        invariant Base() && At(index) && fs.geo == old(fs.geo) && Padded(t) && Grew(p0, Here()) && AllWell(l0, fs.log)
        invariant |t| <= 0x1_0000 ==> |Entries()| <= 0x1_0000
        invariant Searching(ne, index, first, n)
        decreases 0x1_0000 - index
      {
        ghost var p, l := Here(), fs.log;
        GrewBack(p0, p);
        res, first, n := ReserveStep(ne, first, n, t);
        if !fs.strayed { AllWellTrans(l0, l, fs.log); }
        if res == FR_DISK_ERR || fs.strayed { return; }   // a volume that strayed is followed no further
        GrewTrans(p0, p, Here());
        StaticSame();
        if n == ne {
          ReasonFound(ne, old(fs.Table()), old(Table()));
          return;
        }
        if res != FR_OK {
          ReasonSince(res, ne, p.table, p0, old(Table()));
          return;
        }
      }
    }

    lemma PadNone(t: seq<Entry>)
      requires Base()
      requires Entries() == t
      ensures Padded(t)
    {
    }

    twostate lemma PadKept(t: seq<Entry>)
      requires old(Base()) && Base() && Entries() == old(Entries()) && old(Padded(t))
      ensures Padded(t)
    {
      hide Base, Entries;
    }

    // ----- writing an object -----

    /** fit_lfn on the current entry. */
    method PutPart(ghost n: seq<Word>, ord: Byte, sum: Byte) returns (res: FResult)
      requires At(index) && fn != fs.win && Named(lfnbuf[..], n) && IsName(n) && 0 < ord <= Segments(|n|)
      requires Base()
      modifies fs.dev`sectors, fs.win, fs`wflag, fs`winsect
      ensures res == FR_OK || (res == FR_DISK_ERR && !fs.dev.reliable)
      ensures res == FR_OK ==> Confined() && Base() && fs.Table() == old(fs.Table()) && index < |old(Entries())|
      ensures res == FR_OK ==> Entries() == old(Entries())[index := LfnEntry(n, ord, sum)]
    {
      hide Near, Volume.Valid, Volume.Table, Volume.View, Sectors, Path, WellFormed, Base, Placed, Sects, LfnEntry, Grew,
        SameBut, Volume.Snap;
      TableSize();
      res := LoadEntry();
      if res == FR_OK {
        EntriesKept();
        fs.SameTable();
        Still();
        ghost var p := Here();
        label Loaded:
        FitLfn(lfnbuf, n, fs.win, dir, ord, sum);
        fs.wflag := true;
        EntryWritten@Loaded(LfnEntry(n, ord, sum));
        GrewTrans(old(Here()), p, Here());
      }
    }

    /** Write the short entry: cleared, with the name and the NT flags. */
    method PutShort() returns (res: FResult)
      requires At(index) && fn != fs.win && fn.Length == 12
      requires Base()
      modifies fs.dev`sectors, fs.win, fs`wflag, fs`winsect
      ensures res == FR_OK || (res == FR_DISK_ERR && !fs.dev.reliable)
      ensures res == FR_OK ==> Confined() && Base() && fs.Table() == old(fs.Table()) && index < |old(Entries())|
      ensures res == FR_OK ==> Entries() == old(Entries())[index := SfnEntry(fn[..])]
    {
      hide Near, Volume.Valid, Volume.Table, Volume.View, Sectors, Path, WellFormed, Base, Placed, Sects, SfnEntry, Put,
        Grew, SameBut, Volume.Snap;
      TableSize();
      res := LoadEntry();
      if res == FR_OK {
        EntriesKept();
        fs.SameTable();
        Still();
        ghost var p := Here();
        label Loaded:
        FillShort();
        fs.wflag := true;
        EntryWritten@Loaded(SfnEntry(fn[..]));
        GrewTrans(old(Here()), p, Here());
      }
    }

    /** The short name and the NT flags in the window, over a blank entry. */
    method FillShort()
      requires fn != fs.win && fn.Length == 12 && fs.win.Length == 512 && dir + 32 <= 512
      modifies fs.win
      ensures fs.win[..] == Put(old(fs.win[..]), dir, SfnEntry(fn[..]))
    {
      forall i | 0 <= i < 32 { fs.win[dir + i] := 0; }
      forall i | 0 <= i < 11 { fs.win[dir + i] := fn[i]; }
      fs.win[dir + 12] := fn[11] / 8 % 4 * 8;
    }

    /** Store a long-name entry and step to the next entry. */
    method PutNext(ghost n: seq<Word>, ord: Byte, sum: Byte) returns (res: FResult)
      requires At(index) && fn != fs.win && Named(lfnbuf[..], n) && IsName(n) && 0 < ord <= Segments(|n|)
      requires Base() && index + 1 < Reach()
      modifies `index, `clust, `sect, `dir, `chain, fs.dev`sectors, fs.win, fs`wflag, fs`winsect, fs`log, fs`freeClust,
        fs`fsiFlag, fs`lastClust, fs`strayed
      ensures res == FR_OK || (res == FR_DISK_ERR && !fs.dev.reliable)
      ensures !fs.strayed && fs.log == old(fs.log) && fs.SameCount()
      ensures res == FR_OK ==>
        At(old(index) + 1) && Base() && Confined() && fs.Table() == old(fs.Table()) && old(index) < |old(Entries())|
      ensures res == FR_OK ==> Entries() == old(Entries())[old(index) := LfnEntry(n, ord, sum)]
    {
      hide Volume.Valid, Volume.Table, Volume.View, Sectors, Path, WellFormed, Base, Placed, LfnEntry, Sects, Extended,
        HasOne, Full, Grew, SameBut, Volume.Snap, AllWell;
      SizeFacts();
      res := PutPart(n, ord, sum);
      if res != FR_OK { return; }
      SizeFacts();
      ghost var p := Here();
      label Put:
      res := Next(false);
      if res == FR_DISK_ERR { return; }
      SizeFacts();
      EntriesKept@Put();
      fs.SameTable@Put();
      GrewTrans(old(Here()), p, Here());
    }

    /** The number of entries within reach follows from the number of entries. */
    lemma SizeFacts()
      requires Base()
      ensures Reach() == (if |Entries()| <= 0x1_0000 then |Entries()| else 0x1_0000) > 0
      ensures |Table()| == Reach() && fs.win.Length == 512
    {
      fs.Facts();
    }

    /** The loop that stores the long-name entries, from the current one on. */
    method PutDown(ghost n: seq<Word>, ghost first: nat, segments: Byte, sum: Byte) returns (res: FResult)
      requires At(first) && fn != fs.win && Named(lfnbuf[..], n) && IsName(n) && segments == Segments(|n|)
      requires Base()
      requires first + segments < |Table()|
      modifies `index, `clust, `sect, `dir, `chain, fs.dev`sectors, fs.win, fs`wflag, fs`winsect, fs`log, fs`freeClust,
        fs`fsiFlag, fs`lastClust, fs`strayed
      ensures res == FR_OK || (res == FR_DISK_ERR && !fs.dev.reliable)
      ensures !fs.strayed && fs.log == old(fs.log) && fs.SameCount()
      ensures res == FR_OK ==>
        At(first + segments) && Base() && Confined() && fs.Table() == old(fs.Table()) && first + segments <= |old(Entries())|
      ensures res == FR_OK ==> Entries() == Overwrite(old(Entries()), first, Parts(n, segments, sum))
    {
      hide IsPow2, RootSectors, ClusterIndex, Top, EndSector, Named, Volume.Valid, Volume.Table, Volume.View, Sectors,
        Path, WellFormed, Base, Placed, Sects, LfnEntry, Overwrite, Parts, Extended, HasOne, Full, Entries, Reach,
        Table, Sound, Grew, SameBut, Volume.Snap, AllWell;
      ghost var p0, t, r := Here(), Entries(), Parts(n, segments, sum);
      Still();
      SizeFacts();
      OverwriteNext(t, first, r, 0);
      var ne := segments;
      ghost var k := 0;
      while true
        invariant !fs.strayed && fs.log == old(fs.log) && fs.SameCount() && fs.geo == old(fs.geo)
        invariant 0 < ne <= segments && k == segments - ne
        invariant Base() && Grew(p0, Here()) && At(first + k)
        invariant fs.Table() == old(fs.Table()) && Entries() == Overwrite(t, first, r[..k])
        decreases ne
      {
        OverwriteNext(t, first, r, k);
        SizeFacts();
        ghost var p := Here();
        res := PutNext(n, ne, sum);
        if res != FR_OK { return; }
        GrewTrans(p0, p, Here());
        ne, k := ne - 1, k + 1;
        if ne == 0 { break; }
      }
    }

    /** Store the long-name entries, bottom first, from entry first on. */
    method PutParts(ghost n: seq<Word>, first: nat, segments: Byte) returns (res: FResult)
      requires fn != fs.win && fn.Length == 12 && Named(lfnbuf[..], n) && IsName(n) && segments == Segments(|n|)
      requires Base()
      requires first + segments < |Table()|
      modifies `index, `clust, `sect, `dir, `chain, fs.dev`sectors, fs.win, fs`wflag, fs`winsect, fs`log, fs`freeClust,
        fs`fsiFlag, fs`lastClust, fs`strayed
      ensures res == FR_OK || (res == FR_DISK_ERR && !fs.dev.reliable)
      ensures !fs.strayed && fs.log == old(fs.log) && fs.SameCount()
      ensures res == FR_OK ==>
        At(first + segments) && Base() && Confined() && fs.Table() == old(fs.Table()) && first + segments <= |old(Entries())|
      ensures res == FR_OK ==>
        Entries() == Overwrite(old(Entries()), first, Parts(n, segments, SumOf(fn[..], 11)))
    {
      hide Near, IsPow2, RootSectors, ClusterIndex, Top, EndSector, Named, Volume.Valid, Volume.Table, Volume.View, Sectors,
        Path, WellFormed, Base, Placed, Sects, LfnEntry, Overwrite, Parts, Extended, HasOne, Full, Entries, Reach,
        Table, SumOf, Sound, Grew, SameBut, Volume.Snap, AllWell;
      ghost var p0 := Here();
      SizeFacts();
      ghost var t := Entries();
      res := Sdi(first);
      if res == FR_DISK_ERR { return; }
      EntriesKept();
      fs.SameTable();
      Still();
      SizeFacts();
      var sum := SumSfn(fn, 0);
      SumPrefix(fn[0..11], fn[..], 11);
      ghost var p := Here();
      res := PutDown(n, first, segments, sum);
      if res == FR_OK { GrewTrans(p0, p, Here()); }
    }

    // ----- entering an object -----

    /** The name to be entered is in the buffers. */
    ghost predicate Naming(name: seq<Word>)
      reads fs`geo, lfnbuf, fn
    {
      Buffers() && IsName(name) && Named(lfnbuf[..], name) && fn[0] != 0 && fn[0] != DDE
    }

    /** The search for the short name alone. */
    function ShortQuery(): Query
      reads lfnbuf, fn
      requires fn.Length == 12
    {
      Query(up, false, lfnbuf[..], fn[..11], false)
    }

    /** Generate the numbered short name k, and look for it. */
    method TryNumber(sn: seq<Byte>, ghost name: seq<Word>, k: nat) returns (res: FResult)
      requires |sn| == 12 && sn[0] != 0 && sn[0] != DDE && k < 100
      requires Naming(name) && fn[11] == 0 && !long
      requires Base()
      modifies fn, `index, `clust, `sect, `dir, `lfnIdx, `chain, fs.dev`sectors, fs.win, fs`wflag, fs`winsect, fs`log,
        fs`freeClust, fs`fsiFlag, fs`lastClust, fs`strayed
      ensures res == FR_OK || res == FR_NO_FILE || (res == FR_DISK_ERR && !fs.dev.reliable)
      ensures !fs.strayed && fs.log == old(fs.log) && fs.SameCount()
      ensures Naming(name) && fn[11] == 0 && fn[..11] == NumName.Numbered(sn[..11], NumName.NumberOf(name, k))
      ensures res != FR_DISK_ERR ==> fs.View() == old(fs.View()) && chain == old(chain) && Near()
      ensures res != FR_DISK_ERR ==> Base()
      ensures res != FR_DISK_ERR ==> (res == FR_OK <==> NumberTaken(name, sn[..11], old(Table()), k))
    {
      hide Base, Volume.Valid, Volume.View, Volume.Table, Placed, Sects, Sound, Search, NumName.Numbered,
        NumName.NumberOf, Entries, Table, Chain, Reach, Confined, InFat, IsPow2;
      NumName.GenNumName(fn, sn, lfnbuf, name, k);
      assert fn[0] == fn[..11][0];
      ShortOccupied(Wanted(), Table(), lfnIdx);
      res := Find();
    }

    /** Generate numbered short names until one is not in the directory; the status byte is kept. */
    method FindNumber(ghost name: seq<Word>) returns (res: FResult, ghost n: nat)
      requires Naming(name)
      requires Base()
      modifies fn, `long, `index, `clust, `sect, `dir, `lfnIdx, `chain, fs.dev`sectors, fs.win, fs`wflag, fs`winsect,
        fs`log, fs`freeClust, fs`fsiFlag, fs`lastClust, fs`strayed
      ensures res == FR_NO_FILE || res == FR_DENIED || (res == FR_DISK_ERR && !fs.dev.reliable)
      ensures !fs.strayed && fs.log == old(fs.log) && fs.SameCount()
      ensures res == FR_NO_FILE ==> Naming(name) && long == old(long) && fn[11] == old(fn[11])
      ensures res != FR_DISK_ERR ==> fs.View() == old(fs.View()) && chain == old(chain) && Near()
      ensures res != FR_DISK_ERR ==> Base() && Confined()
      ensures res != FR_DISK_ERR ==> Entries() == old(Entries())
      // the first of the numbers from 1 to 99 whose name is not taken
      ensures res != FR_DISK_ERR ==> 1 <= n <= 100 && (res == FR_DENIED <==> n == 100)
      ensures res != FR_DISK_ERR ==> forall j :: 1 <= j < n ==> NumberTaken(name, old(fn[..11]), old(Table()), j)
      ensures res != FR_DISK_ERR ==>
        (res == FR_DENIED <==> NumbersTaken(name, old(fn[..11]), old(Table())))
      ensures res == FR_NO_FILE ==> !NumberTaken(name, old(fn[..11]), old(Table()), n)
      ensures res == FR_NO_FILE ==> FirstNumber(name, old(fn[..11]), old(Table()), fn[..11])
      ensures res == FR_NO_FILE ==> fn[..11] == NumName.Numbered(old(fn[..11]), NumName.NumberOf(name, n))
    {
      hide Chain, NumName.NumberOf, Confined, Reach, Base, Volume.Valid, Volume.View, Volume.Table, Placed, Sects,
        Sound, Search, NumName.Numbered, Entries, Table, InFat, IsPow2, Grew, SameBut, Volume.Snap, AllWell, Scan;
      fs.Facts();
      SizeFacts();
      ghost var t, src, b := Table(), fn[..11], lfnbuf[..];
      var sn := fn[..];
      var lfn := long;
      fn[11] := 0;
      long := false;
      var k := 1;
      res := FR_OK;
      n := 1;
      while k < 100
        invariant Naming(name) && Base() && fn[11] == 0 && !long && 1 <= k <= 100 && res == FR_OK && n == k
        invariant Near() && fs.View() == old(fs.View()) && chain == old(chain) && fs.geo == old(fs.geo) && lfnbuf[..] == b
        invariant !fs.strayed && fs.log == old(fs.log) && fs.SameCount()
        invariant forall j :: 1 <= j < k ==> NumberTaken(name, src, t, j)
      {
        TableKept();
        res := TryNumber(sn, name, k);
        if res != FR_OK { break; }
        k := k + 1;
        n := k;
      }
      if res != FR_DISK_ERR {
        EntriesKept();
        Still();
      }
      if res == FR_OK || res == FR_NO_FILE { assert NumbersTaken(name, src, t) <==> k == 100; }
      if k == 100 { return FR_DENIED, 100; }
      if res != FR_NO_FILE { return; }
      fn[11] := sn[11];
      long := lfn;
    }

    /** Number of entries the object takes. */
    method EntriesNeeded(ghost name: seq<Word>) returns (ne: nat)
      requires Naming(name)
      ensures ne == Slots(name)
    {
      if fn[11] / 2 % 2 == 1 {
        ne := 0;
        NamedAt(lfnbuf[..], name, 0);
        while lfnbuf[ne] != 0
          invariant ne <= |name| && lfnbuf[ne] == NameChar(name, ne)
          decreases |name| - ne
        {
          ne := ne + 1;
          NamedAt(lfnbuf[..], name, ne);
        }
        ne := (ne + 25) / 13;
      } else {
        ne := 1;
      }
    }

    /** Write the object to the ne entries from first on; the object stands at the last of them. */
    method PutObject(ghost name: seq<Word>, first: nat, ne: nat) returns (res: FResult)
      requires Naming(name) && At(index) && index + 1 == first + ne
      requires ne == if fn[11] / 2 % 2 == 1 then Segments(|name|) + 1 else 1
      requires Base()
      modifies `index, `clust, `sect, `dir, `chain, fs.dev`sectors, fs.win, fs`wflag, fs`winsect, fs`log, fs`freeClust,
        fs`fsiFlag, fs`lastClust, fs`strayed
      ensures res == FR_OK || (res == FR_DISK_ERR && !fs.dev.reliable)
      ensures !fs.strayed && fs.log == old(fs.log) && fs.SameCount()
      ensures res == FR_OK ==>
        At(old(index)) && Base() && Confined() && fs.Table() == old(fs.Table()) && first + ne <= |old(Entries())|
      ensures res == FR_OK ==>
        Entries() == Overwrite(old(Entries()), first, Written(name, fn[11] / 2 % 2 == 1, fn[..]))
    {
      hide Base, Volume.Valid, Volume.View, Volume.Table, Placed, Sects, Sound, Entries, Overwrite, Parts, SfnEntry,
        Path, Grew, SameBut, Volume.Snap, AllWell;
      SizeFacts();
      PlacedBound(index);
      ghost var t := Entries();
      res := FR_OK;
      Still();
      if ne > 1 {
        res := PutParts(name, first, ne - 1);
      }
      if res == FR_OK {
        OverwriteSplit(t, first, if ne > 1 then Parts(name, ne - 1, SumOf(fn[..], 11)) else [], SfnEntry(fn[..]));
        ghost var p := Here();
        res := PutShort();
        if res == FR_OK { GrewTrans(old(Here()), p, Here()); }
      }
    }

    /** The searches that went before: the name as wanted, or its numbered short form, is not in the table t. */
    ghost predicate Unused(t: seq<Entry>)
      reads `long, lfnbuf, fn
    {
      fn.Length == 12 && lfnbuf.Length > 0 && fn[11] % 2 == 1 ==> Search(ShortQuery(), t, 0) == Missing
    }

    /** Number of entries the object takes. */
    function Slots(name: seq<Word>): nat
      reads fn
      requires fn.Length == 12
    {
      if fn[11] / 2 % 2 == 1 then Segments(|name|) + 1 else 1
    }

    /** A number is needed for the short name, and all of them are taken. */
    ghost predicate AllTaken(name: seq<Word>, t: seq<Entry>)
      reads fn
      requires fn.Length == 12
    {
      fn[11] % 2 == 1 && NumbersTaken(name, fn[..11], t)
    }

    /** The object was entered in the table r0, which may have grown: its entries are those from first to the current one. */
    ghost predicate EnteredAt(name: seq<Word>, r0: seq<Entry>, first: nat)
      reads `index, `clust, `sect, `dir, `chain, lfnbuf, fn, fs, fs.win, fs.dev
    {
      && Naming(name) && Base() && At(index) && first + Slots(name) == index + 1
      && EnteredIn(r0, Entries(), first, Written(name, fn[11] / 2 % 2 == 1, fn[..]))
    }

    /** Reserve entries and write the object to them. */
    method Enter(ghost name: seq<Word>) returns (res: FResult, ghost first: nat)
      requires Naming(name)
      requires Base()
      modifies `index, `clust, `sect, `dir, `chain, fs.dev`sectors, fs.win, fs`wflag, fs`winsect, fs`log, fs`freeClust,
        fs`fsiFlag, fs`lastClust, fs`strayed
      ensures res in {FR_OK, FR_DISK_ERR, FR_INT_ERR, FR_DENIED, FR_NO_FILE} && (res == FR_DISK_ERR ==> !fs.dev.reliable)
      ensures fs.dev.reliable || Static() ==> !fs.strayed
      ensures !fs.strayed ==> fs.LoggedWellFormed()
      ensures Sure(res) ==> Base() && Confined()
      ensures Sure(res) ==> Reason(res, Slots(name), old(fs.Table()), old(Table()))
      ensures Sure(res) && res != FR_OK ==> Padded(old(Entries()))
      ensures Sure(res) && res == FR_OK ==> EnteredAt(name, old(Entries()), first)
      ensures Sure(res) && |old(Entries())| <= 0x1_0000 ==> |Entries()| <= 0x1_0000
    {
      hide Top, InFat, Static, Volume.Sane, IsPow2, EndSector, Chain, Segments, Parts, Named, Base, Volume.Valid,
        Volume.View, Volume.Table, Placed, Sects, Sound, Entries, Table, Overwrite, Written, Trailing, NoRun, EmptyRows,
        EnteredIn, IsName, Grew, SameBut, Volume.Snap, AllWell, Reason, Full, HasOne;
      ghost var r := Written(name, fn[11] / 2 % 2 == 1, fn[..]);
      WrittenSize(name, fn[11] / 2 % 2 == 1, fn[..]);
      ghost var t0, f0, s0 := Entries(), fs.Table(), Table();
      var ne := EntriesNeeded(name);
      var f;
      res, f := Reserve(ne);
      first := f;
      if res != FR_OK || fs.strayed { return; }
      ghost var e1, p := Entries(), Here();
      SizeFacts();
      PlacedBound(index);
      ReasonNone(ne, f0, s0);
      res := PutObject(name, f, ne);
      if res == FR_OK {
        EnteredIntro(t0, e1, Entries(), first, r);
        GrewTrans(old(Here()), p, Here());
        ReasonAny(ne, f0, s0);
      }
    }

    /** No number is left for the short name, or else the outcome is that of the search for ne blank entries. */
    ghost predicate Judged(res: FResult, taken: bool, ne: nat, t0: Fat, e0: seq<Entry>, r0: seq<Entry>)
      reads `chain, fs, fs.win, fs.dev
    {
      Base() && if taken then res == FR_DENIED && Entries() == r0 else Reason(res, ne, t0, e0)
    }

    /**
     * dir_register: enter the object. The entries it is written to were blank, behind an occupied one or at
     * the start of the table, and no other entry changes; the table may have grown by zero entries.
     */
    method Register(ghost name: seq<Word>) returns (res: FResult, ghost first: nat)
      requires Naming(name) && long
      requires Base()
      modifies fn, `long, `index, `clust, `sect, `dir, `lfnIdx, `chain, fs.dev`sectors, fs.win, fs`wflag, fs`winsect,
        fs`log, fs`freeClust, fs`fsiFlag, fs`lastClust, fs`strayed
      ensures res in {FR_OK, FR_DISK_ERR, FR_INT_ERR, FR_DENIED, FR_NO_FILE} && (res == FR_DISK_ERR ==> !fs.dev.reliable)
      ensures fs.dev.reliable || Static() ==> !fs.strayed
      ensures !fs.strayed ==> fs.LoggedWellFormed()
      ensures Sure(res) && res == FR_OK ==>
        long && fn[11] == old(fn[11]) && (fn[11] % 2 == 0 ==> fn[..] == old(fn[..]))
      ensures Sure(res) && res == FR_OK ==> Unused(old(Table()))
      ensures Sure(res) && res == FR_OK && fn[11] % 2 == 1 ==>
        FirstNumber(name, old(fn[..11]), old(Table()), fn[..11])
      ensures Sure(res) ==> Base() && Confined()
      ensures Sure(res) && res == FR_OK ==> EnteredAt(name, old(Entries()), first)
      // the reasons for failing
      ensures Sure(res) ==>
        Judged(res, old(AllTaken(name, Table())), old(Slots(name)), old(fs.Table()), old(Table()), old(Entries()))
      ensures Sure(res) && res != FR_OK ==> Padded(old(Entries()))
      ensures Sure(res) && |old(Entries())| <= 0x1_0000 ==> |Entries()| <= 0x1_0000
    {
      hide IsPow2, EndSector, Base, Volume.Valid, Volume.View, Volume.Table, Placed, Sects, Sound, Search, Entries,
        Table, Overwrite, Written, Trailing, NoRun, EmptyRows, EnteredIn, Grew, SameBut, Volume.Snap, AllWell, Reason,
        NumberTaken, FirstNumber, NumbersTaken, NumName.Numbered;
      first := 0;
      AllWellSelf(fs.log);
      Still();
      ghost var p := Here();
      if fn[11] % 2 == 1 {
        ghost var n;
        ghost var t := Table();
        res, n := FindNumber(name);
        if res != FR_DISK_ERR {
          fs.SameTable();
          TableKept();
          PadNone(old(Entries()));
          assert Padded(old(Entries()));
          p := Here();
        }
        if res != FR_NO_FILE { return; }
        TakenIs(name, old(fn[..11]), t, n);
      }
      res, first := Enter(name);
      if Sure(res) { GrewTrans(old(Here()), p, Here()); }
    }

    lemma TakenIs(name: seq<Word>, src: seq<Byte>, t: seq<Entry>, n: nat)
      requires fn.Length == 12 && lfnbuf.Length > 0 && |src| == 11 && n < 0x1_0000
      requires fn[..11] == NumName.Numbered(src, NumName.NumberOf(name, n))
      ensures NumberTaken(name, src, t, n) <==> Search(ShortQuery(), t, 0) != Missing
    {
      hide Search, Occupied;
      ShortOccupied(ShortQuery(), t, 0);
    }

    // ----- the operations together -----

    /** The directory is a list of items; an index can reach all its entries. */
    ghost predicate Holds(items: seq<Item>)
      reads `chain, fs, fs.win, fs.dev
    {
      Base() && AllOk(items) && Settled(items) && Entries() == Flat(items) && |Entries()| <= 0x1_0000
    }

    lemma WholeTable()
      requires Base()
      ensures |Entries()| <= 0x1_0000 ==> Table() == Entries()
    {
      hide Base, Entries;
      SizeFacts();
    }

    /** The name is searched under the status in which it was entered, so its search is a proper one. */
    lemma ProperWanted(name: seq<Word>)
      requires Naming(name)
      ensures Proper(Wanted(), name) && Wanted().long == long && Wanted().loss == (fn[11] % 2 == 1)
      ensures Wanted().short == fn[..11] && |Wanted().b| == lfnbuf.Length
    {
    }

    /** The search in t for a name just entered answers again, and stands at its entry if it found it. */
    ghost predicate Refound(name: seq<Word>, again: FResult, t: seq<Entry>)
      reads `index, `lfnIdx, fn
      requires fn.Length == 12 && 0 < lfnbuf.Length
    {
      var byLong := fn[11] / 2 % 2 == 1 && FindFits(lfnbuf.Length - 1, |name|);
      && again == (if byLong || fn[11] % 2 == 0 then FR_OK else FR_NO_FILE)
      && (again == FR_OK ==> index < |t| && t[index] == SfnEntry(fn[..]))
      && (again == FR_OK ==> lfnIdx == if byLong then index - Segments(|name|) else 0xFFFF)
    }

    /** c tells how this volume searches, and how the searched name goes with its short form. */
    ghost predicate Knows(c: Habit, name: seq<Word>)
      reads `long, lfnbuf, fn
      requires fn.Length == 12
    {
      Fair(c) && c.up == up && c.max + 1 == lfnbuf.Length && Coherent(c.alias, Wanted(), name)
    }

    lemma KnowsAsks(c: Habit, name: seq<Word>)
      requires Naming(name) && Knows(c, name)
      ensures Fair(c) && Asks(c, Wanted(), name)
    {
      ProperWanted(name);
    }

    /** The first entry of the object that ends at the current one. */
    function FirstOf(name: seq<Word>): nat
      reads `index, fn
      requires fn.Length == 12
    {
      if index + 1 >= Slots(name) then index + 1 - Slots(name) else 0
    }

    /** What the search for the name just entered answers, and the entry it is in. */
    ghost predicate EnteredAs(name: seq<Word>, r: DirTable.Result, t: seq<Entry>)
      reads `index, lfnbuf, fn
      requires fn.Length == 12 && 0 < lfnbuf.Length
    {
      var byLong := fn[11] / 2 % 2 == 1 && FindFits(lfnbuf.Length - 1, |name|);
      && Slots(name) <= index + 1 <= |t| && t[index] == SfnEntry(fn[..])
      && r == (if byLong || fn[11] % 2 == 0 then Found(index, if byLong then FirstOf(name) else 0xFFFF) else Missing)
    }

    /** The new object in terms of items; q and t are the search and the table from before. */
    lemma RegisterMeans(q: Query, name: seq<Word>, items: seq<Item>, first: nat, c: Habit) returns (items': seq<Item>)
      requires Naming(name) && long && (fn[11] % 2 == 1 ==> fn[11] / 2 % 2 == 1) && first + Slots(name) == index + 1
      requires Proper(q, name) && q.loss == (fn[11] % 2 == 1) && Wanted() == (if q.loss then q.(short := fn[..11]) else q)
      requires AllOk(items) && Settled(items) && Locate(q, name, items, 0) == Missing
      requires Unused(Flat(items))
      requires Base()
      requires EnteredIn(Flat(items), Entries(), first, Written(name, fn[11] / 2 % 2 == 1, fn[..]))
      ensures AllOk(items') && Settled(items') && Entries() == Flat(items')
      ensures Fair(c) && Asks(c, q, name) && Neat(c, items) ==>
        && Neat(c, items')
        && Turned(c, Flat(items), Entries(), Add(NewItem(name, fn[11] / 2 % 2 == 1, fn[..]), first, index))
      ensures EnteredAs(name, Search(Wanted(), Entries(), lfnIdx), Entries())
    {
      hide Base, Sects, Entries, Search, Flat, Locate, Settled, SfnEntry, LfnEntry, Overwrite, EnteredIn, Written,
        NewItem, Neat, Asks, Fair, Turned, AllOk, IsName, Newcomer;
      var withLfn := fn[11] / 2 % 2 == 1;
      var it := NewItem(name, withLfn, fn[..]);
      ProperWanted(name);
      WrittenItem(name, withLfn, fn[..]);
      WrittenSize(name, withLfn, fn[..]);
      NewcomerIs(q, ShortQuery(), name, items, withLfn, fn[..]);
      items' := EnteredWhole(c, q, name, items, Entries(), first, it);
      NewSearch(q, Wanted(), name, items, Entries(), first, fn[..], lfnIdx);
    }

    /** The table was r0 before an object was entered in it, or grew at most. */
    ghost predicate Changed(r0: seq<Entry>, ch: Change)
      reads `chain, fs, fs.win, fs.dev
    {
      && Base() && (|r0| <= 0x1_0000 ==> |Entries()| <= 0x1_0000)
      && match ch
         case Add(it, first, at) => ItemOk(it) && EnteredIn(r0, Entries(), first, DirTable.Entries(it))
         case Drop(at) => false
         case None => Padded(r0)
    }

    /** A short name that needed a number got the first one that was not taken. */
    ghost predicate Numbering(name: seq<Word>, src: seq<Byte>, t: seq<Entry>)
      reads fn
    {
      fn.Length == 12 && |src| == 11 && fn[11] % 2 == 1 ==>
        FirstNumber(name, src, t, fn[..11])
    }

    /**
     * dir_register in a well-formed directory, for a name that is not in it. If the directory is neat it stays so, and
     * in the map of names to entries just the unbound names of the new object get bound.
     */
    method RegisterIn(ghost name: seq<Word>, ghost items: seq<Item>, ghost c: Habit, ghost fine: bool)
      returns (res: FResult, ghost items': seq<Item>, ghost ch: Change)
      requires Naming(name) && long
      requires Base()
      requires fine ==>
        (fn[11] % 2 == 1 ==> fn[11] / 2 % 2 == 1) && Holds(items) && Locate(Wanted(), name, items, 0) == Missing
      modifies fn, `long, `index, `clust, `sect, `dir, `lfnIdx, `chain, fs.dev`sectors, fs.win, fs`wflag, fs`winsect,
        fs`log, fs`freeClust, fs`fsiFlag, fs`lastClust, fs`strayed
      ensures res in {FR_OK, FR_DISK_ERR, FR_INT_ERR, FR_DENIED, FR_NO_FILE} && (res == FR_DISK_ERR ==> !fs.dev.reliable)
      ensures fs.dev.reliable || Static() ==> !fs.strayed
      ensures !fs.strayed ==> fs.LoggedWellFormed()
      ensures Sure(res) && res == FR_OK ==>
        Naming(name) && long && At(index) && fn[11] == old(fn[11]) && (fn[11] % 2 == 0 ==> fn[..] == old(fn[..]))
      ensures Sure(res) && res == FR_OK ==> Numbering(name, old(fn[..11]), old(Table()))
      ensures Sure(res) ==> Base() && Confined()
      ensures Sure(res) && fine ==> Holds(items')
      ensures Sure(res) ==> if res == FR_OK then ch == Added(name) else ch == None
      ensures Sure(res) ==> Changed(old(Entries()), ch)
      ensures Sure(res) && fine && old(Knows(c, name)) && Neat(c, items) ==>
        Neat(c, items') && Turned(c, old(Entries()), Entries(), ch)
      ensures Sure(res) && fine && res == FR_OK ==> EnteredAs(name, Search(Wanted(), Entries(), lfnIdx), Entries())
      // the reasons for failing
      ensures Sure(res) ==>
        Judged(res, old(AllTaken(name, Table())), old(Slots(name)), old(fs.Table()), old(Table()), old(Entries()))
    {
      hide Base, Volume.Valid, Volume.View, Volume.Table, Placed, Sects, Sound, Entries, Search, Flat, Locate,
        Settled, SfnEntry, LfnEntry, Overwrite, EnteredIn, Reason, FirstNumber, NumberTaken, AllTaken, Confined, AllWell, Neat,
        Turned, Fair, Asks, EmptyRows, NewItem, Written, IsName, Coherent;
      items', ch := items, None;
      ghost var q := Wanted();
      ghost var knows := Knows(c, name);
      WholeTable();
      ProperWanted(name);
      if knows { KnowsAsks(c, name); }
      ghost var first;
      res, first := Register(name);
      if !Sure(res) { return; }
      if res == FR_OK {
        ch := Added(name);
        WrittenItem(name, fn[11] / 2 % 2 == 1, fn[..]);
      }
      if fine {
        WholeTable();
        if res == FR_OK {
          items' := RegisterMeans(q, name, items, first, c);
        } else {
          ghost var m := |Entries()| - |Flat(items)|;
          PaddedWhole(c, items, m);
          items' := items + EndItems(m);
        }
      }
    }

    ghost function Added(name: seq<Word>): Change
      reads `index, fn
      requires fn.Length == 12
    {
      Add(NewItem(name, fn[11] / 2 % 2 == 1, fn[..]), FirstOf(name), index)
    }

    /**
     * A name that is not there, entered in a well-formed directory, is found where it was entered: by its long
     * name, or by its short name. The one exception is a name without a short form whose length is critical.
     */
    method RegisterAndFind(ghost name: seq<Word>, ghost items: seq<Item>, ghost c: Habit)
      returns (res: FResult, again: FResult, ghost items': seq<Item>, ghost ch: Change)
      requires Naming(name) && long && (fn[11] % 2 == 1 ==> fn[11] / 2 % 2 == 1)
      requires Base()
      requires Holds(items) && Locate(Wanted(), name, items, 0) == Missing
      modifies fn, `long, `index, `clust, `sect, `dir, `lfnIdx, `chain, fs.dev`sectors, fs.win, fs`wflag, fs`winsect,
        fs`log, fs`freeClust, fs`fsiFlag, fs`lastClust, fs`strayed
      ensures res in {FR_OK, FR_DISK_ERR, FR_INT_ERR, FR_DENIED, FR_NO_FILE}
      ensures res != FR_OK ==> again == FR_OK
      ensures res == FR_DISK_ERR || again == FR_DISK_ERR ==> !fs.dev.reliable
      ensures fs.dev.reliable || Static() ==> !fs.strayed
      ensures !fs.strayed ==> fs.LoggedWellFormed()
      ensures Sure(res) && res == FR_OK ==>
        Naming(name) && fn[11] == old(fn[11]) && (fn[11] % 2 == 0 ==> fn[..] == old(fn[..]))
      ensures Sure(res) && again != FR_DISK_ERR ==> Base() && Confined()
      ensures Sure(res) && again != FR_DISK_ERR ==> Holds(items') && Changed(old(Entries()), ch)
      ensures Sure(res) && res == FR_OK ==> Numbering(name, old(fn[..11]), old(Table()))
      // what becomes of the search for this name, and of all others
      ensures Sure(res) && res == FR_OK && again != FR_DISK_ERR ==> Refound(name, again, Entries())
      ensures Sure(res) && again != FR_DISK_ERR && old(Knows(c, name)) && Neat(c, items) ==>
        Neat(c, items') && Turned(c, old(Entries()), Entries(), ch)
      ensures Sure(res) ==>
        if res == FR_OK then ch.Add? && ch.it == NewItem(name, fn[11] / 2 % 2 == 1, fn[..]) else ch == None
      // the reasons for failing
      ensures Sure(res) && res != FR_OK ==>
        Judged(res, old(AllTaken(name, Table())), old(Slots(name)), old(fs.Table()), old(Table()), old(Entries()))
    {
      hide EnteredIn, EmptyRows, FirstNumber, Base, Volume.Valid, Volume.View, Volume.Table, Placed, Sects, Sound,
        Entries, Search, Flat, Settled, AllOk, SfnEntry, Reason, NumberTaken, AllTaken, AllWell, Neat, Turned, NewItem,
        IsName, Knows, Grew, SameBut, Volume.Snap;
      again := FR_OK;
      res, items', ch := RegisterIn(name, items, c, true);
      if res != FR_OK || fs.strayed { return; }
      WholeTable();
      ghost var p, log := Here(), fs.log;
      label Registered:
      again := Find();
      if again != FR_DISK_ERR {
        EntriesKept@Registered();
        GrewTrans(old(Here()), p, Here());
      }
    }

    /** Whether dir_remove takes the whole object that was found: not the long name if that was found by its short form. */
    predicate Whole(q: Query, name: seq<Word>, it: Item)
      requires |q.b| > 0
    {
      LongMatch(q, name, it) || it.Plain?
    }

    /**
     * dir_find and dir_remove in a well-formed directory. What was found by its long name, or has none, is gone, and
     * in a neat directory just the names of this object are unbound; otherwise its long-name entries stay behind.
     */
    method RemoveIn(ghost name: seq<Word>, ghost items: seq<Item>, ghost c: Habit, ghost fine: bool)
      returns (res: FResult, ghost k: nat, ghost items': seq<Item>, ghost ch: Change)
      requires Naming(name) && long
      requires Base()
      requires fine ==> Holds(items)
      modifies `index, `clust, `sect, `dir, `lfnIdx, `chain, fs.dev`sectors, fs.win, fs`wflag, fs`winsect, fs`log,
        fs`freeClust, fs`fsiFlag, fs`lastClust, fs`strayed
      ensures res in {FR_OK, FR_DISK_ERR, FR_NO_FILE} && (res == FR_DISK_ERR ==> !fs.dev.reliable)
      ensures !fs.strayed && fs.log == old(fs.log) && fs.SameCount()
      ensures res != FR_DISK_ERR ==> Base() && Confined() && chain == old(chain)
      ensures if res == FR_OK then ch.Drop? && ch.at < 0x1_0000 else ch == None
      ensures res == FR_NO_FILE ==> Entries() == old(Entries()) && items' == items
      ensures res == FR_NO_FILE && fine ==> Locate(Wanted(), name, items, 0) == Missing
      ensures res == FR_OK && fine ==> var r := Locate(Wanted(), name, items, 0);
        FoundAs(Wanted(), name, items, k, r) && r.at == ch.at && Entries() == Marked(old(Entries()), r)
      ensures res == FR_OK && fine && Whole(Wanted(), name, items[k]) ==> Holds(items')
      ensures res == FR_OK && fine && Whole(Wanted(), name, items[k]) && Knows(c, name) && Neat(c, items) ==>
        Neat(c, items') && Turned(c, old(Entries()), Entries(), ch)
      ensures res == FR_OK && fine && !Whole(Wanted(), name, items[k]) ==>
        items[k].Long? && 0 < ch.at < |Entries()| && !IsBlank(Entries()[ch.at - 1])
    {
      hide Near, Chain, Reach, Base, Volume.Valid, Volume.View, Volume.Table, Placed, Sects, Sound, Entries, Search, Flat,
        Settled, AllOk, SfnEntry, AllWell, Neat, Turned, IsName, Knows, Grew, SameBut, Volume.Snap, Deleted, Matches,
        Locate, LongMatch, Fair, Asks, IsBlank;
      ghost var p0 := Here();
      k, items', ch := 0, items, None;
      ghost var q, idx := Wanted(), lfnIdx;
      ProperWanted(name);
      if fine {
        WholeTable();
        FindsFirst(q, name, items, idx);
      }
      FoundOrder(q, Table(), idx);
      res := Find();
      if res != FR_DISK_ERR { EntriesKept(); }
      if res != FR_OK { return; }
      if fine {
        if Knows(c, name) { KnowsAsks(c, name); }
        k, items' := RemovedWhole(c, q, name, items, idx);
      }
      ghost var p := Here();
      ghost var at := index;
      res := Remove();
      if res != FR_OK { return; }
      ch := Drop(at);
      GrewTrans(p0, p, Here());
      SizeFacts();
    }

    /** With the search repeated: what was removed as a whole from a neat directory is not found any more. */
    method RemoveAndFind(ghost name: seq<Word>, ghost items: seq<Item>, ghost c: Habit)
      returns (res: FResult, again: FResult, ghost k: nat, ghost items': seq<Item>, ghost ch: Change)
      requires Naming(name) && long
      requires Base()
      requires Holds(items)
      modifies `index, `clust, `sect, `dir, `lfnIdx, `chain, fs.dev`sectors, fs.win, fs`wflag, fs`winsect, fs`log,
        fs`freeClust, fs`fsiFlag, fs`lastClust, fs`strayed
      ensures res in {FR_OK, FR_DISK_ERR, FR_NO_FILE} && (res != FR_OK ==> again == FR_OK)
      ensures res == FR_DISK_ERR || again == FR_DISK_ERR ==> !fs.dev.reliable
      ensures !fs.strayed && fs.log == old(fs.log)
      ensures res != FR_DISK_ERR && again != FR_DISK_ERR ==> Base() && Confined() && chain == old(chain)
      ensures res == FR_NO_FILE ==> Locate(Wanted(), name, items, 0) == Missing && items' == items && ch == None
      ensures res == FR_OK ==> k < |items| && Matches(Wanted(), name, items[k]) && ch.Drop?
      ensures res == FR_OK && again != FR_DISK_ERR && Whole(Wanted(), name, items[k]) ==> Holds(items')
      ensures res == FR_OK && again != FR_DISK_ERR && Whole(Wanted(), name, items[k]) && Knows(c, name) && Neat(c, items) ==>
        again == FR_NO_FILE && Neat(c, items') && Turned(c, old(Entries()), Entries(), ch)
    {
      hide Base, Volume.Valid, Volume.View, Volume.Table, Placed, Sects, Sound, Entries, Search, Flat, Settled, AllOk,
        SfnEntry, AllWell, Neat, Turned, IsName, Knows, Grew, SameBut, Volume.Snap, Matches, Locate, LongMatch,
        Fair, Asks, IsBlank;
      again := FR_OK;
      ghost var t := Entries();
      ProperWanted(name);
      FindsFirst(Wanted(), name, items, lfnIdx);
      res, k, items', ch := RemoveIn(name, items, c, true);
      if res != FR_OK { return; }
      ghost var idx, p := lfnIdx, Here();
      SizeFacts();
      WholeTable();
      label Gone:
      again := Find();
      if again != FR_DISK_ERR {
        EntriesKept@Gone();
        GrewTrans(old(Here()), p, Here());
        if Whole(Wanted(), name, items[k]) && Knows(c, name) && Neat(c, items) {
          KnowsAsks(c, name);
          TurnedOne(c, t, Entries(), ch, Wanted(), name, old(lfnIdx), idx);
        }
      }
    }
  }
}
