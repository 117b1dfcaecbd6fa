// Open files: f_read, f_write, f_lseek and f_sync on a cluster chain, with a private sector buffer.
module FileObject {
  import opened Words
  import opened Layout
  import opened Clusters
  import opened FileImage
  import opened FileSystem
  import FatTable
  import DirEntry
  import LinkMap
  import Disk

  class File {
    const fs: Volume
    const id: nat
    const buf: array<Byte>
    const dirSect: nat        // sector and offset of the directory entry
    const dirPtr: nat
    const canRead: bool       // flag: FA_READ, FA_WRITE, FA__WRITTEN, FA__DIRTY, FA__ERROR
    const canWrite: bool
    var written: bool
    var dirty: bool
    var error: bool
    var fptr: nat
    var fsize: nat
    var sclust: nat
    var clust: nat
    var dsect: nat
    var cltbl: array?<nat>    // link map table, null in normal seek mode

    ghost const dirClust: Dword   // cluster holding the directory entry, when it is not in a static root
    ghost var chain: seq<nat>     // the clusters of the file
    ghost var pos: nat            // number of the buffered sector
    ghost var built: bool         // the link map table has been filled in
    ghost var mapped: nat         // number of clusters it describes
    ghost var data: seq<Byte>     // the contents of the file

    /** The tail of f_open: a fresh object over an existing chain, at position 0, in normal seek mode. */
    constructor (v: Volume, sect: nat, ptr: nat, ghost dc: Dword, read: bool, write: bool, start: nat, size: Dword,
        ghost clusters: seq<nat>, ghost contents: seq<Byte>)
      requires v.Valid() && !v.strayed && WellFormed(v.Table())
      requires if start == 0 then clusters == [] else Chain(v.Table(), clusters) && clusters[0] == start
      requires FatEnd(v.geo) <= sect < |v.dev.sectors| && ptr + 32 <= 512
      requires sect < v.geo.database ||
        (InBlock(v.geo, dc, sect) && dc < |v.Table()| && v.Table()[dc] != 0 && dc !in clusters)
      requires v.winsect !in Sectors(v.geo, clusters)
      requires |contents| == size && Holds(v.dev.sectors, Sectors(v.geo, clusters), contents)
      ensures Valid() && fresh(buf)
      ensures fs == v && id == v.id && dirSect == sect && dirPtr == ptr && canRead == read && canWrite == write
      ensures chain == clusters && data == contents && fptr == 0 && fsize == size && sclust == start
      ensures cltbl == null && !dirty && !written && !built
    {
      hide Volume.Valid, Volume.Table, Volume.View, Sectors, IsPow2, EndSector, Span, WellFormed, Chain, Holds,
        LinkMap.Describes, Clust2Sect;
      fs, id, dirSect, dirPtr, dirClust := v, v.id, sect, ptr, dc;
      buf := new Byte[512](_ => 0);
      canRead, canWrite, written, dirty, error := read, write, false, false, false;
      fptr, fsize, sclust, clust, dsect, cltbl := 0, size, start, 0, 0, null;
      chain, pos, built, mapped, data := clusters, 0, false, 0, contents;
      new;
      ChainFacts();
    }

    // ----- the representation -----

    /** The disk sectors of the file, in order. */
    ghost function Sects(): seq<nat>
      reads `chain, fs`geo
    {
      Sectors(fs.geo, chain)
    }

    ghost predicate OwnChain()
      reads `sclust, `chain, fs, fs.win, fs.dev
      requires fs.Valid()
    {
      if sclust == 0 then chain == [] else Chain(fs.Table(), chain) && chain[0] == sclust
    }

    /** The directory entry lies in the root table or in a cluster of some other chain. */
    ghost predicate EntryApart()
      reads `chain, fs, fs.win, fs.dev
      requires fs.Valid()
    {
      FatEnd(fs.geo) <= dirSect < |fs.dev.sectors| && dirPtr + 32 <= 512 && EntryOwned(fs.geo, fs.Table(), chain)
    }

    ghost predicate EntryOwned(g: Geometry, t: Fat, ch: seq<nat>)
    {
      dirSect < g.database || (InBlock(g, dirClust, dirSect) && dirClust < |t| && t[dirClust] != 0 && dirClust !in ch)
    }

    /** The link map table describes the chain, or nothing if the file was empty when it was built. */
    ghost predicate MapOk()
      reads `cltbl, `chain, `mapped, cltbl
      requires cltbl != null
    {
      && mapped <= |chain| && (mapped == |chain| || (mapped == 0 && |chain| == 1))
      && LinkMap.Describes(cltbl[..], 1, chain[..mapped])
    }

    /** Everything but the agreement of clust and dsect with a file position. */
    ghost predicate Base()
      reads `sclust, `chain, `dsect, `pos, `dirty, `data, `cltbl, `built, `mapped, buf, fs, fs.win, fs.dev, cltbl
      ensures Base() ==> buf.Length == 512 && buf != fs.win && fs.Valid() && !fs.strayed
    {
      && buf.Length == 512 && buf != fs.win
      && fs.Valid() && !fs.strayed && WellFormed(fs.Table())
      && OwnChain() && EntryApart()
      && fs.winsect !in Sects()
      && OnDisk(fs.dev.sectors, Sects(), dsect, pos, buf[..], dirty, data)
      && (cltbl != null ==> cltbl as object != fs.win && cltbl as object != buf && (built ==> MapOk()))
    }

    /** clust and dsect are as the transfer loops need them at file position p. */
    ghost predicate Positioned(p: nat)
      reads `clust, `chain, `dsect, fs`geo
    {
      && fs.geo.csize > 0
      && (p > 0 ==>
           var c := ClusterIndex(fs.geo, (p - 1) / 512);
           c < |chain| && clust == chain[c])
      && (p % 512 != 0 ==> p / 512 < |Sects()| && dsect == Sects()[p / 512])
    }

    /** No link map table is attached, or the attached one has been filled in. */
    ghost predicate Searchable()
      reads `cltbl, `built
    {
      cltbl != null ==> built
    }

    ghost predicate ReadyAt(p: nat)
      reads `clust, `chain, `dsect, `cltbl, `built, fs`geo
    {
      Positioned(p) && Searchable()
    }

    /** Size, position and flags of a file without a recorded error. */
    ghost predicate Sized()
      reads `data, `fsize, `fptr, `dirty, `written, `error
    {
      |data| == fsize < 0x1_0000_0000 && fptr <= fsize && (dirty ==> written) && !error
    }

    /** An open file; a link map table may be attached that is not filled in yet. */
    ghost predicate Open()
      reads this, buf, fs, fs.win, fs.dev, cltbl
    {
      Base() && Positioned(fptr) && Sized()
    }

    /** An open file that can be transferred and moved in. */
    ghost predicate Valid()
      reads this, buf, fs, fs.win, fs.dev, cltbl
    {
      Base() && ReadyAt(fptr) && Sized()
    }

    /** The clusters of the file are clusters, all different; its sectors are data sectors, all different. */
    lemma ChainFacts()
      requires buf.Length == 512 && fs.Valid() && WellFormed(fs.Table()) && OwnChain()
      ensures AllClusters(fs.geo, chain) && Distinct(chain)
      ensures Distinct(Sects()) && Within(Sects(), |fs.dev.sectors|)
      ensures forall k :: 0 <= k < |Sects()| ==> fs.geo.database <= Sects()[k]
      ensures fs.geo.csize > 0 && IsPow2(fs.geo.csize) && fs.geo.csize <= 128
    {
      hide Volume.Valid, Sectors, IsPow2, EndSector, Span;
      fs.Facts();
      PathsDistinct(fs.Table(), chain);
      SectorsDistinct(fs.geo, chain, |fs.dev.sectors|);
      forall k | 0 <= k < |Sects()|
        ensures fs.geo.database <= Sects()[k] < |fs.dev.sectors|
      {
        SectorInBlock(fs.geo, chain, k, |fs.dev.sectors|);
      }
    }

    lemma DataFits()
      requires Base()
      ensures |data| <= 512 * |Sects()|
    {
      hide Volume.Valid, Sectors, WellFormed, Chain, LinkMap.Describes;
    }

    /** What the transfers need to know of the representation. */
    lemma BaseFacts()
      requires Base()
      ensures buf.Length == 512 && buf != fs.win && fs.Valid() && !fs.strayed
      ensures OnDisk(fs.dev.sectors, Sects(), dsect, pos, buf[..], dirty, data)
      ensures Within(Sects(), |fs.dev.sectors|) && Distinct(Sects())
      ensures Holds(Image(fs.dev.sectors, dsect, buf[..]), Sects(), data)
      ensures forall k :: 0 <= k < |Sects()| ==>
        fs.geo.database <= Sects()[k] < |fs.dev.sectors| && Sects()[k] != fs.winsect
      ensures dsect < |fs.dev.sectors| < 0x1_0000_0000 && 0 < fs.geo.database
      ensures Distinct(chain) && (chain == [] || Chain(fs.Table(), chain))
      ensures AllClusters(fs.geo, chain) && 3 <= fs.geo.nFatent < 0x1000_0000
    {
      hide Volume.Valid, Volume.Table, Volume.View, Sectors, WellFormed, Chain, LinkMap.Describes, Holds, Image;
      fs.Facts();
      ChainFacts();
    }

    lemma BaseChain()
      requires Base()
      ensures fs.Valid() && Distinct(chain) && (chain == [] || Chain(fs.Table(), chain))
    {
      hide Base, Volume.Valid, Volume.Table, Sectors, Chain, Distinct;
      BaseFacts();
    }

    lemma BaseParts()
      requires Base()
      ensures fs.Valid() && OwnChain() && EntryApart() && WellFormed(fs.Table())
    {
      hide Volume.Valid, Volume.Table, Sectors, WellFormed, Chain, LinkMap.Describes, OnDisk;
    }

    lemma BaseWell()
      requires Base()
      ensures WellFormed(fs.Table()) && |fs.Table()| == fs.geo.nFatent <= FatTable.EndMark(fs.geo.fsType)
    {
      hide Volume.Valid, Volume.Table, Sectors, WellFormed, Chain, LinkMap.Describes, OnDisk;
      fs.Facts();
    }

    /** An operation of the volume that left the FAT alone left the file alone. */
    twostate lemma VolumeKept()
      requires old(Base()) && fs.Valid() && !fs.strayed && fs.Framed() && fs.Table() == old(fs.Table())
      requires fs.winsect == old(fs.winsect) || fs.winsect < fs.geo.database || fs.winsect !in Sects()
      requires unchanged(this) && unchanged(buf) && (cltbl != null ==> unchanged(cltbl)) && fs.geo == old(fs.geo)
      ensures Base()
    {
      hide Volume.Valid, Volume.Table, Volume.View, Sectors, IsPow2, EndSector, Span, WellFormed, Chain, Holds,
        LinkMap.Describes;
      ChainFacts();
      assert buf[..] == old(buf[..]) && Sects() == old(Sects());
      KeepImage(old(fs.dev.sectors), fs.dev.sectors, Sects(), dsect, pos, buf[..], dirty, data);
    }

    function Validate(): FResult
      reads fs`mounted, fs`id, fs.dev`ready
    {
      if !fs.mounted || fs.id != id then FR_INVALID_OBJECT
      else if !fs.dev.ready then FR_NOT_READY
      else FR_OK
    }

    /** A refused call changes nothing. */
    twostate predicate Untouched()
      reads this, buf, fs, fs.win, fs.dev, cltbl
    {
      && unchanged(this) && unchanged(buf) && unchanged(fs) && unchanged(fs.win) && unchanged(fs.dev)
      && (cltbl != null ==> unchanged(cltbl))
    }

    /** The checks at the entry of f_read and f_write, for the access mode asked for. */
    function Refusal(aborted: bool, allowed: bool): FResult
      reads fs`mounted, fs`id, fs.dev`ready
    {
      if Validate() != FR_OK then Validate()
      else if aborted then FR_INT_ERR
      else if !allowed then FR_DENIED
      else FR_OK
    }

    /** The checks in order: the object belongs to a mounted volume, the drive is ready, no error before, access allowed. */
    lemma RefusalOrder(aborted: bool, allowed: bool)
      ensures !fs.mounted || fs.id != id ==> Refusal(aborted, allowed) == FR_INVALID_OBJECT
      ensures fs.mounted && fs.id == id && !fs.dev.ready ==> Refusal(aborted, allowed) == FR_NOT_READY
      ensures fs.mounted && fs.id == id && fs.dev.ready ==>
        Refusal(aborted, allowed) == if aborted then FR_INT_ERR else if !allowed then FR_DENIED else FR_OK
    {
    }

    /** In the view, only the FAT and the file's own sectors changed; the count of free clusters is as right as before. */
    twostate predicate Confined()
      reads `chain, fs, fs.win, fs.dev
    {
      && |fs.dev.sectors| == |old(fs.dev.sectors)| && fs.geo == old(fs.geo)
      && (fs.winsect == old(fs.winsect) || fs.winsect < fs.geo.database)
      && SameBut(old(fs.Snap()), fs.Snap(), Sects())
      && (chain == old(chain) && !old(fs.wflag) ==> !fs.wflag)
    }

    /** Two steps of growth make one: the tables, the chains and the pictures of the volume before, between and after. */
    static lemma GrownOn(g: Geometry, t0: Fat, c0: seq<nat>, a: Shot, t1: Fat, c1: seq<nat>, b: Shot, t2: Fat, c2: seq<nat>,
        c: Shot)
      requires Extends(t0, c0, t1, c1) && Extends(t1, c1, t2, c2) && Distinct(c2)
      requires SameBut(a, b, Sectors(g, c1)) && SameBut(b, c, Sectors(g, c2))
      ensures c0 <= c1 <= c2 && Extends(t0, c0, t2, c2) && SameBut(a, c, Sectors(g, c2))
    {
      hide SameBut, Sectors;
      ExtendsTrans(t0, c0, t1, c1, t2, c2);
      SectorsPrefix(g, c1, c2);
      SameButTrans(a, b, c, Sectors(g, c1), Sectors(g, c2));
    }

    // ----- the sector buffer -----

    /** Write the buffer back if it is dirty. */
    method Flush() returns (ok: bool)
      requires Base()
      modifies `dirty, fs.dev`sectors
      ensures fs.dev.reliable ==> ok
      ensures |fs.dev.sectors| == |old(fs.dev.sectors)|
      ensures ok ==> Base() && Confined() && !dirty && fs.Table() == old(fs.Table())
      ensures dirty ==> old(dirty)
      ensures forall s :: 0 <= s < |fs.dev.sectors| && s !in Sects() ==> fs.dev.sectors[s] == old(fs.dev.sectors)[s]
    {
      hide Volume.Valid, Volume.Table, Volume.View, Sectors, IsPow2, EndSector, Span, WellFormed, Chain, Holds,
        Distinct, Image, LinkMap.Describes, Clust2Sect, SameBut, Volume.Snap;
      ChainFacts();
      fs.SnapSelf(Sects());
      ghost var d := fs.dev.sectors;
      if dirty {
        FlushBuffer(d, Sects(), dsect, pos, buf[..], data);
        ok := fs.dev.Write(buf, dsect);
        if !ok { return; }
        fs.SnapWritten(Sects());
        dirty := false;
      }
      return true;
    }

    /** Make the buffer hold sector k of the file, whose disk address is sect. */
    method LoadSector(ghost k: nat, sect: nat) returns (ok: bool)
      requires Base() && k < |Sects()| && sect == Sects()[k]
      modifies `dirty, `dsect, `pos, buf, fs.dev`sectors
      ensures fs.dev.reliable ==> ok
      ensures |fs.dev.sectors| == |old(fs.dev.sectors)|
      ensures ok ==> Base() && Confined() && dsect == sect && pos == k && fs.Table() == old(fs.Table())
      ensures dirty ==> old(dirty)
      ensures forall s :: 0 <= s < |fs.dev.sectors| && s !in Sects() ==> fs.dev.sectors[s] == old(fs.dev.sectors)[s]
    {
      hide Volume.Valid, Volume.Table, Volume.View, Sectors, IsPow2, EndSector, Span, WellFormed, Chain, Holds,
        Image, LinkMap.Describes, Clust2Sect, SameBut, Volume.Snap;
      ChainFacts();
      fs.SnapSelf(Sects());
      if dsect != sect {
        ok := Flush();
        if !ok { return; }
        LoadBuffer(fs.dev.sectors, Sects(), dsect, pos, buf[..], data, k);
        ok := fs.dev.Read(buf, sect);
        if !ok { return; }
      }
      dsect := sect;
      pos := k;
      return true;
    }

    // ----- cluster steps -----

    /** Look up the cluster that holds offset ofs in the link map table; 0 when it is not mapped. */
    method ClmtClust(ofs: nat) returns (cl: nat)
      requires cltbl != null && mapped <= |chain| && fs.geo.csize > 0
      requires LinkMap.Describes(cltbl[..], 1, chain[..mapped])
      ensures cl == LinkMap.Mapped(chain[..mapped], ClusterIndex(fs.geo, ofs / 512))
    {
      hide LinkMap.Describes;
      var t := 1;
      cl := ofs / 512 / fs.geo.csize;
      ghost var rest, order := chain[..mapped], cl;
      while true
        invariant LinkMap.Describes(cltbl[..], t, rest)
        invariant LinkMap.Mapped(rest, cl) == LinkMap.Mapped(chain[..mapped], order)
        decreases |rest|
      {
        LinkMap.FirstPair(cltbl[..], t, rest);
        var ncl := cltbl[t];
        t := t + 1;
        if ncl == 0 { return 0; }
        if cl < ncl { return cl + cltbl[t]; }
        cl := cl - ncl;
        t := t + 1;
        rest := rest[ncl..];
      }
    }

    /** The sectors of the file lie behind the reserved ones. */
    lemma SectsHigh()
      requires Base()
      ensures forall s :: s in Sects() ==> fs.geo.fatbase <= s
    {
      hide Volume.Valid, Volume.Table, Sectors, WellFormed, OnDisk, LinkMap.Describes, IsPow2, EndSector, Base;
      fs.Facts();
      BaseFacts();
    }

    /** The successor of the current cluster, from the FAT. */
    method FollowFat(ghost c: nat) returns (clst: nat)
      requires Base() && c + 1 < |chain| && clust == chain[c]
      modifies fs.dev`sectors, fs.win, fs`wflag, fs`winsect
      ensures fs.dev.reliable ==> clst != DISK_ERROR
      ensures clst != DISK_ERROR ==> Base() && fs.Table() == old(fs.Table()) && clst == chain[c + 1]
      ensures clst != DISK_ERROR ==> Confined()
      ensures fs.Framed()
    {
      hide Volume.Valid, Volume.View, Sectors, Sound, WellFormed, OnDisk, LinkMap.Describes, InFat, SameBut,
        Volume.Snap;
      fs.Facts();
      assert IsCluster(fs.Table(), chain[c]);
      clst := fs.GetFat(clust);
      if clst != DISK_ERROR { VolumeKept(); SectsHigh(); fs.SnapData(Sects()); }
    }

    /** At a cluster boundary inside the data: make clust the cluster of position fptr. */
    method ReadCluster() returns (res: FResult)
      requires Base() && ReadyAt(fptr) && fptr < |data|
      requires fptr % 512 == 0 && SectorInCluster(fs.geo, fptr / 512) == 0
      modifies `clust, fs.dev`sectors, fs.win, fs`wflag, fs`winsect
      ensures res == FR_OK || (res == FR_DISK_ERR && !fs.dev.reliable)
      ensures res == FR_OK ==> Base() && fs.Table() == old(fs.Table())
      ensures res == FR_OK ==> Confined()
      ensures res == FR_OK ==> var c := ClusterIndex(fs.geo, fptr / 512); c < |chain| && clust == chain[c]
      ensures fs.Framed()
    {
      hide Volume.Valid, Volume.Table, Volume.View, Sectors, WellFormed, OnDisk, LinkMap.Describes,
        InBlock, SectorInCluster, ClusterIndex, SameBut, Volume.Snap;
      DataFits();
      fs.SnapSelf(Sects());
      BoundaryFacts(fptr);
      ghost var c := ClusterIndex(fs.geo, fptr / 512);
      var clst;
      if fptr == 0 {
        clst := sclust;
      } else if cltbl != null {
        clst := ClmtClust(fptr);
      } else {
        clst := FollowFat(c - 1);
        if clst == DISK_ERROR { return FR_DISK_ERR; }
      }
      clust := clst;
      return FR_OK;
    }

    /** A cluster boundary at p lies directly behind the cluster of p - 1. */
    lemma BoundaryFacts(p: nat)
      requires fs.geo.csize > 0
      requires p % 512 == 0 && SectorInCluster(fs.geo, p / 512) == 0
      ensures p == 0 ==> ClusterIndex(fs.geo, 0) == 0
      ensures p > 0 ==> ClusterIndex(fs.geo, p / 512) == ClusterIndex(fs.geo, (p - 1) / 512) + 1
      ensures p < 512 * |Sects()| ==> ClusterIndex(fs.geo, p / 512) < |chain|
      ensures p <= 512 * |Sects()| ==> ClusterIndex(fs.geo, p / 512) <= |chain|
    {
      hide Span, ClusterIndex, SectorInCluster, Sectors;
      SectorsLength(fs.geo, chain);
      PositionBelow(fs.geo, p / 512, |chain|);
      PositionUnique(fs.geo, 0, 0, 0) by { assert Span(fs.geo, 0) == 0 by { SpanZero(fs.geo); } }
      if p > 0 {
        assert (p - 1) / 512 == p / 512 - 1;
        PositionNext(fs.geo, p / 512 - 1);
        PositionBelow(fs.geo, p / 512 - 1, |chain|);
      }
    }

    // ----- f_read -----

    /** The run of sectors that can be transferred from sector k to the end of its cluster. */
    lemma RunFacts(k: nat)
      requires Base() && k < |Sects()|
      requires var c := ClusterIndex(fs.geo, k); c < |chain| && chain[c] == clust
      ensures clust < 0x1_0000_0000 && Clust2Sect(fs.geo, clust) != 0
      ensures SectorInCluster(fs.geo, k) < fs.geo.csize
      ensures Contiguous(Sects(), k, fs.geo.csize - SectorInCluster(fs.geo, k),
        Clust2Sect(fs.geo, clust) + SectorInCluster(fs.geo, k))
      ensures forall n :: k <= n < k + (fs.geo.csize - SectorInCluster(fs.geo, k)) ==>
        ClusterIndex(fs.geo, n) == ClusterIndex(fs.geo, k)
    {
      hide Volume.Valid, Volume.Table, Volume.View, Sectors, WellFormed, OnDisk, LinkMap.Describes,
        InBlock, SectorInCluster, ClusterIndex, Clust2Sect, Contiguous, IsPow2;
      fs.Facts();
      ChainFacts();
      Position(fs.geo, k);
      ClusterContiguous(fs.geo, chain, k);
      Clust2SectValue(fs.geo, clust, |fs.dev.sectors|);
    }

    /** Read cc whole sectors straight into buff, taking a dirty buffer into account. */
    method ReadDirect(buff: array<Byte>, off: nat, ghost k: nat, sect: nat, cc: nat) returns (ok: bool)
      requires Base() && buff != buf && buff != fs.win
      requires off + 512 * cc <= buff.Length
      requires Contiguous(Sects(), k, cc, sect) && cc > 0 && 512 * (k + cc) <= |data|
      modifies buff
      ensures fs.dev.reliable ==> ok
      ensures ok ==> Base() && fs.Table() == old(fs.Table())
      ensures ok ==> buff[off..off + 512 * cc] == data[512 * k..512 * (k + cc)]
      ensures forall j :: 0 <= j < buff.Length && !(off <= j < off + 512 * cc) ==> buff[j] == old(buff[j])
    {
      hide Base, Volume.Valid, Volume.Table, Sectors, Disk.RunBytes, Image, Distinct, Within, Contiguous, Holds, OnDisk;
      BaseFacts();
      RunInside(fs.dev.sectors, Sects(), k, cc, sect);
      ghost var d, b := fs.dev.sectors, buf[..];
      ok := fs.dev.ReadRun(buff, off, sect, cc);
      if !ok { return; }
      if dirty {
        PatchRead(buff, off, sect, cc);
      } else {
        CleanImage(d, Sects(), dsect, pos, b, data);
      }
      assert buf[..] == b;
      DirectRead(Image(d, dsect, b), Sects(), data, k, cc, sect);
    }

    /** The sector in a dirty buffer replaces the one just read from the drive. */
    method PatchRead(buff: array<Byte>, off: nat, sect: nat, cc: nat)
      requires buff != buf && buf.Length == 512 && off + 512 * cc <= buff.Length
      requires 0 < sect && sect + cc <= |fs.dev.sectors| < 0x1_0000_0000 && dsect < |fs.dev.sectors|
      requires buff[off..off + 512 * cc] == Disk.RunBytes(fs.dev.sectors, sect, cc)
      modifies buff
      ensures buff[off..off + 512 * cc] == Disk.RunBytes(Image(fs.dev.sectors, dsect, buf[..]), sect, cc)
      ensures forall j :: 0 <= j < buff.Length && !(off <= j < off + 512 * cc) ==> buff[j] == old(buff[j])
    {
      hide Disk.RunBytes, Image, Sub32;
      ghost var d, b := fs.dev.sectors, buf[..];
      SubLess(dsect, sect, cc);
      if Sub32(dsect, sect) < cc {
        PatchRun(d, sect, cc, dsect, b);
        SlicePatch(buff[..], off, cc * 512, (dsect - sect) * 512, b);
        CopyBuffer(buff, off + Sub32(dsect, sect) * 512);
      } else {
        NoPatch(d, sect, cc, dsect, b);
      }
    }

    /** mem_cpy of the whole buffer to offset o of buff. */
    method CopyBuffer(buff: array<Byte>, o: nat)
      requires buf.Length == 512 && buff != buf && o + 512 <= buff.Length
      modifies buff
      ensures buff[..] == old(buff[..])[..o] + buf[..] + old(buff[..])[o + 512..]
    {
      forall i | 0 <= i < 512 { buff[o + i] := buf[i]; }
    }

    /** The current cluster is the one of sector k. */
    ghost predicate InCluster(k: nat)
      reads `clust, `chain, `cltbl, `built, fs`geo
    {
      fs.geo.csize > 0 && Searchable() && ClusterIndex(fs.geo, k) < |chain| && clust == chain[ClusterIndex(fs.geo, k)]
    }

    /** The part of a round at a sector boundary: current sector, and number of whole sectors to transfer. */
    method ReadBoundary(btr: nat) returns (res: FResult, sect: nat, cc: nat)
      requires Base() && ReadyAt(fptr) && fptr % 512 == 0 && 0 < btr && fptr + btr <= |data|
      modifies `clust, fs.dev`sectors, fs.win, fs`wflag, fs`winsect
      ensures res == FR_OK || (res == FR_DISK_ERR && !fs.dev.reliable)
      ensures res == FR_OK ==> Base() && fs.Table() == old(fs.Table())
      ensures res == FR_OK ==> fptr / 512 < |Sects()| && sect == Sects()[fptr / 512] && 512 * cc <= btr
      ensures res == FR_OK && cc > 0 ==> Contiguous(Sects(), fptr / 512, cc, sect) && ReadyAt(fptr + 512 * cc)
      ensures res == FR_OK && cc == 0 ==> btr < 512 && InCluster(fptr / 512)
      ensures res == FR_OK ==> Confined()
    {
      hide IsPow2, EndSector, Sound, Base, Volume.Valid, Volume.Table, Sectors, OnDisk, Contiguous, Clust2Sect,
        ClusterIndex, SectorInCluster, Holds, Image, Distinct, SameBut, Volume.Snap;
      ghost var k := fptr / 512;
      sect, cc := 0, 0;
      BoundaryMask(k);
      DataFits();
      fs.SnapSelf(Sects());
      var csect := And(fptr / 512, fs.geo.csize - 1);
      if csect == 0 {
        res := ReadCluster();
        if res != FR_OK { return; }
      } else {
        SameCluster(k);
      }
      RunFacts(k);
      sect := Clust2Sect(fs.geo, clust);
      sect := sect + csect;
      cc := btr / 512;
      if cc > 0 {
        if csect + cc > fs.geo.csize { cc := fs.geo.csize - csect; }
        ContiguousFirst(Sects(), k, fs.geo.csize - csect, cc, sect);
        assert (fptr + 512 * cc - 1) / 512 == k + cc - 1;
      } else {
        ContiguousFirst(Sects(), k, fs.geo.csize - csect, 1, sect);
      }
      return FR_OK, sect, cc;
    }

    /** The mask picks the sector within the cluster. */
    lemma BoundaryMask(k: nat)
      requires Base()
      ensures fs.geo.csize > 0 && And(k, fs.geo.csize - 1) == SectorInCluster(fs.geo, k)
    {
      hide Volume.Valid, Volume.Table, Sectors, OnDisk;
      ChainFacts();
      AndMask(k, fs.geo.csize);
    }

    /** Off a cluster boundary, the cluster of the preceding byte is still the current one. */
    lemma SameCluster(k: nat)
      requires fs.geo.csize > 0 && SectorInCluster(fs.geo, k) != 0
      ensures k > 0 && (512 * k - 1) / 512 == k - 1 && ClusterIndex(fs.geo, k - 1) == ClusterIndex(fs.geo, k)
    {
      if k == 0 { SmallMod(0, fs.geo.csize); }
      assert k > 0;
      PositionNext(fs.geo, k - 1);
    }

    /** mem_cpy of rcnt bytes from the buffer, at the file position, to offset off of buff. */
    method CopyOut(buff: array<Byte>, off: nat, rcnt: nat)
      requires buf.Length == 512 && buff != buf && off + rcnt <= buff.Length && fptr % 512 + rcnt <= 512
      modifies buff
      ensures buff[off..off + rcnt] == buf[fptr % 512..fptr % 512 + rcnt]
      ensures forall j :: 0 <= j < buff.Length && !(off <= j < off + rcnt) ==> buff[j] == old(buff[j])
    {
      forall i | 0 <= i < rcnt { buff[off + i] := buf[fptr % 512 + i]; }
    }

    /** Transfer bytes of the current sector through the buffer. */
    method ReadPartial(buff: array<Byte>, off: nat, btr: nat) returns (rcnt: nat)
      requires Base() && buff != buf && buff != fs.win && 0 < btr && off + btr <= buff.Length && fptr + btr <= |data|
      requires InCluster(fptr / 512) && fptr / 512 < |Sects()| && dsect == Sects()[fptr / 512]
      modifies buff
      ensures Base() && 0 < rcnt <= btr && ReadyAt(fptr + rcnt)
      ensures buff[off..off + rcnt] == data[fptr..fptr + rcnt]
      ensures forall j :: 0 <= j < buff.Length && !(off <= j < off + rcnt) ==> buff[j] == old(buff[j])
    {
      hide IsPow2, EndSector, Sound, Base, Volume.Valid, Volume.Table, Sectors, OnDisk, ClusterIndex, Holds, Image,
        Distinct, Within, Agrees;
      ghost var k := fptr / 512;
      BaseFacts();
      BufferAgrees(fs.dev.sectors, Sects(), dsect, pos, buf[..], dirty, data, k);
      rcnt := 512 - fptr % 512;
      if rcnt > btr { rcnt := btr; }
      AgreesSlice(buf[..], data, k, fptr, rcnt);
      CopyOut(buff, off, rcnt);
      assert (fptr + rcnt - 1) / 512 == k;
    }

    /** Inside a sector, the buffer holds it. */
    lemma MidSector(p: nat)
      requires ReadyAt(p) && p % 512 != 0
      ensures InCluster(p / 512) && p / 512 < |Sects()| && dsect == Sects()[p / 512]
    {
      assert (p - 1) / 512 == p / 512;
    }

    /** One round of the transfer loop: rcnt bytes at the file position go to offset off of buff. */
    method ReadStep(buff: array<Byte>, off: nat, btr: nat) returns (res: FResult, rcnt: nat)
      requires Base() && ReadyAt(fptr)
      requires buff != buf && buff != fs.win && 0 < btr && off + btr <= buff.Length && fptr + btr <= |data|
      modifies `clust, `dirty, `dsect, `pos, buf, buff, fs.dev`sectors, fs.win, fs`wflag, fs`winsect
      ensures res == FR_OK || (res == FR_DISK_ERR && !fs.dev.reliable)
      ensures res == FR_OK ==> Base() && fs.Table() == old(fs.Table())
      ensures res == FR_OK ==> Confined() && 0 < rcnt <= btr && ReadyAt(fptr + rcnt)
      ensures dirty ==> old(dirty)
      ensures res == FR_OK ==> buff[off..off + rcnt] == data[fptr..fptr + rcnt]
      ensures forall j :: 0 <= j < buff.Length && !(off <= j < off + btr) ==> buff[j] == old(buff[j])
      ensures res == FR_OK ==> forall j :: 0 <= j < off ==> buff[j] == old(buff[j])
    {
      hide IsPow2, EndSector, Base, Volume.Valid, Volume.Table, Sectors, OnDisk, ClusterIndex, Holds, Image, Distinct,
        Within, Contiguous, ReadyAt, InCluster, SameBut, Volume.Snap;
      rcnt := 0;
      BaseFacts();
      fs.SnapSelf(Sects());
      if fptr % 512 == 0 {
        var sect, cc;
        res, sect, cc := ReadBoundary(btr);
        if res != FR_OK { return; }
        if cc > 0 {
          var ok := ReadDirect(buff, off, fptr / 512, sect, cc);
          if !ok { return FR_DISK_ERR, 0; }
          rcnt := 512 * cc;
          return FR_OK, rcnt;
        }
        ghost var shot := fs.Snap();
        var ok := LoadSector(fptr / 512, sect);
        if !ok { return FR_DISK_ERR, 0; }
        SameButTrans(old(fs.Snap()), shot, fs.Snap(), Sects(), Sects());
      } else {
        MidSector(fptr);
      }
      rcnt := ReadPartial(buff, off, btr);
      return FR_OK, rcnt;
    }

    /** The transfer loop of f_read: n bytes, all of them inside the data. */
    method ReadLoop(buff: array<Byte>, n: nat) returns (res: FResult, br: nat)
      requires Base() && ReadyAt(fptr) && buff != buf && buff != fs.win && n <= buff.Length && fptr + n <= |data|
      modifies `clust, `dirty, `dsect, `pos, `fptr, buf, buff, fs.dev`sectors, fs.win, fs`wflag, fs`winsect
      ensures res == FR_OK || (res == FR_DISK_ERR && !fs.dev.reliable)
      ensures res == FR_OK ==> Base() && ReadyAt(fptr) && fs.Table() == old(fs.Table()) && Confined()
      ensures res == FR_OK ==> br == n && fptr == old(fptr) + n && IsSlice(buff, n, data, old(fptr))
      ensures dirty ==> old(dirty)
      ensures forall j :: n <= j < buff.Length ==> buff[j] == old(buff[j])
    {
      hide IsPow2, EndSector, Base, Volume.Valid, Volume.Table, Sectors, OnDisk, ClusterIndex, Holds, Image, Distinct,
        Within, Contiguous, ReadyAt, InCluster, SameBut, Volume.Snap;
      br := 0;
      fs.SnapSelf(Sects());
      var left := n;
      ghost var p := fptr;
      while left > 0
        invariant Base() && ReadyAt(fptr) && fs.Table() == old(fs.Table()) && Confined()
        invariant fptr == p + br && br + left == n && (dirty ==> old(dirty))
        invariant IsSlice(buff, br, data, p)
        invariant forall j :: n <= j < buff.Length ==> buff[j] == old(buff[j])
      {
        var rcnt;
        ghost var b0, shot := buff[..br], fs.Snap();
        res, rcnt := ReadStep(buff, br, left);
        if res != FR_OK { return; }
        assert buff[..br] == b0;
        SameButTrans(old(fs.Snap()), shot, fs.Snap(), Sects(), Sects());
        JoinSlices(buff[..], br, rcnt, data, p);
        fptr := fptr + rcnt;
        br := br + rcnt;
        left := left - rcnt;
      }
      return FR_OK, br;
    }

    /** Read up to btr bytes at the file position into buff. */
    method Read(buff: array<Byte>, btr: nat) returns (res: FResult, br: nat)
      requires error || Valid()
      requires buff != buf && buff != fs.win && btr <= buff.Length
      modifies `clust, `dirty, `dsect, `pos, `fptr, `error, buf, buff, fs.dev`sectors, fs.win, fs`wflag, fs`winsect
      ensures Refusal(old(error), canRead) != FR_OK ==>
        res == Refusal(old(error), canRead) && br == 0 && Untouched() && unchanged(buff)
      ensures Refusal(old(error), canRead) == FR_OK ==> res == FR_OK || (res == FR_DISK_ERR && !fs.dev.reliable && error)
      // the bytes read are the contents of the file at the old position
      ensures res == FR_OK ==> br == if old(fptr) + btr <= fsize then btr else fsize - old(fptr)
      ensures res == FR_OK ==> fptr == old(fptr) + br && IsSlice(buff, br, data, old(fptr))
      ensures res == FR_OK ==> Valid() && fs.Table() == old(fs.Table()) && Confined()
      ensures forall j :: btr <= j < buff.Length ==> buff[j] == old(buff[j])
    {
      hide Base, Volume.Valid, Volume.Table, Sectors, OnDisk, ClusterIndex, Holds, Image, Distinct, Within, Contiguous,
        ReadyAt, InCluster, IsSlice, SameBut, Volume.Snap;
      br := 0;
      res := Validate();
      if res != FR_OK { return; }
      if error { return FR_INT_ERR, 0; }
      if !canRead { return FR_DENIED, 0; }
      var n := btr;
      var remain := fsize - fptr;
      if n > remain { n := remain; }
      res, br := ReadLoop(buff, n);
      if res != FR_OK { error := true; }
    }

    // ----- f_write -----

    /** The chain was extended by the free cluster ncl; t0, c0, d0 and w0 are from before. */
    lemma Grown(t0: Fat, c0: seq<nat>, d0: seq<Sector>, w0: nat, ncl: nat, mark: nat)
      requires buf.Length == 512 && buf != fs.win && fs.Valid() && !fs.strayed && fs.winsect < fs.geo.database
      requires cltbl != null ==> cltbl as object != fs.win && cltbl as object != buf
      requires WellFormed(t0) && (c0 == [] || Chain(t0, c0)) && w0 !in Sectors(fs.geo, c0)
      requires OnDisk(d0, Sectors(fs.geo, c0), dsect, pos, buf[..], dirty, data)
      requires FatEnd(fs.geo) <= dirSect < |fs.dev.sectors| && dirPtr + 32 <= 512 && EntryOwned(fs.geo, t0, c0)
      requires IsCluster(t0, ncl) && t0[ncl] == 0 && mark >= |t0| && TailOf(c0) < |t0|
      requires fs.Table() == Allocated(t0, TailOf(c0), ncl, mark)
      requires |fs.dev.sectors| == |d0|
      requires forall s :: fs.geo.database <= s < |d0| && s != w0 ==> fs.dev.sectors[s] == d0[s]
      requires chain == c0 + [ncl] && sclust == chain[0]
      requires cltbl != null && built ==> c0 == [] && mapped == 0 && LinkMap.Describes(cltbl[..], 1, [])
      ensures Base()
    {
      hide Volume.Valid, Volume.Table, Volume.View, Sectors, Sound, OnDisk, Distinct, Holds, LinkMap.Describes, InFat,
        WellFormed, ClusterSectors, Clust2Sect;
      if c0 == [] {
        AllocatedNew(t0, ncl, mark);
      } else {
        AllocatedChain(t0, c0, ncl, mark);
      }
      AllocatedWellFormed(t0, TailOf(c0), ncl, mark);
      assert OwnChain();
      ChainFacts();
      ghost var s0 := Sectors(fs.geo, c0);
      SectorsAppend(fs.geo, c0, ncl);
      assert forall k :: 0 <= k < |s0| ==> s0[k] == Sects()[k];
      KeepImage(d0, fs.dev.sectors, s0, dsect, pos, buf[..], dirty, data);
      GrowImage(fs.dev.sectors, s0, ClusterSectors(fs.geo, ncl), dsect, pos, buf[..], dirty, data);
      if cltbl != null && built { assert chain[..mapped] == []; }
    }

    /** create_chain, called on the cluster before position c of the chain, or on 0 when the file is empty. */
    method CallCreateChain(ghost c: nat) returns (ncl: nat)
      requires fs.Valid() && !fs.strayed && OwnChain() && WellFormed(fs.Table())
      requires c <= |chain| && (c == 0 ==> chain == []) && (c > 0 ==> clust == chain[c - 1])
      modifies fs.dev`sectors, fs.win, fs`wflag, fs`winsect, fs`log, fs`freeClust, fs`fsiFlag, fs`lastClust, fs`strayed
      ensures fs.Framed()
      ensures fs.dev.reliable ==> ncl != DISK_ERROR && !fs.strayed
      ensures !fs.strayed ==> fs.LoggedWellFormed()
      ensures !fs.strayed && ncl == 1 ==> HasOne(old(fs.Table()))
      ensures !fs.strayed && ncl != DISK_ERROR ==>
        fs.FatOnly() && (fs.winsect == old(fs.winsect) || fs.winsect < fs.geo.database)
      ensures !fs.strayed && ncl != DISK_ERROR && (ncl < 2 || c < |chain|) && !old(fs.wflag) ==> !fs.wflag
      ensures !fs.strayed && ncl < 2 ==> fs.Table() == old(fs.Table())
      ensures !fs.strayed && ncl == 0 ==> Full(fs.Table()) && c == |chain|
      ensures !fs.strayed && ncl >= 2 && ncl != DISK_ERROR && c < |chain| ==>
        ncl == chain[c] && fs.Table() == old(fs.Table())
      ensures !fs.strayed && ncl >= 2 && ncl != DISK_ERROR && c == |chain| ==>
        && fs.winsect < fs.geo.database && TailOf(chain) < |old(fs.Table())|
        && IsCluster(old(fs.Table()), ncl) && old(fs.Table())[ncl] == 0
        && fs.Table() == Allocated(old(fs.Table()), TailOf(chain), ncl, FatTable.EndMark(fs.geo.fsType))
    {
      hide Volume.Valid, Volume.View, Sectors, Sound, InFat, FatTable.FatOf, FatFits, SameOutsideFat, AllWell,
        WellFormed, Full, HasOne, NoneFree, Path, Allocated, InBlock, Clust2Sect, FatTable.EndMark, Zeros, SameBut,
        Volume.Snap;
      fs.Facts();
      var from := if sclust == 0 then 0 else clust;
      if sclust != 0 { ChainEntry(fs.Table(), chain, c - 1); }
      ghost var intact;
      ncl, intact := fs.CreateChain(from);
      if !fs.strayed && ncl != DISK_ERROR { fs.SnapTable(); }
    }

    /** Follow the chain behind its first c clusters, or stretch it there; 0 when no cluster is free. */
    method Stretch(ghost c: nat) returns (ncl: nat)
      requires Base() && c <= |chain| && (c == 0 ==> chain == []) && (c > 0 ==> clust == chain[c - 1])
      requires cltbl != null ==> chain == []
      modifies `chain, `sclust, fs.dev`sectors, fs.win, fs`wflag, fs`winsect, fs`log, fs`freeClust, fs`fsiFlag,
        fs`lastClust, fs`strayed
      ensures fs.dev.reliable ==> ncl != DISK_ERROR && !fs.strayed
      ensures !fs.strayed ==> fs.LoggedWellFormed()
      ensures !fs.strayed && ncl == 1 ==> HasOne(old(fs.Table()))
      ensures !fs.strayed && ncl == 0 ==>
        Base() && fs.Table() == old(fs.Table()) && Full(fs.Table()) && chain == old(chain)
      ensures !fs.strayed && ncl == 0 ==> c == |chain|
      ensures !fs.strayed && ncl >= 2 && ncl != DISK_ERROR ==> Base() && c < |chain| && chain[c] == ncl
      ensures !fs.strayed && ncl != DISK_ERROR ==> chain == old(chain) || |chain| == c + 1
      ensures !fs.strayed && ncl >= 2 && ncl != DISK_ERROR ==> Extends(old(fs.Table()), old(chain), fs.Table(), chain)
      ensures fs.Framed()
      ensures !fs.strayed && ncl != DISK_ERROR ==> Confined()
    {
      hide Volume.Valid, Volume.View, Volume.Table, Sectors, Sound, OnDisk, LinkMap.Describes, InFat, WellFormed,
        Full, HasOne, Extends, Path, Allocated, InBlock, EntryOwned, Clust2Sect, FatTable.EndMark, Holds, SameBut,
        Volume.Snap;
      fs.Facts();
      ghost var t, d, w, ch := fs.Table(), fs.dev.sectors, fs.winsect, chain;
      ghost var mark := FatTable.EndMark(fs.geo.fsType);
      ghost var tbl := if cltbl == null then [] else cltbl[..];
      if cltbl != null && built { assert chain[..mapped] == [] && LinkMap.Describes(tbl, 1, []); }
      ncl := CallCreateChain(c);
      assert cltbl != null ==> cltbl[..] == tbl;
      if fs.strayed || ncl == DISK_ERROR { return; }   // a volume that strayed is followed no further
      if ncl == 1 {
        fs.SnapFat(Sects());
        return;
      }
      if ncl != 0 && sclust == 0 { sclust := ncl; }
      if ncl == 0 || c < |chain| {
        VolumeKept();
        fs.SnapFat(Sects());
        ExtendsSame(t, chain);
      } else {
        chain := chain + [ncl];
        AllocatedExtends(t, ch, TailOf(ch), ncl, mark);
        Grown(t, ch, d, w, ncl, mark);
        fs.SnapFat(Sects());
      }
    }

    /** Why f_write stops short at p: the chain ends there, and no cluster is free or a link map forbids to stretch it. */
    ghost predicate NoRoom(p: nat)
      reads `chain, `cltbl, fs, fs.win, fs.dev
    {
      && fs.Valid() && fs.geo.csize > 0 && |chain| <= ClusterIndex(fs.geo, p / 512)
      && (Full(fs.Table()) || (cltbl != null && p > 0))
    }

    /** At a cluster boundary: make clust the cluster of position fptr, stretching the chain if need be. */
    method WriteCluster() returns (res: FResult, full: bool)
      requires Base() && ReadyAt(fptr) && fptr <= |data|
      requires fptr % 512 == 0 && SectorInCluster(fs.geo, fptr / 512) == 0
      modifies `chain, `sclust, `clust, fs.dev`sectors, fs.win, fs`wflag, fs`winsect, fs`log, fs`freeClust, fs`fsiFlag,
        fs`lastClust, fs`strayed
      ensures fs.dev.reliable ==> !fs.strayed
      ensures !fs.strayed ==> fs.LoggedWellFormed()
      ensures res == FR_OK || (res == FR_DISK_ERR && !fs.dev.reliable)
        || (res == FR_INT_ERR && (fs.strayed || HasOne(old(fs.Table()))))
      ensures res == FR_OK && !fs.strayed ==> Base() && Extends(old(fs.Table()), old(chain), fs.Table(), chain)
      ensures res == FR_OK && !fs.strayed ==> Confined()
      ensures res == FR_OK && !fs.strayed && !full ==> InCluster(fptr / 512)
      ensures res == FR_OK && !fs.strayed && full ==>
        ReadyAt(fptr) && NoRoom(fptr) && fs.Table() == old(fs.Table()) && chain == old(chain)
      ensures fs.Framed()
    {
      hide IsPow2, EndSector, Volume.Valid, Volume.Table, Volume.View, Sectors, WellFormed, OnDisk, LinkMap.Describes,
        InBlock, SectorInCluster, ClusterIndex, Extends, Full, HasOne, EntryOwned, Path, Sound, SameBut, Volume.Snap;
      fs.Facts();
      DataFits();
      fs.SnapSelf(Sects());
      BoundaryFacts(fptr);
      ExtendsSame(fs.Table(), chain);
      ghost var c := ClusterIndex(fs.geo, fptr / 512);
      if c < |chain| { ChainEntry(fs.Table(), chain, c); }
      full := false;
      var clst;
      if fptr == 0 {
        clst := sclust;
        if clst == 0 { clst := Stretch(0); }
      } else if cltbl != null {
        clst := ClmtClust(fptr);
      } else {
        clst := Stretch(c);
      }
      if clst == 0 { return FR_OK, true; }
      if clst == 1 { return FR_INT_ERR, false; }
      if clst == DISK_ERROR { return FR_DISK_ERR, false; }
      clust := clst;
      return FR_OK, false;
    }

    /** The part of a round of f_write at a sector boundary. */
    method WriteBoundary(btw: nat) returns (res: FResult, full: bool, sect: nat, cc: nat)
      requires Base() && ReadyAt(fptr) && fptr % 512 == 0 && 0 < btw && fptr <= |data|
      modifies `chain, `sclust, `clust, `dirty, fs.dev`sectors, fs.win, fs`wflag, fs`winsect, fs`log, fs`freeClust,
        fs`fsiFlag, fs`lastClust, fs`strayed
      ensures fs.dev.reliable ==> !fs.strayed
      ensures !fs.strayed ==> fs.LoggedWellFormed()
      ensures res == FR_OK || (res == FR_DISK_ERR && !fs.dev.reliable)
        || (res == FR_INT_ERR && (fs.strayed || HasOne(old(fs.Table()))))
      ensures res == FR_OK && !fs.strayed ==> Base() && Extends(old(fs.Table()), old(chain), fs.Table(), chain)
      ensures res == FR_OK && !fs.strayed ==> Confined()
      ensures res == FR_OK && !fs.strayed && full ==> ReadyAt(fptr) && NoRoom(fptr)
      ensures res == FR_OK && !fs.strayed && !full ==> !dirty && InCluster(fptr / 512)
      ensures res == FR_OK && !fs.strayed && !full ==>
        fptr / 512 < |Sects()| && sect == Sects()[fptr / 512] && 512 * cc <= btw
      ensures res == FR_OK && !fs.strayed && !full && cc > 0 ==>
        Contiguous(Sects(), fptr / 512, cc, sect) && ReadyAt(fptr + 512 * cc)
      ensures res == FR_OK && !fs.strayed && !full && cc == 0 ==> btw < 512
      ensures res == FR_OK && !fs.strayed ==> Confined()
    {
      hide Volume.Sane, IsPow2, EndSector, Sound, Span, And, Base, Volume.Valid, Volume.Table, Sectors, OnDisk,
        Contiguous, Clust2Sect, ClusterIndex, SectorInCluster, Holds, Image, Distinct, Extends, NoRoom, HasOne, SameBut,
        Volume.Snap;
      ghost var k := fptr / 512;
      full, sect, cc := false, 0, 0;
      BoundaryMask(k);
      ExtendsSame(fs.Table(), chain);
      fs.SnapSelf(Sects());
      var csect := And(fptr / 512, fs.geo.csize - 1);
      if csect == 0 {
        res, full := WriteCluster();
        if res != FR_OK || full || fs.strayed { return; }
      } else {
        SameCluster(k);
      }
      ghost var shot := fs.Snap();
      var ok := Flush();
      if !ok { return FR_DISK_ERR, false, 0, 0; }
      SameButTrans(old(fs.Snap()), shot, fs.Snap(), Sects(), Sects());
      InClusterSector(k);
      RunFacts(k);
      sect := Clust2Sect(fs.geo, clust);
      sect := sect + csect;
      cc := btw / 512;
      if cc > 0 {
        if csect + cc > fs.geo.csize { cc := fs.geo.csize - csect; }
        ContiguousFirst(Sects(), k, fs.geo.csize - csect, cc, sect);
        assert (fptr + 512 * cc - 1) / 512 == k + cc - 1;
      } else {
        ContiguousFirst(Sects(), k, fs.geo.csize - csect, 1, sect);
      }
      return FR_OK, false, sect, cc;
    }

    /** A sector of a cluster of the file is a sector of the file. */
    lemma InClusterSector(k: nat)
      requires InCluster(k)
      ensures k < |Sects()|
    {
      hide Span, ClusterIndex, Sectors;
      SectorsLength(fs.geo, chain);
      PositionBelow(fs.geo, k, |chain|);
    }

    /** The drive was written inside the sectors of the file only. */
    twostate lemma OwnWrite()
      requires buf.Length == 512 && unchanged(fs) && unchanged(fs.win) && |fs.dev.sectors| == |old(fs.dev.sectors)|
      requires chain == old(chain) && sclust == old(sclust)
      requires cltbl == old(cltbl) && mapped == old(mapped) && built == old(built)
      requires cltbl != null ==> unchanged(cltbl)
      requires forall s :: 0 <= s < |fs.dev.sectors| && s !in Sects() ==> fs.dev.sectors[s] == old(fs.dev.sectors)[s]
      requires forall k :: 0 <= k < |Sects()| ==> fs.geo.database <= Sects()[k]
      requires OnDisk(fs.dev.sectors, Sects(), dsect, pos, buf[..], dirty, data)
      requires old(Base())
      ensures Base() && Confined() && fs.Table() == old(fs.Table())
    {
      hide Volume.Valid, Volume.Table, Volume.View, Sectors, WellFormed, Chain, OnDisk, LinkMap.Describes, Distinct,
        Within, SameBut, Volume.Snap;
      assert Sects() == old(Sects());
      fs.SnapWritten(Sects());
    }

    /** Write cc whole sectors from src past the buffer, refilling it if its sector was among them. */
    method WriteDirect(src: seq<Byte>, ghost k: nat, sect: nat, cc: nat) returns (ok: bool)
      requires Base() && !dirty && |src| == 512 * cc && cc > 0
      requires Contiguous(Sects(), k, cc, sect) && 512 * k <= |data|
      modifies `data, `dirty, buf, fs.dev`sectors
      ensures fs.dev.reliable ==> ok
      ensures |fs.dev.sectors| == |old(fs.dev.sectors)|
      ensures ok ==> Base() && Confined() && fs.Table() == old(fs.Table()) && data == Splice(old(data), 512 * k, src)
      ensures forall s :: 0 <= s < |fs.dev.sectors| && s !in Sects() ==> fs.dev.sectors[s] == old(fs.dev.sectors)[s]
    {
      hide Base, Volume.Valid, Volume.Table, Sectors, Image, Distinct, Within, Contiguous, Holds, OnDisk, Splice,
        RunWritten, SameBut, Volume.Snap;
      BaseFacts();
      RunInside(fs.dev.sectors, Sects(), k, cc, sect);
      ghost var d, b := fs.dev.sectors, buf[..];
      ok := fs.dev.WriteRun(src, sect, cc);
      forall s | 0 <= s < |d| && s !in Sects()
        ensures fs.dev.sectors[s] == d[s]
      {
        if sect <= s < sect + cc { ContiguousMember(Sects(), k, cc, sect, s); }
      }
      if !ok { return; }
      RunIsWritten(d, fs.dev.sectors, Sects(), k, cc, sect, src);
      if Sub32(dsect, sect) < cc {
        var o := Sub32(dsect, sect) * 512;
        forall i | 0 <= i < 512 { buf[i] := src[o + i]; }
        dirty := false;
        assert buf[..] == src[o..o + 512];
      } else {
        assert buf[..] == b;
      }
      DirectOnDisk(d, fs.dev.sectors, Sects(), dsect, pos, b, buf[..], data, k, cc, sect, src);
      data := Splice(data, 512 * k, src);
      OwnWrite();
    }

    /** mem_cpy of src into the buffer, at offset o. */
    method CopyIn(src: seq<Byte>, o: nat)
      requires buf.Length == 512 && o + |src| <= 512
      modifies buf
      ensures buf[..] == Patch(old(buf[..]), o, src)
    {
      forall i | 0 <= i < |src| { buf[o + i] := src[i]; }
    }

    /** Make the buffer stand for sector k, filling it unless the file ends there. */
    method FillBuffer(ghost k: nat, sect: nat) returns (ok: bool)
      requires k < |Sects()| && sect == Sects()[k] && buf.Length == 512
      requires (dsect == sect || (fptr == 512 * k && !dirty)) && (fsize <= fptr ==> |data| == fptr)
      requires 0 < sect < |fs.dev.sectors| && OnDisk(fs.dev.sectors, Sects(), dsect, pos, buf[..], dirty, data)
      modifies `dsect, `pos, buf
      ensures fs.dev.reliable ==> ok
      ensures buf.Length == 512
      ensures ok ==> dsect == sect && pos == k && sect != 0 && Agrees(buf[..], data, k)
      ensures ok && old(dsect) != sect ==> Image(fs.dev.sectors, old(dsect), old(buf[..])) == fs.dev.sectors
    {
      hide Sectors, Image, Holds, OnDisk, Agrees;
      ghost var d, s, b0 := fs.dev.sectors, Sects(), buf[..];
      if dsect == sect {
        BufferAgrees(d, s, dsect, pos, b0, dirty, data, k);
      } else {
        CleanImage(d, s, dsect, pos, b0, data);
        if fptr < fsize {
          ok := fs.dev.Read(buf, sect);
          if !ok { return; }
          HoldsAt(d, s, data, k);
        } else {
          NothingThere(buf[..], data, k);
        }
      }
      dsect := sect;
      pos := k;
      return true;
    }

    /** Put bytes of the current sector into the buffer. */
    method WritePartial(src: seq<Byte>, sect: nat) returns (ok: bool, wcnt: nat)
      requires InCluster(fptr / 512) && fptr / 512 < |Sects()| && sect == Sects()[fptr / 512]
      requires Base() && |src| > 0 && fptr <= |data| && (fsize <= fptr ==> |data| == fptr)
      requires dsect == sect || (fptr % 512 == 0 && !dirty)
      modifies `dirty, `dsect, `pos, `data, buf
      ensures fs.dev.reliable ==> ok
      ensures ok ==> Base() && Confined() && fs.Table() == old(fs.Table())
      ensures ok ==> 0 < wcnt <= |src| && ReadyAt(fptr + wcnt) && data == Splice(old(data), fptr, src[..wcnt])
    {
      hide EndSector, Path, Chain, IsPow2, Span, Base, Volume.Valid, Volume.Table, Sectors, Image, Distinct, Within,
        Holds, OnDisk, Splice, ClusterIndex, Agrees, Patch, SameBut, Volume.Snap;
      BaseFacts();
      ghost var k := fptr / 512;
      ghost var d, s, b0, dsect0 := fs.dev.sectors, Sects(), buf[..], dsect;
      wcnt := 0;
      ok := FillBuffer(k, sect);
      if !ok { return; }
      wcnt := 512 - fptr % 512;
      if wcnt > |src| { wcnt := |src|; }
      BufferWrite(d, s, dsect0, b0, data, k, buf[..], fptr, src[..wcnt]);
      CopyIn(src[..wcnt], fptr % 512);
      dirty := true;
      data := Splice(data, fptr, src[..wcnt]);
      OwnWrite();
      assert (fptr + wcnt - 1) / 512 == k;
    }

    /** One round of the transfer loop: the first wcnt bytes of src go to the file position. */
    method WriteStep(src: seq<Byte>) returns (res: FResult, wcnt: nat, full: bool)
      requires |src| > 0 && fptr <= |data| && (fsize <= fptr ==> |data| == fptr)
      requires Base() && ReadyAt(fptr)
      modifies `chain, `sclust, `clust, `dirty, `dsect, `pos, `data, buf, fs.dev`sectors, fs.win, fs`wflag, fs`winsect,
        fs`log, fs`freeClust, fs`fsiFlag, fs`lastClust, fs`strayed
      ensures fs.dev.reliable ==> !fs.strayed
      ensures !fs.strayed ==> fs.LoggedWellFormed()
      ensures res == FR_OK || (res == FR_DISK_ERR && !fs.dev.reliable)
        || (res == FR_INT_ERR && (fs.strayed || HasOne(old(fs.Table()))))
      ensures res == FR_OK && !fs.strayed ==>
        Base() && Confined() && Extends(old(fs.Table()), old(chain), fs.Table(), chain)
      ensures res == FR_OK && !fs.strayed && full ==> wcnt == 0 && ReadyAt(fptr) && NoRoom(fptr) && data == old(data)
      ensures res == FR_OK && !fs.strayed && !full ==> 0 < wcnt <= |src| && ReadyAt(fptr + wcnt)
      ensures res == FR_OK && !fs.strayed && !full ==> data == Splice(old(data), fptr, src[..wcnt])
    {
      hide IsPow2, EndSector, Base, Volume.Valid, Volume.Table, Sectors, OnDisk, ClusterIndex, Holds, Image, Distinct,
        Within, Contiguous, ReadyAt, InCluster, Extends, NoRoom, HasOne, Splice, SameBut, Volume.Snap;
      full, wcnt := false, 0;
      BaseFacts();
      ExtendsSame(fs.Table(), chain);
      fs.SnapSelf(Sects());
      var sect := dsect;
      if fptr % 512 == 0 {
        var cc;
        res, full, sect, cc := WriteBoundary(|src|);
        if res != FR_OK || full || fs.strayed { return; }
        if cc > 0 {
          ghost var shot := fs.Snap();
          var ok := WriteDirect(src[..512 * cc], fptr / 512, sect, cc);
          if !ok { return FR_DISK_ERR, 0, false; }
          SameButTrans(old(fs.Snap()), shot, fs.Snap(), Sects(), Sects());
          return FR_OK, 512 * cc, false;
        }
      } else {
        MidSector(fptr);
      }
      ghost var shot := fs.Snap();
      var ok;
      ok, wcnt := WritePartial(src, sect);
      if !ok { return FR_DISK_ERR, 0, false; }
      SameButTrans(old(fs.Snap()), shot, fs.Snap(), Sects(), Sects());
      return FR_OK, wcnt, false;
    }

    /** The transfer loop of f_write: it ends early only when there is no room. */
    method WriteLoop(src: seq<Byte>) returns (res: FResult, bw: nat)
      requires fptr <= |data| && |data| == fsize
      requires Base() && ReadyAt(fptr)
      modifies `chain, `sclust, `clust, `dirty, `dsect, `pos, `data, `fptr, buf, fs.dev`sectors, fs.win, fs`wflag,
        fs`winsect, fs`log, fs`freeClust, fs`fsiFlag, fs`lastClust, fs`strayed
      ensures fs.dev.reliable ==> !fs.strayed
      ensures !fs.strayed ==> fs.LoggedWellFormed()
      ensures res == FR_OK || (res == FR_DISK_ERR && !fs.dev.reliable)
        || (res == FR_INT_ERR && (fs.strayed || HasOne(old(fs.Table()))))
      ensures res == FR_OK && !fs.strayed ==>
        Base() && Confined() && Extends(old(fs.Table()), old(chain), fs.Table(), chain)
      ensures res == FR_OK && !fs.strayed ==> bw <= |src| && fptr == old(fptr) + bw && ReadyAt(fptr)
      ensures res == FR_OK && !fs.strayed ==> data == Splice(old(data), old(fptr), src[..bw])
      ensures res == FR_OK && !fs.strayed && bw < |src| ==> NoRoom(fptr)
    {
      hide Volume.Sane, Distinct, SameElsewhere, WellFormed, EndSector, Sound, AllWell, Base, Volume.Valid,
        Volume.Table, Sectors, OnDisk, ClusterIndex, Holds, Image, Within, Contiguous, ReadyAt, InCluster, Extends,
        NoRoom, HasOne, Splice, Chain, Path, Agrees, SameBut, Volume.Snap;
      bw := 0;
      AllWellSelf(fs.log);
      ghost var p, data0, t0, c0 := fptr, data, fs.Table(), chain;
      ExtendsSame(t0, c0);
      BaseChain();
      fs.SnapSelf(Sects());
      SpliceNothing(data0, p);
      while bw < |src|
        invariant bw <= |src| && fptr == p + bw
        invariant Base() && ReadyAt(fptr) && Confined() && fs.LoggedWellFormed() && Extends(t0, c0, fs.Table(), chain)
        invariant data == Splice(data0, p, src[..bw])
      {
        ghost var t1, c1, l1, shot := fs.Table(), chain, fs.log, fs.Snap();
        BaseChain();
        if HasOne(t1) { ExtendsHasOne(t0, c0, t1, c1); }
        SpliceLength(data0, p, src[..bw]);
        var wcnt, full;
        res, wcnt, full := WriteStep(src[bw..]);
        if !fs.strayed { AllWellTrans(old(fs.log), l1, fs.log); }
        if res != FR_OK || fs.strayed { return; }
        BaseChain();
        GrownOn(fs.geo, t0, c0, old(fs.Snap()), t1, c1, shot, fs.Table(), chain, fs.Snap());
        if full { break; }
        SpliceTwice(data0, p, src[..bw], src[bw..][..wcnt]);
        assert src[..bw] + src[bw..][..wcnt] == src[..bw + wcnt];
        fptr := fptr + wcnt;
        bw := bw + wcnt;
      }
      return FR_OK, bw;
    }

    /** Write src at the file position. */
    method Write(src: seq<Byte>) returns (res: FResult, bw: nat)
      requires |src| < 0x1_0000_0000
      requires error || Valid()
      modifies `chain, `sclust, `clust, `dirty, `dsect, `pos, `data, `fptr, `fsize, `written, `error, buf, fs.dev`sectors,
        fs.win, fs`wflag, fs`winsect, fs`log, fs`freeClust, fs`fsiFlag, fs`lastClust, fs`strayed
      ensures Refusal(old(error), canWrite) != FR_OK ==>
        res == Refusal(old(error), canWrite) && bw == 0 && Untouched()
      ensures Refusal(old(error), canWrite) == FR_OK ==>
        || res == FR_OK
        || (res == FR_DISK_ERR && !fs.dev.reliable && error)
        || (res == FR_INT_ERR && (fs.strayed || (old(fs.Valid()) && HasOne(old(fs.Table())))) && error)
      ensures Refusal(old(error), canWrite) == FR_OK && fs.dev.reliable ==> !fs.strayed
      ensures !fs.strayed ==> fs.LoggedWellFormed()
      ensures res == FR_OK && !fs.strayed ==> Valid() && Confined() && bw <= |src| && fptr == old(fptr) + bw && written
      // exactly the bytes at the old position are replaced
      ensures res == FR_OK && !fs.strayed ==> data == Splice(old(data), old(fptr), src[..bw])
      ensures res == FR_OK && !fs.strayed ==> Extends(old(fs.Table()), old(chain), fs.Table(), chain)
      // the only reasons to fall short
      ensures res == FR_OK && !fs.strayed && bw < |src| ==>
        NoRoom(fptr) || old(fsize) + |src| >= 0x1_0000_0000
      ensures res == FR_OK && !fs.strayed && old(fsize) + |src| >= 0x1_0000_0000 ==> bw == 0
    {
      hide Volume.Sane, IsPow2, EndSector, Sound, Span, AllWell, Base, Volume.Valid, Volume.Table, Sectors, OnDisk,
        ClusterIndex, Holds, Image, Distinct, Within, Contiguous, ReadyAt, InCluster, Extends, NoRoom, HasOne, Splice,
        SameBut, Volume.Snap;
      bw := 0;
      AllWellSelf(fs.log);
      res := Validate();
      if res != FR_OK { return; }
      if error { return FR_INT_ERR, 0; }
      if !canWrite { return FR_DENIED, 0; }
      var btw := |src|;
      if (fsize + btw) % 0x1_0000_0000 < fsize { btw := 0; }
      SpliceLength(data, fptr, []);
      res, bw := WriteLoop(src[..btw]);
      if res != FR_OK {
        error := true;
        return;
      }
      if fs.strayed { return; }
      assert src[..btw][..bw] == src[..bw];
      SpliceLength(old(data), old(fptr), src[..bw]);
      if fptr > fsize { fsize := fptr; }
      written := true;
    }

    // ----- f_lseek, normal mode -----

    /** One round of the cluster following loop: from cluster c to the next one; 0 when there is none. */
    method SeekNext(ghost c: nat) returns (clst: nat)
      requires c < |chain| && clust == chain[c] && cltbl == null
      requires Base() && (canWrite || c + 1 < |chain|)
      modifies `chain, `sclust, fs.dev`sectors, fs.win, fs`wflag, fs`winsect, fs`log, fs`freeClust, fs`fsiFlag,
        fs`lastClust, fs`strayed
      ensures fs.Framed()
      ensures fs.dev.reliable ==> clst != DISK_ERROR && !fs.strayed
      ensures !fs.strayed ==> fs.LoggedWellFormed()
      ensures !fs.strayed && clst == 1 ==> HasOne(old(fs.Table()))
      ensures !fs.strayed && clst != DISK_ERROR && clst != 1 ==>
        && Base() && Extends(old(fs.Table()), old(chain), fs.Table(), chain)
        && Confined()
      ensures !fs.strayed && clst == 0 ==> Full(fs.Table()) && chain == old(chain) && c + 1 == |chain|
      ensures !fs.strayed && clst != DISK_ERROR ==> chain == old(chain) || |chain| == c + 2
      ensures !fs.strayed && clst >= 2 && clst != DISK_ERROR ==> c + 1 < |chain| && chain[c + 1] == clst
    {
      hide Volume.Valid, Volume.Table, Volume.View, Sectors, WellFormed, OnDisk, Extends, Full, HasOne, EntryOwned,
        Path, Sound, Allocated, Holds, SameBut, Volume.Snap;
      ExtendsSame(fs.Table(), chain);
      fs.Facts();
      if c + 1 < |chain| { ChainEntry(fs.Table(), chain, c + 1); }
      if canWrite {
        clst := Stretch(c + 1);
      } else {
        clst := FollowFat(c);
      }
    }

    /** The cluster following loop: walk from cluster c until at most one cluster of the distance is left. */
    method SeekWalk(dist: nat, ghost c: nat) returns (res: FResult, ofs: nat, clst: nat, ghost e: nat)
      requires c < |chain| && clust == chain[c] && cltbl == null && fptr == 512 * Span(fs.geo, c)
      requires dist > 0 && fs.geo.csize > 0
      requires Base() && (canWrite || fptr + dist <= |data|)
      modifies `chain, `sclust, `clust, `fptr, fs.dev`sectors, fs.win, fs`wflag, fs`winsect, fs`log, fs`freeClust,
        fs`fsiFlag, fs`lastClust, fs`strayed
      ensures fs.dev.reliable ==> !fs.strayed
      ensures !fs.strayed ==> fs.LoggedWellFormed()
      ensures res == FR_OK || (res == FR_DISK_ERR && !fs.dev.reliable)
        || (res == FR_INT_ERR && (fs.strayed || HasOne(old(fs.Table()))))
      ensures res == FR_OK && !fs.strayed ==>
        Base() && Confined() && Extends(old(fs.Table()), old(chain), fs.Table(), chain)
      ensures res == FR_OK && !fs.strayed ==> e < |chain| && clust == chain[e] && fptr == 512 * Span(fs.geo, e)
      ensures res == FR_OK && !fs.strayed ==> chain == old(chain) || |chain| == e + 1
      ensures res == FR_OK && !fs.strayed ==> 0 < ofs <= fs.geo.csize * 512 && clst != 1
      ensures res == FR_OK && !fs.strayed && clst != 0 ==> clst == clust && fptr + ofs == old(fptr) + dist
      ensures res == FR_OK && !fs.strayed && clst == 0 ==> Full(fs.Table()) && e + 1 == |chain|
      ensures res == FR_OK && !fs.strayed && clst == 0 ==> ofs == fs.geo.csize * 512 && fptr + ofs < old(fptr) + dist
    {
      hide WellFormed, SameElsewhere, EndSector, Sound, AllWell, Base, Volume.Valid, Volume.Table, Sectors, OnDisk,
        ClusterIndex, Holds, Image, Within, Contiguous, Extends, HasOne, Full, Chain, Path, Span, IsPow2, SameBut,
        Volume.Snap;
      ghost var t0, c0, p0 := fs.Table(), chain, fptr;
      ExtendsSame(t0, c0);
      AllWellSelf(fs.log);
      BaseChain();
      fs.SnapSelf(Sects());
      ofs, clst, e := dist, clust, c;
      var bcs := fs.geo.csize * 512;
      while ofs > bcs
        invariant Base() && Confined() && fs.LoggedWellFormed() && Extends(t0, c0, fs.Table(), chain)
        invariant e < |chain| && clst == clust == chain[e] && fptr == 512 * Span(fs.geo, e)
        invariant chain == c0 || |chain| == e + 1
        invariant fptr + ofs == p0 + dist && 0 < ofs
      {
        ghost var t1, c1, l1, shot := fs.Table(), chain, fs.log, fs.Snap();
        BaseChain();
        if HasOne(t1) { ExtendsHasOne(t0, c0, t1, c1); }
        WalkInside(e, ofs);
        clst := SeekNext(e);
        if !fs.strayed { AllWellTrans(old(fs.log), l1, fs.log); }
        if clst == DISK_ERROR { return FR_DISK_ERR, ofs, clst, e; }
        if clst == 1 { return FR_INT_ERR, ofs, clst, e; }
        if fs.strayed { return FR_OK, ofs, clst, e; }
        BaseChain();
        GrownOn(fs.geo, t0, c0, old(fs.Snap()), t1, c1, shot, fs.Table(), chain, fs.Snap());
        if clst == 0 {
          return FR_OK, bcs, clst, e;
        }
        clust := clst;
        fptr := fptr + bcs;
        ofs := ofs - bcs;
        SpanMono(fs.geo, e, e + 1);
        e := e + 1;
      }
      BaseChain();
      ChainEntry(fs.Table(), chain, e);
      return FR_OK, ofs, clst, e;
    }

    /** While more than a cluster of data lies ahead, the chain goes on. */
    lemma WalkInside(e: nat, ofs: nat)
      requires fs.geo.csize > 0 && fptr == 512 * Span(fs.geo, e) && ofs > fs.geo.csize * 512
      requires Base()
      ensures fptr + ofs <= |data| ==> e + 1 < |chain|
    {
      hide Base, Sectors, Span, Volume.Valid;
      DataFits();
      SectorsLength(fs.geo, chain);
      SpanMono(fs.geo, e, e + 1);
      if |chain| < e + 1 { SpanMono(fs.geo, |chain|, e + 1); }
    }

    /** Where the walk starts: the current cluster, or the first one, which is allocated when missing. */
    method SeekStart(ofs0: nat) returns (res: FResult, clst: nat, dist: nat, ghost c: nat)
      requires Valid() && 0 < ofs0 < 0x1_0000_0000 && cltbl == null && (canWrite || ofs0 <= fsize)
      modifies `chain, `sclust, `clust, `fptr, fs.dev`sectors, fs.win, fs`wflag, fs`winsect, fs`log, fs`freeClust,
        fs`fsiFlag, fs`lastClust, fs`strayed
      ensures fs.dev.reliable ==> !fs.strayed
      ensures !fs.strayed ==> fs.LoggedWellFormed()
      ensures res == FR_OK || (res == FR_DISK_ERR && !fs.dev.reliable)
        || (res == FR_INT_ERR && (fs.strayed || HasOne(old(fs.Table()))))
      ensures res == FR_OK && !fs.strayed ==> Base() && Extends(old(fs.Table()), old(chain), fs.Table(), chain)
      ensures res == FR_OK && !fs.strayed ==> Confined()
      ensures res == FR_OK && !fs.strayed && clst != 0 ==>
        c < |chain| && clust == clst == chain[c] && fptr == 512 * Span(fs.geo, c) && dist > 0 && fptr + dist == ofs0
      ensures res == FR_OK && !fs.strayed ==> chain == old(chain) || (old(chain) == [] && |chain| == 1)
      ensures res == FR_OK && !fs.strayed && clst == 0 ==> Full(fs.Table()) && chain == [] && fptr == 0
    {
      hide Volume.Sane, Base, Volume.Valid, Volume.Table, Sectors, OnDisk, ClusterIndex, Holds, Image, Within,
        Contiguous, Extends, HasOne, Full, Path, Span, IsPow2, And, SameBut, Volume.Snap;
      c, dist := 0, ofs0;
      BaseFacts();
      BaseStart();
      fs.SnapSelf(Sects());
      ExtendsSame(fs.Table(), chain);
      var ifptr := fptr;
      fptr := 0;
      var bcs := fs.geo.csize * 512;
      if ifptr > 0 && (ofs0 - 1) / bcs >= (ifptr - 1) / bcs {
        c := ClusterIndex(fs.geo, (ifptr - 1) / 512);
        ByteCluster(fs.geo, ofs0 - 1);
        ByteCluster(fs.geo, ifptr - 1);
        ClusterStart(fs.geo, ifptr - 1);
        ClusterStart(fs.geo, ofs0 - 1);
        SpanOrder(fs.geo, c, ClusterIndex(fs.geo, (ofs0 - 1) / 512));
        fptr := And(ifptr - 1, Not32(bcs - 1));
        dist := ofs0 - fptr;
        clst := clust;
        ChainEntry(fs.Table(), chain, c);
      } else {
        SpanZero(fs.geo);
        clst := sclust;
        if clst == 0 {
          clst := Stretch(0);
          if clst == 1 { return FR_INT_ERR, clst, dist, c; }
          if clst == DISK_ERROR { return FR_DISK_ERR, clst, dist, c; }
        }
        clust := clst;
      }
      return FR_OK, clst, dist, c;
    }

    lemma BaseStart()
      requires Base()
      ensures sclust == 0 <==> chain == []
      ensures chain != [] ==> sclust == chain[0]
      ensures IsPow2(fs.geo.csize) && 0 < fs.geo.csize <= 128
    {
      hide Volume.Valid, Sectors, OnDisk, WellFormed, Holds;
      ChainFacts();
      if chain != [] { ChainEntry(fs.Table(), chain, 0); }
    }

    /** The end of a seek: load the sector of the new position, and move the end of the file if it is passed. */
    method SeekSettle(nsect: nat) returns (ok: bool)
      requires fptr <= 512 * |Sects()| && |data| == fsize
      requires fptr % 512 != 0 ==> fptr / 512 < |Sects()| && nsect == Sects()[fptr / 512]
      requires Base()
      modifies `dirty, `dsect, `pos, `data, `fsize, `written, buf, fs.dev`sectors
      ensures fs.dev.reliable ==> ok
      ensures |fs.dev.sectors| == |old(fs.dev.sectors)|
      ensures ok ==> Base() && Confined() && fs.Table() == old(fs.Table()) && old(data) <= data && |data| == fsize
      ensures ok ==> fsize == if fptr > old(fsize) then fptr else old(fsize)
      ensures ok ==> if fptr % 512 != 0 then dsect == nsect else dsect == old(dsect) && pos == old(pos)
      ensures dirty ==> old(dirty)
      ensures ok ==> (written <==> old(written) || fptr > old(fsize))
      ensures forall s :: 0 <= s < |fs.dev.sectors| && s !in Sects() ==> fs.dev.sectors[s] == old(fs.dev.sectors)[s]
    {
      hide IsPow2, EndSector, Base, Volume.Valid, Volume.Table, Sectors, OnDisk, Holds, Distinct, Image, Exposed,
        SameBut, Volume.Snap;
      BaseFacts();
      fs.SnapSelf(Sects());
      if fptr % 512 != 0 {
        ok := LoadSector(fptr / 512, nsect);
        if !ok { return; }
      }
      if fptr > fsize {
        BaseFacts();
        ghost var more := Exposed(Image(fs.dev.sectors, dsect, buf[..]), Sects(), fsize, fptr);
        ExposeOnDisk(fs.dev.sectors, Sects(), dsect, pos, buf[..], dirty, data, fptr);
        data := data + more;
        fsize := fptr;
        written := true;
        OwnWrite();
      }
      return true;
    }

    /** Where f_lseek ends up: at the target, or at the end of the last cluster of a full volume. */
    ghost predicate Arrived(target: nat)
      reads `fptr, `chain, fs, fs.win, fs.dev
    {
      fptr == target || (fptr < target && fs.Valid() && Full(fs.Table()) && fptr == 512 * |Sects()|)
    }

    /** The clusters agree with the file position. */
    ghost predicate AtCluster()
      reads `fptr, `chain, `clust, fs`geo
    {
      fptr <= 512 * |Sects()| &&
      (fptr > 0 ==>
        fs.geo.csize > 0 && ClusterIndex(fs.geo, (fptr - 1) / 512) < |chain| &&
        clust == chain[ClusterIndex(fs.geo, (fptr - 1) / 512)])
    }

    /** Behind the cluster following loop: move on by the rest of the distance and find the sector. */
    method SeekArrive(left: nat, clst: nat, ghost e: nat) returns (nsect: nat)
      requires e < |chain| && clust == chain[e] && fptr == 512 * Span(fs.geo, e)
      requires fs.geo.csize > 0 && 0 < left <= fs.geo.csize * 512
      requires if clst == 0 then left == fs.geo.csize * 512 else clst == clust
      requires Base()
      modifies `fptr
      ensures fptr == old(fptr) + left && AtCluster()
      ensures e + 1 == |chain| && clst == 0 ==> fptr == 512 * |Sects()|
      ensures fptr % 512 != 0 ==> fptr / 512 < |Sects()| && nsect == Sects()[fptr / 512]
    {
      hide Base, Volume.Valid, Volume.Table, Sectors, OnDisk, ClusterIndex, SectorInCluster, Holds, Image, Within,
        Span, Clust2Sect, Distinct, Chain;
      BaseFacts();
      nsect := 0;
      fptr := fptr + left;
      SectorsLength(fs.geo, chain);
      SpanMono(fs.geo, e, |chain|);
      InsideCluster(fs.geo, e, left);
      if left % 512 != 0 {
        nsect := Clust2Sect(fs.geo, clst);
        nsect := nsect + left / 512;
        PositionBelow(fs.geo, fptr / 512, |chain|);
        SectorAt(fs.geo, chain, fptr / 512);
      }
    }

    /** Walk to ofs and make it the file position. */
    method SeekTo(ofs: nat) returns (res: FResult, nsect: nat)
      requires Valid() && 0 < ofs < 0x1_0000_0000 && cltbl == null && (canWrite || ofs <= fsize)
      modifies `chain, `sclust, `clust, `fptr, fs.dev`sectors, fs.win, fs`wflag, fs`winsect, fs`log, fs`freeClust,
        fs`fsiFlag, fs`lastClust, fs`strayed
      ensures fs.dev.reliable ==> !fs.strayed
      ensures !fs.strayed ==> fs.LoggedWellFormed()
      ensures res == FR_OK || (res == FR_DISK_ERR && !fs.dev.reliable)
        || (res == FR_INT_ERR && (fs.strayed || HasOne(old(fs.Table()))))
      ensures res == FR_OK && !fs.strayed ==>
        Base() && Confined() && Extends(old(fs.Table()), old(chain), fs.Table(), chain)
      ensures res == FR_OK && !fs.strayed ==> AtCluster() && Arrived(ofs)
      // clusters are added only to be used
      ensures res == FR_OK && !fs.strayed ==> chain == old(chain) || fptr > |data|
      ensures res == FR_OK && !fs.strayed && fptr % 512 != 0 ==> fptr / 512 < |Sects()| && nsect == Sects()[fptr / 512]
    {
      hide Volume.Sane, Distinct, SameElsewhere, WellFormed, EndSector, Sound, AllWell, Base, Volume.Valid,
        Volume.Table, Sectors, OnDisk, ClusterIndex, SectorInCluster, Holds, Image, Within, Extends, HasOne, Full, Path,
        Span, IsPow2, Clust2Sect, ReadyAt, AtCluster, Chain, Contiguous, SameBut, Volume.Snap;
      nsect := 0;
      BaseChain();
      BaseStart();
      DataFits();
      ghost var t0, c0 := fs.Table(), chain;
      var clst, dist;
      ghost var c;
      res, clst, dist, c := SeekStart(ofs);
      if res != FR_OK || fs.strayed { return; }
      if clst == 0 {
        SectorsLength(fs.geo, chain);
        SpanZero(fs.geo);
        AtStart();
        return;
      }
      ghost var t1, c1, l1, shot := fs.Table(), chain, fs.log, fs.Snap();
      if HasOne(t1) { BaseChain(); ExtendsHasOne(t0, c0, t1, c1); }
      ghost var e;
      var left;
      res, left, clst, e := SeekWalk(dist, c);
      if fs.strayed { return; }
      AllWellTrans(old(fs.log), l1, fs.log);
      if res != FR_OK { return; }
      BaseChain();
      GrownOn(fs.geo, t0, c0, old(fs.Snap()), t1, c1, shot, fs.Table(), chain, fs.Snap());
      nsect := SeekArrive(left, clst, e);
      if chain != c0 { BehindData(c0, e, left); }
    }

    /** A position in a cluster that was added lies behind the data. */
    lemma BehindData(c0: seq<nat>, e: nat, left: nat)
      requires fs.geo.csize > 0 && left > 0 && fptr == 512 * Span(fs.geo, e) + left && |c0| <= e
      requires |data| <= 512 * |Sectors(fs.geo, c0)|
      ensures fptr > |data|
    {
      hide Sectors, Span;
      SectorsLength(fs.geo, c0);
      if |c0| < e { SpanMono(fs.geo, |c0|, e); }
    }

    lemma AtStart()
      requires fptr == 0
      ensures AtCluster()
    {
    }

    /** Where a seek to ofs is aimed: only in normal mode, with write access, behind the end of the file. */
    ghost function Target(ofs: nat): nat
      reads `fsize, `cltbl
    {
      if ofs > fsize && (cltbl != null || !canWrite) then fsize else ofs
    }

    /** f_lseek without a link map: the position may pass the end of a writable file, which grows then. */
    method SeekNormal(ofs0: nat) returns (res: FResult)
      requires Valid() && ofs0 < 0x1_0000_0000 && cltbl == null
      modifies `chain, `sclust, `clust, `dirty, `dsect, `pos, `data, `fptr, `fsize, `written, `error, buf, fs.dev`sectors,
        fs.win, fs`wflag, fs`winsect, fs`log, fs`freeClust, fs`fsiFlag, fs`lastClust, fs`strayed
      ensures fs.dev.reliable ==> !fs.strayed
      ensures !fs.strayed ==> fs.LoggedWellFormed()
      ensures res == FR_OK || (res == FR_DISK_ERR && !fs.dev.reliable && error)
        || (res == FR_INT_ERR && (fs.strayed || HasOne(old(fs.Table()))) && error)
      ensures res == FR_OK && !fs.strayed ==>
        Valid() && Confined() && Extends(old(fs.Table()), old(chain), fs.Table(), chain)
      ensures res == FR_OK && !fs.strayed ==> old(data) <= data && Arrived(old(Target(ofs0)))
      ensures res == FR_OK && fptr % 512 == 0 ==> dsect == old(dsect) && pos == old(pos)
      ensures res == FR_OK && !fs.strayed && ofs0 <= old(fsize) ==> fptr == ofs0
      // a file that grew has to be synchronised, and clusters are added only to one that grows
      ensures res == FR_OK && !fs.strayed ==> (written <==> old(written) || fsize > old(fsize))
      ensures res == FR_OK && !fs.strayed && fsize == old(fsize) ==> chain == old(chain)
      ensures res == FR_OK && !fs.strayed ==> fsize == if fptr > old(fsize) then fptr else old(fsize)
    {
      hide Clusters.WellFormed, SameElsewhere, Volume.Sane, IsPow2, EndSector, Base, Volume.Valid, Volume.Table,
        Sectors, OnDisk, ClusterIndex, Holds, Image, Within, Distinct, Extends, HasOne, Full, ReadyAt, AtCluster, Sound,
        Chain, Contiguous, SameBut, Volume.Snap;
      var ofs := if ofs0 > fsize && !canWrite then fsize else ofs0;
      BaseFacts();
      ExtendsSame(fs.Table(), chain);
      fs.SnapSelf(Sects());
      var nsect := 0;
      if ofs == 0 {
        fptr := 0;
        AtStart();
        ArrivedExactly(0);
      } else {
        res, nsect := SeekTo(ofs);
        if res != FR_OK { error := true; return; }
        if fs.strayed { return; }
      }
      AtBounds();
      ArrivedBound(ofs);
      ghost var shot := fs.Snap();
      var ok := SeekSettle(nsect);
      if !ok { error := true; return FR_DISK_ERR; }
      SameButTrans(old(fs.Snap()), shot, fs.Snap(), Sects(), Sects());
      AtReady();
      DataFits();
      return FR_OK;
    }

    lemma AtBounds()
      requires AtCluster()
      ensures fptr <= 512 * |Sects()|
    {
    }

    lemma ArrivedExactly(target: nat)
      requires fptr == target
      ensures Arrived(target)
    {
    }

    lemma ArrivedBound(target: nat)
      requires Arrived(target)
      ensures fptr <= target
    {
    }

    lemma AtReady()
      requires Base() && AtCluster() && cltbl == null
      requires fptr % 512 != 0 ==> fptr / 512 < |Sects()| && dsect == Sects()[fptr / 512]
      ensures ReadyAt(fptr)
    {
      hide Sectors, OnDisk, Volume.Valid, WellFormed, ClusterIndex;
      ChainFacts();
    }

    // ----- f_lseek, fast mode -----

    /** Cluster and sector of the byte before offset ofs, by the link map; 0 when it does not reach. */
    method FastSector(ofs: nat) returns (dsc: nat)
      requires cltbl != null && built && 0 < ofs <= |data| && Base()
      modifies `clust
      ensures fs.geo.csize > 0
      ensures dsc == 0 <==> mapped <= ClusterIndex(fs.geo, (ofs - 1) / 512)
      ensures dsc != 0 ==> InCluster((ofs - 1) / 512) && (ofs - 1) / 512 < |Sects()| && dsc == Sects()[(ofs - 1) / 512]
    {
      hide Base, Volume.Valid, Volume.Table, Sectors, OnDisk, ClusterIndex, SectorInCluster, Holds, Image, Within,
        Distinct, Sound, Contiguous, LinkMap.Describes, Clust2Sect, IsPow2;
      BaseFacts();
      BaseStart();
      MapFacts();
      DataFits();
      ghost var k := (ofs - 1) / 512;
      FastFacts(k);
      clust := ClmtClust(ofs - 1);
      NoSector(fs.geo);
      if clust != 0 { RunFacts(k); }
      dsc := Clust2Sect(fs.geo, clust);
      if dsc == 0 { return; }
      BoundaryMask(k);
      dsc := dsc + And((ofs - 1) / 512, fs.geo.csize - 1);
      ContiguousFirst(Sects(), k, fs.geo.csize - SectorInCluster(fs.geo, k), 1, dsc);
    }

    /** The link map does not reach the byte before the file position. */
    ghost predicate Unmapped()
      reads `fptr, `mapped, fs`geo
    {
      fptr > 0 && fs.geo.csize > 0 && mapped <= ClusterIndex(fs.geo, (fptr - 1) / 512)
    }

    /** f_lseek through the link map: the position is clipped at the end of the file. */
    method SeekFast(ofs0: nat) returns (res: FResult)
      requires Valid() && cltbl != null
      modifies `clust, `dirty, `dsect, `pos, `fptr, `error, buf, fs.dev`sectors
      ensures fptr == if ofs0 > fsize then fsize else ofs0
      ensures res == FR_OK || (res == FR_DISK_ERR && !fs.dev.reliable && error) || (res == FR_INT_ERR && error)
      // it fails exactly where the table does not reach: a table built for an empty file that has grown since
      ensures res == FR_INT_ERR <==> Unmapped()
      ensures res == FR_OK && fptr % 512 == 0 ==> dsect == old(dsect) && pos == old(pos)
      ensures res == FR_OK ==> Valid() && Confined() && fs.Table() == old(fs.Table())
    {
      hide IsPow2, EndSector, Base, Volume.Valid, Volume.Table, Sectors, OnDisk, ClusterIndex, SectorInCluster, Holds,
        Image, Within, Distinct, Sound, Contiguous, LinkMap.Describes, SameBut, Volume.Snap;
      var ofs := if ofs0 > fsize then fsize else ofs0;
      BaseFacts();
      fs.SnapSelf(Sects());
      fptr := ofs;
      if ofs > 0 {
        var dsc := FastSector(ofs);
        if dsc == 0 {
          error := true;
          return FR_INT_ERR;
        }
        if fptr % 512 != 0 {
          var ok := LoadSector((ofs - 1) / 512, dsc);
          if !ok {
            error := true;
            return FR_DISK_ERR;
          }
        }
      }
      return FR_OK;
    }

    lemma MapFacts()
      requires Base() && cltbl != null && built
      ensures mapped <= |chain| && (mapped == |chain| || (mapped == 0 && |chain| == 1))
      ensures LinkMap.Describes(cltbl[..], 1, chain[..mapped])
      ensures forall c :: 0 <= c < |chain| ==> 2 <= chain[c]
    {
      hide Volume.Valid, Volume.Table, Sectors, OnDisk, WellFormed, LinkMap.Describes;
    }

    /** A sector inside the file belongs to one of its clusters. */
    lemma FastFacts(k: nat)
      requires fs.geo.csize > 0 && k < |Sects()|
      ensures ClusterIndex(fs.geo, k) < |chain|
    {
      hide Span, ClusterIndex, Sectors;
      SectorsLength(fs.geo, chain);
      PositionBelow(fs.geo, k, |chain|);
    }

    // ----- f_lseek, building the link map -----

    /** The link map table was written to. */
    twostate lemma TableTouched()
      requires cltbl != null && unchanged(`sclust, `chain, `dsect, `pos, `dirty, `data, `cltbl)
      requires unchanged(buf) && unchanged(fs) && unchanged(fs.win) && unchanged(fs.dev)
      requires built ==> MapOk()
      requires old(Base())
      ensures Base() && fs.Table() == old(fs.Table())
    {
      hide Volume.Valid, Volume.Table, Volume.View, Sectors, WellFormed, Chain, OnDisk, LinkMap.Describes, Distinct,
        Within;
      assert fs.Table() == old(fs.Table());
      assert buf[..] == old(buf[..]);
    }

    /** The end mark of a chain is the number behind its last cluster. */
    predicate MarkFollows(t: Fat, ch: seq<nat>)
    {
      ch != [] && LastLink(t, ch) == ch[|ch| - 1] + 1
    }

    /** The FAT entry of the last cluster of a chain. */
    function LastLink(t: Fat, ch: seq<nat>): nat
      requires ch != []
    {
      if ch[|ch| - 1] < |t| then t[ch[|ch| - 1]] else 0
    }

    /** get_fat on cluster j of the chain, or on a number behind the last cluster of the volume. */
    method NextOf(ghost j: nat, cl: Dword) returns (v: nat)
      requires if j < |chain| then cl == chain[j] else cl >= fs.geo.nFatent
      requires Base()
      modifies fs.dev`sectors, fs.win, fs`wflag, fs`winsect
      ensures fs.Framed()
      ensures fs.dev.reliable ==> v != DISK_ERROR
      ensures v != DISK_ERROR ==> Base() && fs.Table() == old(fs.Table()) && v < 0x1000_0000 && (v <= 1 <==> j >= |chain|)
      ensures v != DISK_ERROR ==> Confined()
      ensures v != DISK_ERROR && j < |chain| ==>
        if j + 1 < |chain| then v == chain[j + 1] < fs.geo.nFatent
        else v == LastLink(fs.Table(), chain) >= fs.geo.nFatent
    {
      hide Volume.Valid, Volume.View, Sectors, Sound, WellFormed, OnDisk, LinkMap.Describes, InFat, SameBut,
        Volume.Snap;
      fs.Facts();
      if j < |chain| { ChainEntry(fs.Table(), chain, j); }
      v := fs.GetFat(cl);
      if v != DISK_ERROR { VolumeKept(); SectsHigh(); fs.SnapData(Sects()); }
    }

    /** Follow the FAT from cluster i of the chain to the end of the contiguous fragment that starts there. */
    method ScanFragment(ghost i: nat, top: nat) returns (res: FResult, ncl: nat, cl: nat)
      requires i < |chain| && top == chain[i]
      requires Base()
      modifies fs.dev`sectors, fs.win, fs`wflag, fs`winsect
      ensures fs.Framed()
      ensures res == FR_OK || (res == FR_DISK_ERR && !fs.dev.reliable)
        || (res == FR_INT_ERR && MarkFollows(old(fs.Table()), chain))
      ensures res == FR_OK ==> Base() && fs.Table() == old(fs.Table())
      ensures res == FR_OK ==> Confined()
      ensures res == FR_OK ==> LinkMap.RunAt(chain, i, ncl, top) && LinkMap.Follows(chain, i, ncl, cl, fs.geo.nFatent)
      ensures res == FR_OK && i + ncl == |chain| ==> !MarkFollows(fs.Table(), chain)
    {
      hide Base, Volume.Valid, Volume.Table, Sectors, Sound, OnDisk, Holds, Image, Distinct, Within, Path, LastLink,
        SameBut, Volume.Snap;
      cl, ncl := top, 0;
      ghost var t := fs.Table();
      BaseFacts();
      fs.SnapSelf(Sects());
      while true
        invariant Base() && fs.Table() == t && fs.Framed() && fs.geo == old(fs.geo)
        invariant Confined()
        invariant LinkMap.RunAt(chain, i, ncl, top)
        invariant if i + ncl < |chain| then cl == chain[i + ncl] else fs.geo.nFatent <= cl && MarkFollows(t, chain)
        invariant cl == top + ncl < 0x1_0000_0000
        decreases |chain| - (i + ncl)
      {
        var pcl := cl;
        ghost var shot := fs.Snap();
        cl := NextOf(i + ncl, cl);
        if cl == DISK_ERROR { return FR_DISK_ERR, ncl, cl; }
        if cl <= 1 { return FR_INT_ERR, ncl, cl; }
        SameButTrans(old(fs.Snap()), shot, fs.Snap(), Sects(), Sects());
        ncl := ncl + 1;
        if cl != pcl + 1 { return FR_OK, ncl, cl; }
      }
    }

    /** Store length and top of a fragment in the table. */
    method StorePair(next: nat, ncl: nat, tcl: nat)
      requires cltbl != null && next + 1 < cltbl.Length && !built
      requires Base()
      modifies cltbl
      ensures cltbl[..] == old(cltbl[..])[next := ncl][next + 1 := tcl]
      ensures Base() && fs.Table() == old(fs.Table())
    {
      hide Base, Volume.Valid, Volume.Table, Volume.View;
      cltbl[next], cltbl[next + 1] := ncl, tcl;
      TableTouched();
    }

    /** The fragments of the chain, stored as far as tlen items allow; ulen items are needed. */
    method StoreFragments(tlen: nat) returns (res: FResult, ulen: nat, next: nat)
      requires cltbl != null && tlen <= cltbl.Length && !built
      requires Base()
      modifies cltbl, fs.dev`sectors, fs.win, fs`wflag, fs`winsect
      ensures fs.Framed()
      ensures res == FR_OK || (res == FR_DISK_ERR && !fs.dev.reliable) || res == FR_INT_ERR
      ensures res != FR_DISK_ERR ==> (res == FR_INT_ERR <==> MarkFollows(old(fs.Table()), chain))
      ensures res == FR_OK ==> Base() && fs.Table() == old(fs.Table())
      ensures res == FR_OK ==> Confined()
      ensures res == FR_OK ==> LinkMap.Progress(cltbl[..], tlen, chain, |chain|, ulen, next)
    {
      hide Base, Volume.Valid, Volume.Table, Sectors, Sound, OnDisk, Holds, Image, Distinct, Within, Path, LastLink,
        LinkMap.Stored, LinkMap.Fragments, SameBut, Volume.Snap;
      next, ulen := 1, 2;
      BaseFacts();
      fs.SnapSelf(Sects());
      BaseStart();
      ghost var t, i := fs.Table(), 0;
      LinkMap.ProgressStart(cltbl[..], tlen, chain);
      var cl := sclust;
      if cl != 0 {
        while true
          invariant Base() && fs.Table() == t && fs.Framed() && fs.geo == old(fs.geo)
          invariant Confined()
          invariant i < |chain| && cl == chain[i] && (i > 0 ==> chain[i - 1] + 1 != cl)
          invariant LinkMap.Progress(cltbl[..], tlen, chain, i, ulen, next)
          decreases |chain| - i
        {
          ghost var tbl, shot := cltbl[..], fs.Snap();
          var tcl := cl;
          var ncl;
          res, ncl, cl := ScanFragment(i, tcl);
          if res != FR_OK { return; }
          SameButTrans(old(fs.Snap()), shot, fs.Snap(), Sects(), Sects());
          ulen := ulen + 2;
          assert cltbl[..] == tbl;
          ghost var next0 := next;
          if ulen <= tlen {
            StorePair(next, ncl, tcl);
            next := next + 2;
          }
          LinkMap.ProgressStep(tbl, cltbl[..], tlen, chain, i, ulen - 2, next0, ncl, tcl, next);
          i := i + ncl;
          if cl >= fs.geo.nFatent { break; }
        }
      }
      return FR_OK, ulen, next;
    }

    /** Record the number of items used, and terminate the table if it was large enough. */
    method FinishTable(tlen: nat, ulen: nat, next: nat) returns (res: FResult)
      requires cltbl != null && 0 < cltbl.Length && tlen <= cltbl.Length && !built
      requires LinkMap.Progress(cltbl[..], tlen, chain, |chain|, ulen, next)
      requires Base()
      modifies cltbl, `built, `mapped
      ensures cltbl != null && cltbl.Length == old(cltbl.Length) && cltbl[0] == LinkMap.ItemsNeeded(chain)
      ensures res == if LinkMap.ItemsNeeded(chain) <= tlen then FR_OK else FR_NOT_ENOUGH_CORE
      ensures res == FR_OK ==> built && mapped == |chain|
      ensures Base() && fs.Table() == old(fs.Table())
    {
      hide Base, Volume.Valid, Volume.Table, Volume.View, LinkMap.Progress, LinkMap.Describes, LinkMap.Fragments;
      ghost var tbl := cltbl[..];
      LinkMap.ProgressBounds(tbl, tlen, chain, ulen, next);
      cltbl[0] := ulen;
      res := FR_OK;
      if ulen <= tlen {
        cltbl[next] := 0;
        LinkMap.ProgressEnd(tbl, tlen, chain, ulen, next);
        assert cltbl[..] == tbl[0 := ulen][next := 0];
        built, mapped := true, |chain|;
        assert chain[..|chain|] == chain;
      } else {
        res := FR_NOT_ENOUGH_CORE;
      }
      TableTouched();
    }

    /** f_lseek with CREATE_LINKMAP: fill in the attached table, whose first item tells its size. */
    method CreateLinkMap() returns (res: FResult)
      requires cltbl != null && 0 < cltbl.Length && cltbl[0] <= cltbl.Length
      requires Open()
      modifies cltbl, `built, `mapped, `error, fs.dev`sectors, fs.win, fs`wflag, fs`winsect
      ensures res == FR_OK || res == FR_NOT_ENOUGH_CORE || (res == FR_DISK_ERR && !fs.dev.reliable && error)
        || (res == FR_INT_ERR && error)
      ensures res != FR_DISK_ERR ==> (res == FR_INT_ERR <==> MarkFollows(old(fs.Table()), chain))
      // the table fits exactly when its declared size suffices
      ensures !error <==> res == FR_OK || res == FR_NOT_ENOUGH_CORE
      ensures !error ==> cltbl != null && 0 < cltbl.Length && cltbl[0] == LinkMap.ItemsNeeded(chain)
      ensures !error ==> (res == FR_OK <==> LinkMap.ItemsNeeded(chain) <= old(cltbl[0]))
      ensures !error ==> Open() && Confined() && fs.Table() == old(fs.Table())
      ensures res == FR_OK ==> Valid() && built && mapped == |chain|
    {
      hide Base, Volume.Valid, Volume.Table, Sectors, Sound, OnDisk, Holds, Image, Distinct, Within, Path, MarkFollows,
        LinkMap.Progress, LinkMap.Describes, LinkMap.Fragments, Positioned, SameBut, Volume.Snap;
      built := false;
      TableTouched();
      label Cleared:
      var tlen := cltbl[0];
      var ulen, next;
      res, ulen, next := StoreFragments(tlen);
      if res != FR_OK {
        error := true;
        return;
      }
      res := FinishTable(tlen, ulen, next);
    }

    // ----- f_lseek -----

    const CREATE_LINKMAP: nat := 0xFFFF_FFFF

    /** The call asks for the link map to be built. */
    predicate Mapping(ofs: nat)
      reads `cltbl
    {
      cltbl != null && ofs == CREATE_LINKMAP
    }

    /** Building the map: whether it fits, and when the end mark of the chain gets in the way. */
    twostate predicate MapBuilt(res: FResult)
      reads this, cltbl, fs, fs.win, fs.dev
    {
      && old(fs.Valid()) && chain == old(chain) && cltbl != null && cltbl == old(cltbl) && cltbl.Length > 0
      && res in {FR_OK, FR_NOT_ENOUGH_CORE, FR_INT_ERR, FR_DISK_ERR} && (res == FR_DISK_ERR ==> !fs.dev.reliable)
      && (res != FR_DISK_ERR ==> (res == FR_INT_ERR <==> MarkFollows(old(fs.Table()), chain)))
      && (res == FR_OK || res == FR_NOT_ENOUGH_CORE ==>
            !error && cltbl[0] == LinkMap.ItemsNeeded(chain) && (res == FR_OK <==> LinkMap.ItemsNeeded(chain) <= old(cltbl[0])))
    }

    /** f_lseek: build the link map, or move the file position by it or by the FAT. */
    method Seek(ofs: Dword) returns (res: FResult)
      requires Mapping(ofs) ==> 0 < cltbl.Length && cltbl[0] <= cltbl.Length
      requires error || (Open() && (Searchable() || Mapping(ofs)))
      modifies `chain, `sclust, `clust, `dirty, `dsect, `pos, `data, `fptr, `fsize, `written, `error, `built,
        `mapped, buf, cltbl, fs.dev`sectors, fs.win, fs`wflag, fs`winsect, fs`log, fs`freeClust, fs`fsiFlag, fs`lastClust,
        fs`strayed
      ensures Refusal(old(error), true) != FR_OK ==> res == Refusal(old(error), true) && Untouched()
      ensures Refusal(old(error), true) == FR_OK && fs.dev.reliable ==> !fs.strayed
      ensures Refusal(old(error), true) == FR_OK && fs.strayed ==> !Mapping(ofs) && cltbl == null
      ensures !fs.strayed ==> fs.LoggedWellFormed()
      ensures Refusal(old(error), true) == FR_OK && res == FR_OK ==> Searchable()
      ensures !Mapping(ofs) ==> built == old(built) && mapped == old(mapped)
      ensures Refusal(old(error), true) == FR_OK && !Mapping(ofs) ==>
        || res == FR_OK
        || (res == FR_DISK_ERR && !fs.dev.reliable && error)
        || (res == FR_INT_ERR && error &&
             if cltbl == null then fs.strayed || (old(fs.Valid()) && HasOne(old(fs.Table()))) else Unmapped() && fptr <= old(fsize))
      ensures Refusal(old(error), true) == FR_OK && res == FR_OK && !fs.strayed ==>
        fsize == if fptr > old(fsize) then fptr else old(fsize)
      // a file that grew has to be synchronised, and clusters are added only to one that grows
      ensures Refusal(old(error), true) == FR_OK && res == FR_OK && !fs.strayed ==>
        && (written <==> old(written) || fsize > old(fsize))
        && (fsize == old(fsize) ==> chain == old(chain))
      ensures Refusal(old(error), true) == FR_OK && Mapping(ofs) ==> MapBuilt(res)
      ensures Refusal(old(error), true) == FR_OK && Mapping(ofs) && res == FR_OK ==>
        fptr == old(fptr) && data == old(data) && chain == old(chain) && built && mapped == |chain|
      ensures Refusal(old(error), true) == FR_OK && !Mapping(ofs) && res == FR_OK && !fs.strayed ==> old(data) <= data
      ensures Refusal(old(error), true) == FR_OK && !Mapping(ofs) && res == FR_OK && !fs.strayed ==>
        Arrived(old(Target(ofs)))
      ensures Refusal(old(error), true) == FR_OK && !Mapping(ofs) && res == FR_OK && !fs.strayed && ofs <= old(fsize) ==>
        fptr == ofs
      // on a sector boundary the buffer is left with the sector it holds
      ensures res == FR_OK && (Mapping(ofs) || fptr % 512 == 0) ==> dsect == old(dsect) && pos == old(pos)
      ensures Refusal(old(error), true) == FR_OK && res == FR_OK && !fs.strayed ==> Confined()
      ensures Refusal(old(error), true) == FR_OK && res == FR_OK && !fs.strayed ==> Valid()
      ensures Refusal(old(error), true) == FR_OK && res == FR_OK && !fs.strayed ==>
        Extends(old(fs.Table()), old(chain), fs.Table(), chain)
    {
      hide Base, Volume.Valid, Volume.Table, Sectors, OnDisk, Holds, Image, Distinct, Within, Sound, Positioned,
        Extends, HasOne, MarkFollows, LinkMap.ItemsNeeded, Full, ClusterIndex, Unmapped, SameBut, Volume.Snap;
      res := Validate();
      if res != FR_OK { return; }
      if error { return FR_INT_ERR; }
      if cltbl != null {
        ExtendsSame(fs.Table(), chain);
        if ofs == CREATE_LINKMAP {
          res := CreateLinkMap();
        } else {
          res := SeekFast(ofs);
        }
      } else {
        res := SeekNormal(ofs);
      }
    }

    /**
     * The link map and the FAT lead to the same place: in either mode, the current cluster is the one that
     * following the FAT from the start cluster arrives at, and inside a sector the buffer holds that sector.
     */
    lemma PositionFollowsFat()
      requires 0 < fptr && Positioned(fptr)
      requires Base()
      ensures clust == Follow(fs.Table(), sclust, ClusterIndex(fs.geo, (fptr - 1) / 512))
      ensures fptr % 512 != 0 ==>
        clust < 0x1_0000_0000 && dsect == Clust2Sect(fs.geo, clust) + SectorInCluster(fs.geo, fptr / 512)
    {
      hide Volume.Valid, Volume.Table, Sectors, Sound, OnDisk, Holds, Image, Distinct, Within, Span, Clust2Sect,
        ClusterIndex, SectorInCluster;
      BaseFacts();
      BaseStart();
      var c := ClusterIndex(fs.geo, (fptr - 1) / 512);
      FollowChain(fs.Table(), chain, c);
      if fptr % 512 != 0 {
        assert (fptr - 1) / 512 == fptr / 512;
        SectorAt(fs.geo, chain, fptr / 512);
      }
    }

    // ----- f_sync -----

    /** The sector of the directory entry is not one of the file. */
    lemma EntrySectorApart()
      requires Base()
      ensures dirSect !in Sects() && 0 < dirSect < |fs.dev.sectors| == |fs.View()| && dirPtr + 32 <= 512
      ensures !IsMirror(fs.geo, dirSect) && !InFat(fs.geo, dirSect) && fs.geo.fatbase < dirSect && !fs.IsFsInfo(dirSect)
    {
      hide Volume.Valid, Volume.Table, Sectors, OnDisk, WellFormed, Holds, Chain, InBlock, Clust2Sect, ClusterIndex,
        IsPow2;
      fs.Facts();
      ChainFacts();
      if k :| 0 <= k < |Sects()| && Sects()[k] == dirSect {
        SectorInBlock(fs.geo, chain, k, |fs.dev.sectors|);
        BlocksDisjoint(fs.geo, chain[ClusterIndex(fs.geo, k)], dirClust, dirSect, |fs.dev.sectors|);
      }
    }

    /** Size, start cluster, times and the archive bit go to the directory entry in the window. */
    method UpdateEntry(tim: Dword)
      requires fs.Valid() && fs.winsect == dirSect && dirPtr + 32 <= 512 && fs.geo.fatbase <= dirSect
      requires !InFat(fs.geo, dirSect) && fsize < 0x1_0000_0000 && sclust < 0x1_0000_0000
      modifies fs.win, fs`wflag
      ensures fs.Valid() && fs.wflag && fs.Table() == old(fs.Table())
      ensures fs.win[..] == DirEntry.Touched(old(fs.win[..]), dirPtr, fsize, sclust, tim)
      ensures fs.View() == old(fs.View())[dirSect := fs.win[..]]
    {
      hide Volume.Valid, Volume.Table, Overlay, StWord, StDword, Sound;
      fs.Facts();
      fs.WindowByte(dirPtr + 11, DirEntry.Archived(fs.win[dirPtr + 11]));
      fs.WindowDword(dirPtr + 28, fsize);
      fs.WindowWord(dirPtr + 26, sclust);
      fs.WindowWord(dirPtr + 20, sclust / 0x1_0000);
      fs.WindowDword(dirPtr + 22, tim);
      fs.WindowWord(dirPtr + 18, 0);
      fs.EditedElsewhere();
    }

    /** What the drive alone shows, without any buffer: the contents, the FAT, and the directory entry of the file. */
    ghost predicate Persistent()
      reads `chain, `data, `fsize, `sclust, fs, fs.win, fs.dev
    {
      && fs.Valid() && !fs.wflag
      && FatTable.FatOf(fs.geo, fs.dev.sectors) == fs.Table()
      && Holds(fs.dev.sectors, Sects(), data)
      && EntryShown(fs.geo.fsType, fs.dev.sectors, fsize, sclust)
    }

    /** The directory entry of the file, as it lies on the drive. */
    ghost predicate EntryShown(t: FsType, d: seq<Sector>, size: nat, start: nat)
    {
      && dirSect < |d| && dirPtr + 32 <= 512
      && DirEntry.FileSize(d[dirSect], dirPtr) == size && DirEntry.LdClust(t, d[dirSect], dirPtr) == start
    }

    /** Frame of f_sync: besides the file's own sectors, the entry's sector and a written-back window. */
    twostate predicate Synced()
      reads `chain, fs, fs.dev
    {
      && |fs.dev.sectors| == |old(fs.dev.sectors)| && fs.geo == old(fs.geo)
      && (fs.winsect == old(fs.winsect) || fs.winsect == 0 || fs.winsect == dirSect)
      && forall s :: fs.geo.database <= s < |fs.dev.sectors| && s !in Sects() && s != old(fs.winsect) && s != dirSect ==>
           fs.dev.sectors[s] == old(fs.dev.sectors)[s]
    }
    /** In the view, only the file's own sectors, the entry and the FSInfo sector changed. */
    twostate predicate OnlyEntry()
      reads `chain, fs, fs.win, fs.dev
    {
      old(fs.Valid()) && fs.Valid() && fs.geo == old(fs.geo) && EntryAlone(fs.geo, old(fs.View()), fs.View(), Sects())
    }

    ghost predicate EntryAlone(g: Geometry, v0: seq<Sector>, v1: seq<Sector>, s: seq<nat>)
    {
      && |v1| == |v0|
      && (forall k :: 0 <= k < |v0| && !InFat(g, k) && !IsMirror(g, k) && !IsInfo(g, k) && k != dirSect && k !in s ==>
           v1[k] == v0[k])
      && dirSect < |v0| && SameAround(v0[dirSect], v1[dirSect])
    }

    predicate IsInfo(g: Geometry, s: nat)
    {
      g.fsType == Fat32 && s == g.fsiSector
    }

    lemma AloneAfter(g: Geometry, v0: seq<Sector>, v1: seq<Sector>, v2: seq<Sector>, s: seq<nat>)
      requires SameElsewhere(g, v0, v1, s) && dirSect !in s && !InFat(g, dirSect) && dirSect < |v0|
      ensures EntryAlone(g, v0, v1, s)
      ensures EntryAlone(g, v1, v2, s) ==> EntryAlone(g, v0, v2, s)
    {
    }

    /** Outside the entry its sector is the same. */
    ghost predicate SameAround(a: Sector, b: Sector)
    {
      forall i :: 0 <= i < 512 && !(dirPtr <= i < dirPtr + 32) ==> b[i] == a[i]
    }

    lemma StartFits()
      requires Base()
      ensures sclust < 0x1_0000_0000 && (fs.geo.fsType != Fat32 ==> sclust < 0x1_0000)
    {
      hide Volume.Valid, Volume.Table, Sectors, OnDisk, Holds, Chain, IsPow2, Sound;
      fs.Facts();
      BaseStart();
      ChainFacts();
    }

    /** Bring the sector of the directory entry into the window. */
    method ToEntry() returns (res: FResult)
      requires Base()
      modifies fs.dev`sectors, fs.win, fs`wflag, fs`winsect
      ensures res == FR_OK || (res == FR_DISK_ERR && !fs.dev.reliable)
      ensures Synced()
      ensures fs.winsect == if res == FR_OK then dirSect else old(fs.winsect)
      ensures res == FR_OK ==> Base() && fs.View() == old(fs.View()) && fs.Table() == old(fs.Table())
    {
      hide Volume.Valid, Volume.View, Sectors, OnDisk, WellFormed, Holds, Chain, Base, Within, Distinct,
        LinkMap.Describes, Overlay, IsPow2;
      fs.Facts();
      EntrySectorApart();
      res := fs.MoveWindow(dirSect);
      if res == FR_OK { VolumeKept(); }
    }

    /** Everything cached on the volume goes to the drive. */
    method SyncVolume() returns (res: FResult)
      requires !dirty
      requires Base()
      modifies fs.dev`sectors, fs.win, fs`wflag, fs`fsiFlag, fs`winsect
      ensures fs.Framed() && (fs.winsect == old(fs.winsect) || fs.winsect == 0)
      ensures res == FR_OK || (res == FR_DISK_ERR && !fs.dev.reliable)
      ensures res == FR_OK ==> Base() && fs.Table() == old(fs.Table()) && !fs.wflag
      ensures res == FR_OK ==> FatTable.FatOf(fs.geo, fs.dev.sectors) == fs.Table()
      ensures res == FR_OK ==> Holds(fs.dev.sectors, Sects(), data)
      ensures res == FR_OK ==> fs.dev.sectors[dirSect] == old(fs.View())[dirSect]
      ensures res == FR_OK && fs.dev.reliable && old(fs.Valid() && fs.Tallied()) ==> fs.Valid() && fs.Tallied()
      ensures res == FR_OK && fs.geo.fsType == Fat32 ==> !fs.fsiFlag
      ensures res == FR_OK ==> |fs.View()| == |old(fs.View())| && forall s ::
        0 <= s < |fs.View()| && !IsMirror(fs.geo, s) && !fs.IsFsInfo(s) ==> fs.View()[s] == old(fs.View())[s]
    {
      hide Volume.Valid, Volume.Table, Sectors, OnDisk, WellFormed, Holds, Chain, Base, Within, Distinct,
        LinkMap.Describes, Overlay, IsPow2, FatTable.FatOf;
      fs.Facts();
      EntrySectorApart();
      res := fs.Sync();
      if res == FR_OK {
        VolumeKept();
        fs.FlushedTable();
        BaseFacts();
        CleanImage(fs.dev.sectors, Sects(), dsect, pos, buf[..], data);
      }
    }

    /** The directory entry is brought up to date, then everything is written out. */
    method SyncEntry(tim: Dword) returns (res: FResult)
      requires !dirty && fsize < 0x1_0000_0000
      requires Base()
      modifies `written, fs.dev`sectors, fs.win, fs`wflag, fs`fsiFlag, fs`winsect
      ensures res == FR_OK || (res == FR_DISK_ERR && !fs.dev.reliable)
      ensures Synced()
      ensures res == FR_OK ==> !written && Base() && fs.Table() == old(fs.Table())
      ensures res == FR_OK && fs.dev.reliable && old(fs.Valid() && fs.Tallied()) ==> fs.Valid() && fs.Tallied()
      ensures res == FR_OK && fs.geo.fsType == Fat32 ==> !fs.fsiFlag
      ensures res == FR_OK ==> Persistent() && OnlyEntry()
    {
      hide DirEntry.FileSize, DirEntry.LdClust, InFat, Volume.Tallied, Volume.Valid, Volume.Table, Sectors, OnDisk,
        WellFormed, Holds, Chain, Base, Within, Distinct, StWord, StDword, DirEntry.Touched, LinkMap.Describes, Overlay,
        FatTable.FatOf, Sound;
      EntrySectorApart();
      StartFits();
      BaseFacts();
      res := ToEntry();
      if res != FR_OK { return; }
      BaseFacts();
      fs.TalliedSame();
      label Moved:
      UpdateEntry(tim);
      fs.TalliedEdited@Moved(dirSect);
      VolumeKept@Moved();
      written := false;
      DirEntry.TouchedFields(fs.geo.fsType, old@Moved(fs.win[..]), dirPtr, fsize, sclust, tim);
      res := SyncVolume();
    }

    /** f_sync: write the buffer back, bring the directory entry up to date, and flush the volume. */
    method Sync(tim: Dword) returns (res: FResult)
      requires Open()
      modifies `dirty, `written, fs.dev`sectors, fs.win, fs`wflag, fs`fsiFlag, fs`winsect
      ensures Validate() != FR_OK ==> res == Validate() && unchanged(this)
      ensures Validate() == FR_OK ==> res == FR_OK || (res == FR_DISK_ERR && !fs.dev.reliable)
      ensures Synced()
      // nothing is done for a file that was not changed
      ensures !old(written) ==> unchanged(this) && unchanged(buf) && unchanged(fs) && unchanged(fs.win) && unchanged(fs.dev)
      ensures res == FR_OK ==> OnlyEntry()
      ensures res == FR_OK ==> !dirty && !written && Open() && fs.Table() == old(fs.Table())
      // on FAT32 a known count of free clusters is stored as well
      ensures res == FR_OK && fs.dev.reliable && old(fs.Valid() && fs.Tallied()) ==> fs.Valid() && fs.Tallied()
      ensures res == FR_OK && old(written) && fs.geo.fsType == Fat32 ==> !fs.fsiFlag
      ensures res == FR_OK && old(written) ==> Persistent()
    {
      hide Base, Volume.Valid, Volume.Table, Sectors, OnDisk, Holds, Positioned, Persistent, SameBut, Volume.Snap,
        Volume.View, EntryAlone, SameElsewhere, Sound;
      res := Validate();
      EntrySectorApart();
      BaseFacts();
      fs.SnapSelf(Sects());
      fs.SnapView(Sects());
      AloneAfter(fs.geo, fs.View(), fs.View(), fs.View(), Sects());
      if res == FR_OK && written {
        if dirty {
          var ok := Flush();
          if !ok { return FR_DISK_ERR; }
          fs.SnapView(Sects());
        }
        ghost var v := fs.View();
        res := SyncEntry(tim);
        AloneAfter(fs.geo, old(fs.View()), v, fs.View(), Sects());
      }
    }

    // ----- two files on one volume -----

    ghost predicate Disjoint(p: seq<nat>, q: seq<nat>)
    {
      forall i, j :: 0 <= i < |p| && 0 <= j < |q| ==> p[i] != q[j]
    }

    /** Files without a common cluster have no common sector. */
    lemma DisjointSectors(p: seq<nat>, q: seq<nat>)
      requires fs.Valid() && Disjoint(p, q) && AllClusters(fs.geo, p) && AllClusters(fs.geo, q)
      ensures forall i, j :: 0 <= i < |Sectors(fs.geo, p)| && 0 <= j < |Sectors(fs.geo, q)| ==>
        Sectors(fs.geo, p)[i] != Sectors(fs.geo, q)[j]
    {
      hide Volume.Valid, Sectors, IsPow2, EndSector, Span, InBlock, ClusterIndex;
      fs.Facts();
      var n := |fs.dev.sectors|;
      forall i, j | 0 <= i < |Sectors(fs.geo, p)| && 0 <= j < |Sectors(fs.geo, q)|
        ensures Sectors(fs.geo, p)[i] != Sectors(fs.geo, q)[j]
      {
        SectorInBlock(fs.geo, p, i, n);
        SectorInBlock(fs.geo, q, j, n);
        if Sectors(fs.geo, p)[i] == Sectors(fs.geo, q)[j] {
          BlocksDisjoint(fs.geo, p[ClusterIndex(fs.geo, i)], q[ClusterIndex(fs.geo, j)], Sectors(fs.geo, p)[i], n);
        }
      }
    }

    /** The clusters of another file stay as they were while this file grew from chain c0 to c1. */
    lemma OtherChain(t0: Fat, c0: seq<nat>, t1: Fat, c1: seq<nat>, q: seq<nat>)
      requires Extends(t0, c0, t1, c1) && Disjoint(c0, q) && (q == [] || Chain(t0, q))
      ensures Disjoint(c1, q) && (q == [] || Chain(t1, q))
    {
      forall i, j | 0 <= i < |c1| && 0 <= j < |q|
        ensures c1[i] != q[j]
      {
        ChainEntry(t0, q, j);
        if i < |c0| { assert c1[i] == c0[i]; }
      }
      if q != [] {
        forall j | 0 <= j < |q|
          ensures IsCluster(t0, q[j]) && t1[q[j]] == t0[q[j]]
        {
          ChainEntry(t0, q, j);
          assert q[j] !in c1;
        }
        ChainFrame(t0, t1, q);
      }
    }

    /** The cluster of another file's directory entry stays occupied and apart. */
    lemma OtherEntry(g: File, t0: Fat, c0: seq<nat>, t1: Fat, c1: seq<nat>)
      requires Extends(t0, c0, t1, c1) && (c1 == [] || Chain(t1, c1))
      requires g.EntryOwned(fs.geo, t0, g.chain) && fs.geo.nFatent == |t1|
      ensures g.EntryOwned(fs.geo, t1, g.chain)
    {
      hide Clust2Sect;
      if g.dirSect >= fs.geo.database {
        var d := g.dirClust as nat;
        if d in c1 {
          var i :| 0 <= i < |c1| && c1[i] == d;
          ChainEntry(t1, c1, i);
        } else {
          assert IsCluster(t0, d);
        }
      }
    }

    /** The bytes of the directory entry. */
    ghost function EntryBytes(): seq<Byte>
      reads fs, fs.win, fs.dev
      requires fs.Valid()
    {
      EntryIn(fs.View())
    }

    ghost function EntryIn(v: seq<Sector>): seq<Byte>
    {
      if dirSect < |v| && dirPtr + 32 <= 512 then v[dirSect][dirPtr..dirPtr + 32] else []
    }

    /** What an open file g needs of an operation it has no part in. */
    twostate lemma Aside(g: File)
      requires g.fs == fs && unchanged(g) && unchanged(g.buf) && (g.cltbl != null ==> unchanged(g.cltbl))
      requires fs.Valid() && !fs.strayed && fs.geo == old(fs.geo) && WellFormed(fs.Table()) && |fs.View()| == |old(fs.View())|
      requires forall k :: 0 <= k < |g.Sects()| ==>
        g.Sects()[k] < |fs.View()| && g.Sects()[k] != fs.winsect && fs.View()[g.Sects()[k]] == old(fs.View())[g.Sects()[k]]
      requires g.chain == [] || Chain(fs.Table(), g.chain)
      requires g.EntryOwned(fs.geo, fs.Table(), g.chain)
      requires old(g.Base())
      ensures g.Base()
    {
      hide Volume.Valid, Volume.Table, Sectors, OnDisk, Holds, WellFormed, IsPow2, Path,
        LinkMap.Describes, Distinct, Clust2Sect, EntryOwned, Sound;
      fs.Facts();
      assert old(g.OwnChain());
      assert g.OwnChain();
      g.ChainFacts();
      assert g.buf[..] == old(g.buf[..]) && g.Sects() == old(g.Sects());
      KeepImage(old(fs.dev.sectors), fs.dev.sectors, g.Sects(), g.dsect, g.pos, g.buf[..], g.dirty, g.data);
    }

    /** The sectors of files without a common cluster, as one quantifier. */
    lemma ApartSectors(g: File)
      requires g.fs == fs && fs.Valid() && Disjoint(chain, g.chain)
      requires buf.Length == 512 && WellFormed(fs.Table()) && OwnChain() && g.buf.Length == 512 && g.OwnChain()
      ensures forall k :: 0 <= k < |g.Sects()| ==>
        g.Sects()[k] !in Sects() && fs.geo.database <= g.Sects()[k] < |fs.View()|
    {
      hide Volume.Valid, Volume.Table, Sectors, WellFormed, IsPow2, Path, Chain, Clust2Sect, Sound;
      fs.Facts();
      ChainFacts();
      g.ChainFacts();
      DisjointSectors(chain, g.chain);
    }

    /** The sector of g's entry is no sector of this file, if its cluster is none of this file's. */
    lemma EntryOff(g: File)
      requires g.fs == fs && fs.Valid() && WellFormed(fs.Table()) && buf.Length == 512 && OwnChain()
      requires g.EntryApart() && g.EntryOwned(fs.geo, fs.Table(), chain)
      ensures g.dirSect !in Sects() && g.dirSect < |fs.View()| && !IsMirror(fs.geo, g.dirSect) && !InFat(fs.geo, g.dirSect)
      ensures !IsInfo(fs.geo, g.dirSect) && g.dirPtr + 32 <= 512
    {
      hide Volume.Valid, Volume.Table, Sectors, WellFormed, Chain, InBlock, Clust2Sect, ClusterIndex, IsPow2;
      fs.Facts();
      ChainFacts();
      if k :| 0 <= k < |Sects()| && Sects()[k] == g.dirSect {
        SectorInBlock(fs.geo, chain, k, |fs.dev.sectors|);
        BlocksDisjoint(fs.geo, chain[ClusterIndex(fs.geo, k)], g.dirClust, g.dirSect, |fs.dev.sectors|);
      }
    }

    /**
     * An operation on this file that moves, reads, writes or seeks leaves every other open file as it was, and
     * the bytes of its directory entry.
     */
    twostate lemma Undisturbed(g: File)
      requires g.fs == fs && unchanged(g) && unchanged(g.buf) && (g.cltbl != null ==> unchanged(g.cltbl))
      requires Disjoint(old(chain), g.chain) && Confined()
      requires old(Base()) && old(g.Base())
      requires Base() && Extends(old(fs.Table()), old(chain), fs.Table(), chain)
      ensures g.Base() && Disjoint(chain, g.chain)
      ensures old(g.EntryOwned(fs.geo, fs.Table(), chain)) ==>
        g.EntryOwned(fs.geo, fs.Table(), chain) && g.EntryBytes() == old(g.EntryBytes())
    {
      hide Volume.Valid, Volume.Table, Volume.View, Sectors, OnDisk, Holds, WellFormed, IsPow2, Disjoint, Extends, Path,
        LinkMap.Describes, Distinct, Clust2Sect, EntryOwned, Sound, SameBut, Volume.Snap;
      fs.Facts();
      assert old(g.OwnChain());
      OtherChain(old(fs.Table()), old(chain), fs.Table(), chain, g.chain);
      assert OwnChain();
      assert g.OwnChain();
      OtherEntry(g, old(fs.Table()), old(chain), fs.Table(), chain);
      ApartSectors(g);
      fs.SnapView(Sects());
      Aside(g);
      if old(g.EntryOwned(fs.geo, fs.Table(), chain)) {
        OwnedStill(g, old(fs.Table()), old(chain), fs.Table(), chain);
        EntryOff(g);
      }
    }

    /** The cluster of g's entry is occupied, so this file does not grow into it. */
    lemma OwnedStill(g: File, t0: Fat, c0: seq<nat>, t1: Fat, c1: seq<nat>)
      requires Extends(t0, c0, t1, c1) && (c1 == [] || Chain(t1, c1)) && fs.geo.nFatent == |t1|
      requires g.EntryOwned(fs.geo, t0, c0)
      ensures g.EntryOwned(fs.geo, t1, c1)
    {
      hide Clust2Sect;
      if g.dirSect >= fs.geo.database {
        var d := g.dirClust as nat;
        assert IsCluster(t0, d);
      }
    }

    /** f_sync of this file leaves every other open file as it was, and the bytes of its entry if that is another one. */
    twostate lemma SyncUndisturbed(g: File)
      requires g.fs == fs && unchanged(g) && unchanged(g.buf) && (g.cltbl != null ==> unchanged(g.cltbl))
      requires unchanged(`chain) && unchanged(`sclust) && Disjoint(chain, g.chain)
      requires Synced() && OnlyEntry() && fs.Table() == old(fs.Table())
      requires old(Base()) && old(g.Base()) && Base()
      requires EntryOwned(fs.geo, fs.Table(), g.chain)
      ensures g.Base()
      ensures g.EntryOwned(fs.geo, fs.Table(), chain) ==>
        g.dirSect != dirSect || g.dirPtr + 32 <= dirPtr || dirPtr + 32 <= g.dirPtr ==>
        g.EntryBytes() == old(g.EntryBytes())
    {
      hide Volume.Valid, Volume.Table, Volume.View, Sectors, OnDisk, Holds, WellFormed, IsPow2, Disjoint, Path,
        LinkMap.Describes, Distinct, Clust2Sect, EntryOwned, Sound;
      fs.Facts();
      assert old(g.OwnChain());
      assert OwnChain();
      assert g.OwnChain();
      ApartSectors(g);
      g.EntryOff(this);
      g.ChainFacts();
      MirrorFree(g);
      Aside(g);
      assert g.EntryApart();
      if g.EntryOwned(fs.geo, fs.Table(), chain) {
        EntryOff(g);
      }
    }

    lemma MirrorFree(g: File)
      requires g.fs == fs && fs.Valid()
      ensures |fs.View()| == |fs.dev.sectors|
      ensures forall s :: fs.geo.database <= s ==> !InFat(fs.geo, s) && !IsMirror(fs.geo, s) && !fs.IsFsInfo(s) && s != 0
    {
      fs.Facts();
    }

    /** Clusters and directory cluster of g are none of those released. */
    lemma ReleasedOther(g: File, t0: Fat, c0: seq<nat>, t1: Fat, c1: seq<nat>)
      requires Released(t0, t1, c0, c1) && Disjoint(c0, g.chain) && (g.chain == [] || Chain(t0, g.chain))
      requires g.EntryOwned(fs.geo, t0, c0) && g.EntryOwned(fs.geo, t0, g.chain) && fs.geo.nFatent == |t0|
      ensures Disjoint(c1, g.chain) && (g.chain == [] || Chain(t1, g.chain))
      ensures g.EntryOwned(fs.geo, t1, g.chain)
    {
      hide Clust2Sect;
      assert forall i :: 0 <= i < |c1| ==> c1[i] == c0[i];
      assert forall x :: 0 <= x < |t0| && x !in c0 ==> t1[x] == t0[x];
      var q := g.chain;
      if q != [] {
        forall j | 0 <= j < |q|
          ensures IsCluster(t0, q[j]) && t1[q[j]] == t0[q[j]]
        {
          ChainEntry(t0, q, j);
          assert q[j] !in c0;
        }
        ChainFrame(t0, t1, q);
      }
      if g.dirSect >= fs.geo.database { assert g.dirClust as nat !in c0; }
    }

    /** f_truncate of this file leaves every other open file as it was, and the bytes of its directory entry. */
    twostate lemma TruncateUndisturbed(g: File)
      requires g.fs == fs && unchanged(g) && unchanged(g.buf) && (g.cltbl != null ==> unchanged(g.cltbl))
      requires Disjoint(old(chain), g.chain) && !fs.strayed && fs.FatOnly() && WellFormed(fs.Table())
      requires |fs.dev.sectors| == |old(fs.dev.sectors)| && (fs.winsect == old(fs.winsect) || fs.winsect < fs.geo.database)
      requires Released(old(fs.Table()), fs.Table(), old(chain), chain) && chain <= old(chain)
      requires old(g.EntryOwned(fs.geo, fs.Table(), chain))
      requires old(Base()) && old(g.Base())
      ensures g.Base() && Disjoint(chain, g.chain)
      ensures g.EntryBytes() == old(g.EntryBytes())
    {
      hide Volume.Valid, Volume.Table, Volume.View, Sectors, OnDisk, Holds, WellFormed, IsPow2, Path,
        LinkMap.Describes, Distinct, Clust2Sect, Sound, SameBut, Volume.Snap;
      fs.Facts();
      assert old(g.OwnChain());
      fs.SnapFat([]);
      fs.SnapView([]);
      ReleasedOther(g, old(fs.Table()), old(chain), fs.Table(), chain);
      assert g.OwnChain();
      g.ChainFacts();
      MirrorFree(g);
      Aside(g);
    }

    // ----- f_truncate -----

    /** The buffer does not stand for a sector the file has given up, and the link map does not describe one. */
    ghost predicate NothingLost()
      reads `dsect, `pos, `chain, `cltbl, `built, `mapped, cltbl, fs`geo
    {
      (dsect == 0 || pos < |Sects()|) && (cltbl != null && built ==> MapOk())
    }

    /** How many clusters f_truncate keeps. */
    ghost function Kept(): nat
      reads `fptr, `fsize, `chain, fs`geo
    {
      if fptr >= fsize then |chain| else Reached()
    }

    /** Clusters up to the file position. */
    ghost function Reached(): nat
      reads `fptr, fs`geo
    {
      if fptr == 0 || fs.geo.csize == 0 then 0 else ClusterIndex(fs.geo, (fptr - 1) / 512) + 1
    }

    /** The buffered sector is among the clusters kept, and the link map, if any, was built for just these. */
    ghost predicate Spared(n: nat)
      reads `dsect, `pos, `chain, `cltbl, `built, `mapped, fs`geo
    {
      && (dsect == 0 || pos < Span(fs.geo, n))
      && (cltbl != null && built ==> mapped == n || (mapped == 0 && n == 1))
    }

    /** What becomes of buffer and link map can be told beforehand. */
    twostate lemma LostExactly()
      requires unchanged(`dsect, `pos, `cltbl, `built, `mapped) && (cltbl != null ==> unchanged(cltbl)) && fs.geo == old(fs.geo)
      requires chain <= old(chain)
      requires old(Base())
      ensures var n := |chain|; NothingLost() <==> old(Spared(n))
    {
      hide Volume.Valid, Volume.Table, Sectors, WellFormed, Chain, LinkMap.Describes, Holds, Span;
      SectorsLength(fs.geo, chain);
      if cltbl != null && built {
        assert old(MapOk()) && cltbl[..] == old(cltbl[..]);
        if mapped <= |chain| { assert chain[..mapped] == old(chain)[..mapped]; }
      }
    }

    /** The chain was cut down from c0; t0, d0, w0 and data0 are from before. */
    lemma Shrunk(t0: Fat, c0: seq<nat>, d0: seq<Sector>, w0: nat, data0: seq<Byte>)
      requires buf.Length == 512 && buf != fs.win && (cltbl != null ==> cltbl as object != fs.win && cltbl as object != buf)
      requires |t0| == fs.geo.nFatent && chain <= c0 && w0 !in Sectors(fs.geo, c0)
      requires |data| <= |data0| && data == data0[..|data|]
      requires OnDisk(d0, Sectors(fs.geo, c0), dsect, pos, buf[..], dirty, data0)
      requires FatEnd(fs.geo) <= dirSect < |d0| == |fs.dev.sectors| && dirPtr + 32 <= 512 && EntryOwned(fs.geo, t0, c0)
      requires forall s :: fs.geo.database <= s < |d0| && s != w0 ==> fs.dev.sectors[s] == d0[s]
      requires forall k :: 0 <= k < |Sectors(fs.geo, c0)| ==> fs.geo.database <= Sectors(fs.geo, c0)[k] < |d0|
      requires fs.Valid() && !fs.strayed && WellFormed(fs.Table()) && (fs.winsect == w0 || fs.winsect < fs.geo.database)
      requires forall x :: 0 <= x < |t0| && x !in c0 ==> fs.Table()[x] == t0[x]
      requires OwnChain() && |data| <= 512 * |Sects()|
      ensures Base() <==> NothingLost()
    {
      hide Volume.Valid, Volume.Table, Volume.View, Sectors, Sound, OnDisk, Holds, WellFormed, Clust2Sect, Distinct,
        LinkMap.Describes;
      fs.Facts();
      ghost var s0 := Sectors(fs.geo, c0);
      SectorsPrefix(fs.geo, chain, c0);
      KeepImage(d0, fs.dev.sectors, s0, dsect, pos, buf[..], dirty, data0);
      ShrinkImage(fs.dev.sectors, s0, Sects(), dsect, pos, buf[..], dirty, data0, |data|);
    }

    /** f_truncate at position 0: give up the whole chain. */
    method DropChain() returns (res: FResult)
      requires chain != []
      requires Base()
      modifies `sclust, `chain, `data, fs.dev`sectors, fs.win, fs`wflag, fs`winsect, fs`log, fs`freeClust, fs`fsiFlag
      ensures res == FR_OK || (res == FR_DISK_ERR && !fs.dev.reliable)
      ensures fs.Framed() && fs.strayed == old(fs.strayed)
      ensures res == FR_OK ==> fs.FatOnly() && (fs.winsect == old(fs.winsect) || fs.winsect < fs.geo.database)
      ensures sclust == 0 && chain == [] && data == []
      ensures old(IsHead(fs.Table(), sclust)) ==> fs.LoggedWellFormed()
      ensures res == FR_OK ==> fs.Valid() && fs.CountKept()
      ensures res == FR_OK ==> Released(old(fs.Table()), fs.Table(), old(chain), [])
      ensures res == FR_OK ==> FreeCount(fs.Table()) == FreeCount(old(fs.Table())) + |old(chain)|
      ensures res == FR_OK && old(IsHead(fs.Table(), sclust)) ==> WellFormed(fs.Table())
      ensures res == FR_OK && old(IsHead(fs.Table(), sclust)) ==> (Base() <==> NothingLost())
    {
      hide Volume.Valid, Volume.Table, Volume.View, Sectors, Sound, OnDisk, Holds, WellFormed, Clust2Sect, Distinct,
        LinkMap.Describes, FreeCount, IsHead, RemoveFrom, EndsInOne, NothingLost, Path, AllWell, SameOutsideFat,
        SameBut, Volume.Snap;
      fs.Facts();
      BaseFacts();
      BaseStart();
      ghost var t0, c0, d0, w0, data0 := fs.Table(), chain, fs.dev.sectors, fs.winsect, data;
      RemoveChainExact(t0, chain);
      ChainEntry(t0, chain, 0);
      res := fs.RemoveChain(sclust);
      if res == FR_OK { fs.SnapTable(); }
      sclust := 0;
      chain, data := [], [];
      if res == FR_OK && IsHead(t0, c0[0]) {
        RemoveWellFormed(t0, c0[0]);
        Shrunk(t0, c0, d0, w0, data0);
      }
    }

    /** End the chain behind its cluster c, and free the clusters from ncl on. */
    method CutAt(ghost c: nat, ncl: nat) returns (res: FResult)
      requires c + 1 < |chain| && clust == chain[c] && ncl == chain[c + 1] < 0x1_0000_0000
      requires fs.Valid() && WellFormed(fs.Table()) && Chain(fs.Table(), chain) && clust < 0x1_0000_0000
      modifies fs.dev`sectors, fs.win, fs`wflag, fs`winsect, fs`log, fs`freeClust, fs`fsiFlag
      ensures res == FR_OK || (res == FR_DISK_ERR && !fs.dev.reliable)
      ensures fs.Framed() && (res == FR_OK ==> fs.winsect == old(fs.winsect) || fs.winsect < fs.geo.database)
      ensures fs.LoggedWellFormed()
      ensures res == FR_OK ==> fs.FatOnly()
      ensures res == FR_OK ==> fs.Valid() && fs.CountKept()
      ensures clust < |old(fs.Table())|
      ensures res == FR_OK ==> fs.Table() == Truncated(old(fs.Table()), chain, c, FatTable.EndMark(fs.geo.fsType))
    {
      hide Volume.Valid, Volume.View, Volume.Table, Sound, OnDisk, Holds, WellFormed, Clust2Sect, Distinct,
        FreeCount, IsHead, RemoveFrom, EndsInOne, Path, FatTable.PutEntry, SameBut, Volume.Snap;
      fs.Facts();
      ghost var t0, mark := fs.Table(), FatTable.EndMark(fs.geo.fsType);
      ChainEntry(t0, chain, c);
      FatTable.StoredValue(fs.geo.fsType, 0);
      CutFacts(t0, chain, c, mark);
      TruncatedExact(t0, chain, c, mark);
      res := fs.PutFat(clust, 0x0FFF_FFFF);
      if res == FR_OK {
        assert fs.Table() == t0[chain[c] := mark];
        res := fs.RemoveChain(ncl);
        if res == FR_OK { fs.SnapTable(); }
      }
    }

    /** f_truncate within the file: end the chain at the current cluster and give up the rest of it. */
    method DropTail(ghost c: nat) returns (res: FResult)
      requires c < |chain| && clust == chain[c]
      requires Base()
      modifies `chain, fs.dev`sectors, fs.win, fs`wflag, fs`winsect, fs`log, fs`freeClust, fs`fsiFlag
      ensures res == FR_OK || (res == FR_DISK_ERR && !fs.dev.reliable)
      ensures chain == old(chain)[..c + 1]
      ensures fs.Framed() && (res == FR_OK ==> fs.winsect == old(fs.winsect) || fs.winsect < fs.geo.database)
      ensures fs.LoggedWellFormed()
      ensures res == FR_OK ==> fs.FatOnly()
      ensures res == FR_OK ==> fs.Valid() && fs.CountKept()
      ensures res == FR_OK ==> WellFormed(fs.Table()) && Chain(fs.Table(), chain)
      ensures res == FR_OK ==> Released(old(fs.Table()), fs.Table(), old(chain), chain)
      ensures res == FR_OK ==> FreeCount(fs.Table()) == FreeCount(old(fs.Table())) + |old(chain)| - (c + 1)
    {
      hide Base, Volume.Valid, Volume.View, Sectors, Sound, OnDisk, Holds, WellFormed, Clust2Sect, Distinct,
        FreeCount, IsHead, Path, Image, Within, Truncated, Released, RemoveFrom, SameBut, Volume.Snap;
      BaseFacts();
      BaseWell();
      ghost var t0, c0, mark := fs.Table(), chain, FatTable.EndMark(fs.geo.fsType);
      ChainEntry(t0, c0, c);
      res := FR_OK;
      var ncl := fs.GetFat(clust);
      ghost var shot := fs.Snap();
      if ncl != DISK_ERROR {
        fs.SameTable();
        fs.SnapData([]);
      }
      if ncl == DISK_ERROR { res := FR_DISK_ERR; }
      if ncl == 1 { res := FR_INT_ERR; }
      if res == FR_OK && ncl < fs.geo.nFatent {
        TruncatedReleased(t0, c0, c, mark);
        res := CutAt(c, ncl);
        if res == FR_OK { SameButTrans(old(fs.Snap()), shot, fs.Snap(), [], []); }
      } else if res == FR_OK {
        assert c0[..c + 1] == c0;
        NothingReleased(t0, c0);
      }
      chain := c0[..c + 1];
    }

    lemma KeptSectors(c: nat)
      requires fs.geo.csize > 0 && 0 < fptr && c == ClusterIndex(fs.geo, (fptr - 1) / 512) && |chain| == c + 1
      ensures fptr <= 512 * |Sects()| == 512 * Span(fs.geo, |chain|)
    {
      hide Span, ClusterIndex, Sectors;
      SectorsLength(fs.geo, chain);
      PositionBelow(fs.geo, (fptr - 1) / 512, c + 1);
    }

    /** f_truncate inside the data, behind its first byte. */
    method TruncateTail() returns (res: FResult)
      requires 0 < fptr < |data| && Positioned(fptr)
      requires Base()
      modifies `chain, `data, fs.dev`sectors, fs.win, fs`wflag, fs`winsect, fs`log, fs`freeClust, fs`fsiFlag
      ensures res == FR_OK || (res == FR_DISK_ERR && !fs.dev.reliable)
      ensures fs.LoggedWellFormed() && fs.Framed()
      ensures |chain| == Reached()
      ensures res == FR_OK ==>
        fs.FatOnly() && WellFormed(fs.Table()) && (fs.winsect == old(fs.winsect) || fs.winsect < fs.geo.database)
      ensures data == old(data)[..fptr] && Positioned(fptr) && 512 * Span(fs.geo, |chain|) >= fptr && chain <= old(chain)
      ensures res == FR_OK ==> fs.Valid() && fs.CountKept()
      ensures res == FR_OK ==> Released(old(fs.Table()), fs.Table(), old(chain), chain)
      ensures res == FR_OK ==> FreeCount(fs.Table()) == FreeCount(old(fs.Table())) + |old(chain)| - |chain|
      ensures res == FR_OK ==> (Base() <==> NothingLost())
    {
      hide Base, Volume.Valid, Volume.Table, Sectors, Sound, OnDisk, Holds, Clust2Sect, Distinct, Span, ClusterIndex,
        FreeCount, IsHead, Path, Image, Within, NothingLost, EntryOwned, WellFormed, SameBut, Volume.Snap;
      BaseFacts();
      BaseWell();
      BaseEntry();
      BaseStart();
      ghost var c := ClusterIndex(fs.geo, (fptr - 1) / 512);
      ghost var t0, c0, d0, w0, data0 := fs.Table(), chain, fs.dev.sectors, fs.winsect, data;
      res := DropTail(c);
      data := data[..fptr];
      KeptSectors(c);
      SectorsPrefix(fs.geo, chain, c0);
      if res == FR_OK {
        Shrunk(t0, c0, d0, w0, data0);
      }
    }

    lemma BaseEntry()
      requires Base()
      ensures FatEnd(fs.geo) <= dirSect < |fs.dev.sectors| && dirPtr + 32 <= 512 && EntryOwned(fs.geo, fs.Table(), chain)
      ensures fs.winsect !in Sects() && !fs.strayed
      ensures cltbl != null ==> cltbl as object != fs.win && cltbl as object != buf
    {
      hide Volume.Valid, Volume.Table, Sectors, WellFormed, Chain, LinkMap.Describes, OnDisk;
    }

    /** While the file is intact, nothing is lost. */
    lemma BaseLost()
      requires Base()
      ensures NothingLost()
    {
      hide Volume.Valid, Volume.Table, Sectors, WellFormed, Chain, LinkMap.Describes, Holds;
    }

    /** f_truncate: cut the file off at the file position. */
    method Truncate() returns (res: FResult)
      requires Open() && IsHead(fs.Table(), sclust)
      modifies `fsize, `written, `error, `sclust, `chain, `data, fs.dev`sectors, fs.win, fs`wflag, fs`winsect, fs`log,
        fs`freeClust, fs`fsiFlag
      ensures Refusal(old(error), canWrite) != FR_OK ==> res == Refusal(old(error), canWrite) && Untouched()
      ensures Refusal(old(error), canWrite) == FR_OK ==> res == FR_OK || (res == FR_DISK_ERR && !fs.dev.reliable && error)
      ensures fs.LoggedWellFormed()
      ensures res == FR_OK ==> error == old(error)
      ensures res == FR_OK ==> fsize == fptr && data == old(data)[..fptr]
      ensures res == FR_OK ==> (written <==> old(written) || old(fsize) > fptr)
      ensures res == FR_OK ==> fs.Valid() && fs.CountKept()
      ensures res == FR_OK ==>
        fs.FatOnly() && WellFormed(fs.Table()) && !fs.strayed && |fs.dev.sectors| == |old(fs.dev.sectors)|
      ensures res == FR_OK ==> fs.winsect == old(fs.winsect) || fs.winsect < fs.geo.database
      // the chain keeps the clusters up to the file position, and all others of it become free
      ensures res == FR_OK ==> chain <= old(chain) && 512 * Span(fs.geo, |chain|) >= fptr
      ensures res == FR_OK ==> Released(old(fs.Table()), fs.Table(), old(chain), chain)
      ensures res == FR_OK ==> FreeCount(fs.Table()) == FreeCount(old(fs.Table())) + |old(chain)| - |chain|
      // the sector buffer and the link map are not looked after
      ensures res == FR_OK ==> |chain| == old(Kept()) && (Open() <==> old(Spared(Kept())))
    {
      hide Volume.Sane, IsPow2, EndSector, Base, Volume.Valid, Volume.Table, Sectors, Sound, OnDisk, Holds, Clust2Sect,
        Distinct, Span, ClusterIndex, FreeCount, IsHead, Path, Image, Within, NothingLost, EntryOwned, WellFormed,
        Released, Positioned, Chain, SameBut, Volume.Snap, Spared;
      res := Validate();
      if res != FR_OK { return; }
      if error { return FR_INT_ERR; }
      if !canWrite { return FR_DENIED; }
      BaseFacts();
      BaseStart();
      BaseLost();
      BaseWell();
      fs.SnapSelf([]);
      TruncateFacts();
      if fsize > fptr {
        fsize := fptr;
        written := true;
        if fptr == 0 {
          res := DropChain();
          StartPositioned();
        } else {
          res := TruncateTail();
        }
      }
      if res != FR_OK { error := true; } else { LostExactly(); }
    }

    lemma StartPositioned()
      requires fptr == 0 && fs.geo.csize > 0
      ensures Positioned(fptr)
    {
    }

    /** What f_truncate relies on; with nothing to cut off, nothing is released. */
    lemma TruncateFacts()
      requires Open()
      ensures |data| > 0 ==> chain != []
      ensures Released(fs.Table(), fs.Table(), chain, chain) && 512 * Span(fs.geo, |chain|) >= |data|
      ensures data[..|data|] == data && Span(fs.geo, 0) == 0
      ensures fs.geo.csize > 0
    {
      hide Base, Volume.Valid, Volume.Table, Sectors, Sound, OnDisk, Holds, Span;
      BaseFacts();
      DataFits();
      SectorsLength(fs.geo, chain);
      SpanZero(fs.geo);
      if chain != [] { NothingReleased(fs.Table(), chain); }
    }
  }

  /** The first n bytes of buff are those of data from position p on. */
  predicate IsSlice(buff: array<Byte>, n: nat, data: seq<Byte>, p: nat)
    reads buff
  {
    n <= buff.Length && p + n <= |data| && buff[..n] == data[p..p + n]
  }
}
