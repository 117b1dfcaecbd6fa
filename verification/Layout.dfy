// Volume geometry: where the FAT copies, the static root table and the clusters lie on the disk.
module Layout {
  import opened Words

  datatype FsType = Fat12 | Fat16 | Fat32

  /** The members of FATFS that mounting sets once. */
  datatype Geometry = Geometry(
    fsType: FsType,
    csize: nat,      // sectors per cluster
    nFats: nat,      // number of FAT copies
    nRootdir: nat,   // static root directory entries, 0 on FAT32
    nFatent: nat,    // number of clusters + 2
    fsize: nat,      // sectors per FAT copy
    fatbase: nat,    // first sector of the first FAT copy
    dirbase: nat,    // first sector of the static root, or its first cluster on FAT32
    database: nat,   // first data sector
    fsiSector: nat)  // FSInfo sector, FAT32 only

  /** Largest cluster count + 2 that still lies below the end-of-chain mark of the sub-type. */
  function MaxFatent(t: FsType): nat
  {
    match t
    case Fat12 => 4087
    case Fat16 => 65527
    case Fat32 => 0x0FFF_FFF0
  }

  /** Bytes a FAT with n entries occupies. */
  function FatBytes(t: FsType, n: nat): nat
  {
    match t
    case Fat12 => n * 3 / 2 + n % 2
    case Fat16 => n * 2
    case Fat32 => n * 4
  }

  /** First sector behind the last cluster. */
  function EndSector(g: Geometry): nat
  {
    if g.nFatent < 2 then g.database else g.database + Span(g, g.nFatent - 2)
  }

  /** The first FAT copy lies on a device of n sectors and has room for all entries. */
  predicate FatFits(g: Geometry, n: nat)
  {
    && g.fatbase + g.fsize <= n
    && FatBytes(g.fsType, g.nFatent) <= g.fsize * SECTOR_SIZE
  }

  /** First sector behind the last FAT copy; there are one or two. */
  function FatEnd(g: Geometry): nat
  {
    g.fatbase + (if g.nFats == 2 then 2 * g.fsize else g.fsize)
  }

  /** Sectors taken by k clusters. */
  function Span(g: Geometry, k: nat): nat
  {
    k * g.csize
  }

  /** What a successful mount establishes, on a device of n sectors that holds the whole volume. */
  ghost predicate Sound(g: Geometry, n: nat)
  {
    && FatFits(g, n)
    && IsPow2(g.csize) && 1 <= g.csize <= 128
    && 1 <= g.nFats <= 2
    && 3 <= g.nFatent <= MaxFatent(g.fsType)
    && 1 <= g.fatbase
    && FatEnd(g) <= g.database
    && g.nRootdir % 16 == 0
    && (g.fsType != Fat32 ==>
          && g.nRootdir > 0
          && g.dirbase == FatEnd(g)
          && g.dirbase + g.nRootdir / 16 == g.database)
    && (g.fsType == Fat32 ==> 0 < g.fsiSector < g.fatbase)
    && EndSector(g) <= n < 0x1_0000_0000
  }

  /** clust2sect: 0 for an invalid cluster, otherwise its first sector; clst - 2 wraps in 32 bits. */
  function Clust2Sect(g: Geometry, clst: Dword): nat
  {
    var c := if clst >= 2 then clst - 2 else clst + 0xFFFF_FFFE;
    if c >= g.nFatent - 2 then 0 else Span(g, c) + g.database
  }

  /** Sectors of the second FAT copy, which the primary copy shadows. */
  predicate IsMirror(g: Geometry, s: nat)
  {
    g.fatbase + g.fsize <= s < FatEnd(g)
  }

  predicate InFat(g: Geometry, s: nat)
  {
    g.fatbase <= s < g.fatbase + g.fsize
  }

  lemma SpanZero(g: Geometry)
    ensures Span(g, 0) == 0
  {
  }

  lemma SpanMono(g: Geometry, a: nat, b: nat)
    requires a < b
    ensures Span(g, a) + g.csize == Span(g, a + 1) <= Span(g, b)
  {
    var d := b - a - 1;
    assert b * g.csize == (a + 1) * g.csize + d * g.csize;
  }

  lemma Clust2SectValue(g: Geometry, c: Dword, n: nat)
    requires Sound(g, n)
    ensures 2 <= c < g.nFatent ==>
      && Clust2Sect(g, c) == Span(g, c - 2) + g.database
      && g.database <= Clust2Sect(g, c)
      && Clust2Sect(g, c) + g.csize <= EndSector(g)
    ensures !(2 <= c < g.nFatent) ==> Clust2Sect(g, c) == 0
  {
    hide Span, IsPow2;
    if 2 <= c < g.nFatent {
      SpanMono(g, c - 2, g.nFatent - 2);
    }
  }

  /** Sector s belongs to cluster c. */
  predicate InBlock(g: Geometry, c: Dword, s: nat)
  {
    2 <= c < g.nFatent && Clust2Sect(g, c) <= s < Clust2Sect(g, c) + g.csize
  }

  /** A sector belongs to one cluster only. */
  lemma BlocksDisjoint(g: Geometry, c: Dword, d: Dword, s: nat, n: nat)
    requires Sound(g, n) && InBlock(g, c, s) && InBlock(g, d, s)
    ensures c == d
  {
    hide Span, IsPow2;
    Clust2SectValue(g, c, n);
    Clust2SectValue(g, d, n);
    if c < d {
      SpanMono(g, c - 2, d - 2);
    } else if d < c {
      SpanMono(g, d - 2, c - 2);
    }
  }

  /**
   * The volume geometry: FAT copies, static root and data area are ordered and disjoint; clust2sect
   * rejects every number that is no cluster with 0, and gives each cluster its own csize sectors,
   * inside the data area and inside the volume.
   */
  lemma MountedGeometry(g: Geometry, c: Dword, d: Dword, s: nat, n: nat)
    requires Sound(g, n)
    ensures g.fatbase < g.fatbase + g.fsize <= FatEnd(g) <= g.database <= EndSector(g) <= n
    ensures g.fsType != Fat32 ==>
      FatEnd(g) <= g.dirbase < g.dirbase + g.nRootdir / 16 <= g.database
    ensures Clust2Sect(g, c) != 0 <==> 2 <= c < g.nFatent
    ensures InBlock(g, c, s) ==> g.database <= s < EndSector(g)
    ensures InBlock(g, c, s) && InBlock(g, d, s) ==> c == d
  {
    hide IsPow2, Span;
    Clust2SectValue(g, c, n);
    if InBlock(g, c, s) && InBlock(g, d, s) {
      BlocksDisjoint(g, c, d, s, n);
    }
  }

  /** Cluster c starts c - 2 clusters into the data area. */
  lemma ClusterPlace(g: Geometry, c: Dword)
    requires 2 <= c < g.nFatent
    ensures Clust2Sect(g, c) == g.database + (c - 2) * g.csize
  {
  }

  /**
   * The disk as the file system sees it: the window, when it holds a sector, overrides that sector.
   * The FAT copies behind the first one are masked out; they carry no information of their own.
   */
  ghost function Overlay(g: Geometry, disk: seq<Sector>, winsect: nat, win: Sector): (v: seq<Sector>)
    ensures |v| == |disk|
    ensures forall s :: 0 <= s < |disk| && !IsMirror(g, s) ==>
      v[s] == if s == winsect && s != 0 then win else disk[s]
  {
    seq(|disk|, s requires 0 <= s < |disk| =>
      if IsMirror(g, s) then ZeroSector()
      else if s == winsect && s != 0 then win
      else disk[s])
  }

  /** d1 is d0 with sector w replaced, the masked FAT copy aside. */
  ghost predicate WroteBack(g: Geometry, d0: seq<Sector>, d1: seq<Sector>, w: nat, data: Sector)
  {
    |d1| == |d0| &&
    forall s :: 0 <= s < |d0| && !IsMirror(g, s) ==> d1[s] == if s == w then data else d0[s]
  }

  /** Writing the window back does not change the view, whatever clean sector the window then shows. */
  lemma WriteBackView(g: Geometry, d0: seq<Sector>, d1: seq<Sector>, w: nat, data: Sector, w': nat)
    requires WroteBack(g, d0, d1, w, data) && w != 0 && w' < |d1| && !IsMirror(g, w')
    ensures Overlay(g, d1, w', d1[w']) == Overlay(g, d0, w, data)
    ensures Overlay(g, d1, w, data) == Overlay(g, d0, w, data)
  {
  }

  /** A clean window can be exchanged for any other sector. */
  lemma CleanView(g: Geometry, d: seq<Sector>, w: nat, data: Sector, w': nat)
    requires w < |d| && w' < |d| && !IsMirror(g, w') && (w != 0 ==> data == d[w])
    ensures Overlay(g, d, w', d[w']) == Overlay(g, d, w, data)
  {
  }

  /** Changing the window changes that one sector of the view. */
  lemma WindowUpdate(g: Geometry, d: seq<Sector>, w: nat, data: Sector, data': Sector)
    requires 0 < w < |d| && !IsMirror(g, w)
    ensures Overlay(g, d, w, data') == Overlay(g, d, w, data)[w := data']
  {
  }

  /** Both FAT copies agree on the drive, at every sector but the one excluded. */
  ghost predicate CopiesAgree(g: Geometry, d: seq<Sector>, except: nat)
  {
    g.nFats == 2 ==> forall s: nat :: InFat(g, s) && s != except ==> SameInCopy(g, d, s)
  }

  predicate SameInCopy(g: Geometry, d: seq<Sector>, s: nat)
  {
    s + g.fsize < |d| && d[s + g.fsize] == d[s]
  }

  /** The copies as the mirror loop leaves them. */
  ghost predicate CopyWritten(g: Geometry, d0: seq<Sector>, d1: seq<Sector>, w: nat, data: Sector)
  {
    |d1| == |d0| &&
    forall s :: 0 <= s < |d0| && IsMirror(g, s) ==>
      d1[s] == if InFat(g, w) && s == w + g.fsize then data else d0[s]
  }

  /** Reflecting the written sector to the second copy restores the agreement. */
  lemma MirrorStep(g: Geometry, d0: seq<Sector>, d1: seq<Sector>, w: nat, data: Sector)
    requires CopiesAgree(g, d0, w) && FatEnd(g) <= |d0| && g.fatbase <= w < |d0|
    requires WroteBack(g, d0, d1, w, data) && CopyWritten(g, d0, d1, w, data)
    ensures CopiesAgree(g, d1, 0)
  {
    if g.nFats == 2 {
      forall s: nat | InFat(g, s)
        ensures SameInCopy(g, d1, s)
      {
        assert s != w ==> SameInCopy(g, d0, s);
        assert IsMirror(g, s + g.fsize);
      }
    }
  }

  /** Two views that may differ in the first FAT copy only. */
  ghost predicate SameOutsideFat(g: Geometry, v0: seq<Sector>, v1: seq<Sector>)
  {
    |v1| == |v0| && forall s :: 0 <= s < |v0| && !InFat(g, s) ==> v1[s] == v0[s]
  }

  /** Two views that may differ in the first FAT copy and in the sectors s only. */
  ghost predicate SameElsewhere(g: Geometry, v0: seq<Sector>, v1: seq<Sector>, s: seq<nat>)
  {
    |v1| == |v0| && forall k :: 0 <= k < |v0| && !InFat(g, k) && k !in s ==> v1[k] == v0[k]
  }

  lemma CopiesFrame(g: Geometry, d: seq<Sector>, d': seq<Sector>, except: nat, n: nat)
    requires Sound(g, n) && CopiesAgree(g, d, except) && |d'| == |d| == n
    requires forall s :: g.fatbase <= s < n && s < g.database ==> d'[s] == d[s]
    ensures CopiesAgree(g, d', except)
  {
    if g.nFats == 2 {
      forall s: nat | InFat(g, s) && s != except
        ensures SameInCopy(g, d', s)
      {
        assert SameInCopy(g, d, s);
      }
    }
  }

  lemma NoSector(g: Geometry)
    requires 3 <= g.nFatent <= 0x1000_0000
    ensures Clust2Sect(g, 0) == 0
  {
  }

  lemma CopiesExcept(g: Geometry, d: seq<Sector>, w: nat)
    requires CopiesAgree(g, d, 0) && g.fatbase > 0
    ensures CopiesAgree(g, d, w)
  {
    if g.nFats == 2 {
      forall s: nat | InFat(g, s) && s != w
        ensures SameInCopy(g, d, s)
      {
        assert SameInCopy(g, d, s);
      }
    }
  }
}
