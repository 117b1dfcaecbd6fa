// f_getfree: the number of free clusters, cached or counted.
module FreeSpace {
  import opened Words
  import opened Layout
  import opened FatTable
  import opened Clusters
  import opened FileSystem

  /** Number of zero entries among the first k, the two reserved ones included. */
  function AllZeros(t: Fat, k: nat): nat
    requires k <= |t|
  {
    if k == 0 then 0 else AllZeros(t, k - 1) + (if t[k - 1] == 0 then 1 else 0)
  }

  /** Zero entries among the reserved entries 0 and 1. */
  function ReservedZeros(t: Fat): nat
  {
    if |t| < 2 then 0 else (if t[0] == 0 then 1 else 0) + (if t[1] == 0 then 1 else 0)
  }

  /** Counting all entries counts the free clusters and the reserved entries that hold 0. */
  lemma {:induction false} AllZerosSplit(t: Fat, k: nat)
    requires 2 <= k <= |t|
    ensures AllZeros(t, k) == Zeros(t, k) + ReservedZeros(t)
  {
    if k == 2 {
      assert AllZeros(t, 2) == AllZeros(t, 1) + (if t[1] == 0 then 1 else 0);
      assert AllZeros(t, 1) == AllZeros(t, 0) + (if t[0] == 0 then 1 else 0);
    } else {
      AllZerosSplit(t, k - 1);
    }
  }

  lemma CountAll(t: Fat)
    requires 2 <= |t|
    ensures AllZeros(t, |t|) == FreeCount(t) + ReservedZeros(t)
  {
    AllZerosSplit(t, |t|);
  }

  /** What a count by f_getfree comes to. */
  function Counting(t: FsType, fat: Fat): nat
  {
    FreeCount(fat) + (if t == Fat12 then 0 else ReservedZeros(fat))
  }

  /** The first cluster from k on whose entry holds the reserved value 1, or the length of the table. */
  function FirstOne(t: Fat, k: nat): (c: nat)
    requires k <= |t|
    ensures k <= c <= |t| && (c < |t| ==> t[c] == 1) && forall d :: k <= d < c ==> t[d] != 1
    decreases |t| - k
  {
    if k == |t| || t[k] == 1 then k else FirstOne(t, k + 1)
  }

  lemma FirstOneIs(t: Fat, k: nat)
    requires 2 <= k <= |t| && forall c :: 2 <= c < k ==> t[c] != 1
    ensures HasOne(t) <==> FirstOne(t, 2) < |t|
    ensures k == |t| || t[k] == 1 ==> FirstOne(t, 2) == k
  {
    var c := FirstOne(t, 2);
    if c < |t| { assert IsCluster(t, c); }
  }

  /** A count that stops at cluster k is exact exactly if no cluster from k on is free. */
  lemma {:induction false} CutShort(t: Fat, k: nat, n: nat)
    requires 2 <= k <= n <= |t|
    ensures Zeros(t, k) <= Zeros(t, n)
    ensures Zeros(t, k) == Zeros(t, n) <==> forall c :: k <= c < n ==> t[c] != 0
    decreases n
  {
    if k < n { CutShort(t, k, n - 1); }
  }

  /** A table on which a free cluster is missed: it lies behind an entry that holds 1. */
  lemma CutShortExample()
    ensures var t: Fat := [0xFF8, 0xFFF, 0, 1, 0];
      HasOne(t) && FirstOne(t, 2) == 3 && Zeros(t, 3) == 1 && FreeCount(t) == 2
  {
    var t: Fat := [0xFF8, 0xFFF, 0, 1, 0];
    assert IsCluster(t, 3) && t[3] == 1;
    assert Zeros(t, 3) == Zeros(t, 2) + 1 && Zeros(t, 4) == Zeros(t, 3) && Zeros(t, 5) == Zeros(t, 4) + 1;
    assert FirstOne(t, 2) == FirstOne(t, 3);
  }

  /** FAT12: count through get_fat; an entry holding 1 ends the count early. */
  method CountEntries(v: Volume) returns (res: FResult, n: nat)
    requires v.Valid()
    modifies v.dev`sectors, v.win, v`wflag, v`winsect
    ensures v.Framed() && n <= v.geo.nFatent < 0x1_0000_0000
    ensures res == FR_OK || (res == FR_DISK_ERR && !v.dev.reliable) || res == FR_INT_ERR
    ensures res != FR_DISK_ERR ==> v.Valid() && v.View() == old(v.View()) && (res == FR_INT_ERR <==> HasOne(v.Table()))
    ensures res == FR_OK ==> n == FreeCount(v.Table())
    ensures res == FR_INT_ERR ==> n == Zeros(v.Table(), FirstOne(v.Table(), 2))
  {
    hide Overlay, CopiesAgree, Sound, FatOf, FatFits, FatBytes, Entry, InFat, IsMirror;
    ghost var t := v.Table();
    v.Facts();
    var clst := 2;
    n := 0;
    while true
      invariant v.Valid() && v.Framed() && v.View() == old(v.View()) && v.geo == old(v.geo)
      invariant 2 <= clst < v.geo.nFatent && n == Zeros(t, clst)
      invariant forall c :: 2 <= c < clst ==> t[c] != 1
      invariant v.winsect == old(v.winsect) || v.winsect < v.geo.database
      decreases v.geo.nFatent - clst
    {
      var stat := v.GetFat(clst);
      if stat == DISK_ERROR { return FR_DISK_ERR, n; }
      if stat == 1 {
        FirstOneIs(t, clst);
        return FR_INT_ERR, n;
      }
      if stat == 0 { n := n + 1; }
      clst := clst + 1;
      if clst >= v.geo.nFatent { break; }
    }
    FirstOneIs(t, clst);
    return FR_OK, n;
  }

  /** The entry at offset p of the window, as the raw walk tests it. */
  function RawEntry(t: FsType, w: seq<Byte>, p: nat): nat
    requires p + EntryLen(t) <= |w| && t != Fat12
  {
    if t == Fat16 then LdWord(w, p) else LdDword(w, p) % 0x1000_0000
  }

  /** The walk is about to visit byte b of the FAT: i bytes of the window are left, from p on. */
  predicate Pointing(g: Geometry, b: nat, sect: nat, i: nat, p: nat)
  {
    if i == 0 then b % 512 == 0 && sect == FatSector(g, b)
    else p == b % 512 && i == 512 - p && sect == FatSector(g, b) + 1
  }

  /** The sector and the offset at which the walk finds entry k, once the window is reloaded if need be. */
  lemma RawPosition(v: Volume, k: nat, sect: nat, i: nat, p: nat)
    requires v.Valid() && v.geo.fsType != Fat12 && k < v.geo.nFatent
    requires Pointing(v.geo, EntryPos(v.geo.fsType, k), sect, i, p)
    ensures i > 0 ==> sect > 0
    ensures var s, o := if i == 0 then sect else sect - 1, if i == 0 then 0 else p;
      && InFat(v.geo, s) && s < |v.dev.sectors| == |v.View()| && s < v.geo.database
      && o + EntryLen(v.geo.fsType) <= 512
      && v.Table()[k] == RawEntry(v.geo.fsType, v.View()[s], o)
  {
    hide Overlay, CopiesAgree;
    EntryWord(v.geo, v.View(), k);
  }

  lemma PointingStart(g: Geometry, t: FsType)
    ensures Pointing(g, EntryPos(t, 0), g.fatbase, 0, 0)
  {
  }

  /** Loading the next sector. */
  lemma PointingLoad(g: Geometry, b: nat, sect: nat, p: nat)
    requires Pointing(g, b, sect, 0, p)
    ensures Pointing(g, b, sect + 1, 512, 0)
  {
  }

  lemma PointingNext(g: Geometry, t: FsType, k: nat, sect: nat, i: nat, p: nat)
    requires t != Fat12 && 0 < i && Pointing(g, EntryPos(t, k), sect, i, p)
    ensures EntryLen(t) <= i && Pointing(g, EntryPos(t, k + 1), sect, i - EntryLen(t), p + EntryLen(t))
  {
    Aligned(k);
    var b, l := EntryPos(t, k), EntryLen(t);
    assert EntryPos(t, k + 1) == b + l;
    if i == l {
      assert (b + l) % 512 == 0 && (b + l) / 512 == b / 512 + 1;
    } else {
      assert (b + l) % 512 == p + l && (b + l) / 512 == b / 512;
    }
  }

  /** FAT16 and FAT32: walk over the sectors of the FAT, entry by entry, from entry 0 on. */
  method CountRaw(v: Volume) returns (res: FResult, n: nat)
    requires v.Valid() && v.geo.fsType != Fat12
    modifies v.dev`sectors, v.win, v`wflag, v`winsect
    ensures v.Framed() && n <= v.geo.nFatent < 0x1_0000_0000
    ensures res == FR_OK || (res == FR_DISK_ERR && !v.dev.reliable)
    ensures res == FR_OK ==> v.Valid() && v.View() == old(v.View())
    ensures res == FR_OK ==> n == Counting(v.geo.fsType, v.Table())
  {
    hide Overlay, CopiesAgree, Sound, FatOf, FatFits, FatBytes, Entry, InFat, IsMirror, RawEntry, FreeCount,
      ReservedZeros, Pointing, EntryPos, EntryLen, FatSector;
    ghost var t := v.Table();
    v.Facts();
    var clst: nat, sect: nat, i: nat, p: nat := v.geo.nFatent, v.geo.fatbase, 0, 0;
    n := 0;
    var size := EntryLen(v.geo.fsType);
    PointingStart(v.geo, v.geo.fsType);
    while clst > 0
      invariant v.Valid() && v.Framed() && v.View() == old(v.View()) && v.geo == old(v.geo)
      invariant v.winsect == old(v.winsect) || v.winsect < v.geo.database
      invariant clst <= |t| && n <= |t| - clst && n == AllZeros(t, |t| - clst)
      invariant Pointing(v.geo, EntryPos(v.geo.fsType, |t| - clst), sect, i, p)
      invariant i > 0 ==> v.winsect + 1 == sect <= |v.View()| && v.View()[v.winsect] == v.win[..]
    {
      ghost var k := |t| - clst;
      RawPosition(v, k, sect, i, p);
      if i == 0 {
        var ok := v.ToFatSector(sect);
        if !ok { return FR_DISK_ERR, n; }
        PointingLoad(v.geo, EntryPos(v.geo.fsType, k), sect, p);
        sect := sect + 1;
        p := 0;
        i := 512;
      }
      if RawEntry(v.geo.fsType, v.win[..], p) == 0 { n := n + 1; }
      PointingNext(v.geo, v.geo.fsType, k, sect, i, p);
      p := p + size;
      i := i - size;
      clst := clst - 1;
    }
    CountAll(t);
    return FR_OK, n;
  }

  /** f_getfree, behind the mount check. The count replaces the cached one, even when it was cut short. */
  method GetFree(v: Volume) returns (res: FResult, nclst: nat)
    requires v.Valid()
    modifies v.dev`sectors, v.win, v`wflag, v`winsect, v`freeClust, v`fsiFlag
    ensures v.Framed()
    ensures res == FR_OK || (res == FR_DISK_ERR && !v.dev.reliable) || res == FR_INT_ERR
    ensures res != FR_DISK_ERR ==> v.Valid() && v.View() == old(v.View())
    ensures old(v.freeClust) + 2 <= v.geo.nFatent ==> res == FR_OK && nclst == v.freeClust == old(v.freeClust)
    ensures old(v.freeClust) + 2 > v.geo.nFatent ==> v.freeClust == nclst
    // a fresh count is marked for the FSInfo sector
    ensures v.fsiFlag == (old(v.fsiFlag) || (v.geo.fsType == Fat32 && old(v.freeClust) + 2 > v.geo.nFatent))
    ensures res != FR_DISK_ERR && old(v.Valid() && v.Tallied()) ==> v.Valid() && v.Tallied()
    ensures old(v.freeClust) + 2 > v.geo.nFatent && res == FR_OK ==> nclst == Counting(v.geo.fsType, v.Table())
    ensures res == FR_OK && old(v.freeClust) + 2 > v.geo.nFatent ==>
      (v.Counted() <==> v.geo.fsType == Fat12 || (v.Table()[0] != 0 && v.Table()[1] != 0))
    // on FAT12 the count stops at an entry holding 1; it is cached all the same, and exact if no free cluster lies behind
    ensures old(v.freeClust) + 2 > v.geo.nFatent && res != FR_DISK_ERR ==>
      (res == FR_INT_ERR <==> v.geo.fsType == Fat12 && HasOne(v.Table()))
    ensures res == FR_INT_ERR ==> nclst == Zeros(v.Table(), FirstOne(v.Table(), 2))
    ensures res == FR_INT_ERR ==>
      (v.Counted() <==> forall c :: FirstOne(v.Table(), 2) <= c < |v.Table()| ==> v.Table()[c] != 0)
  {
    hide Overlay, CopiesAgree, Sound, FatOf, FatFits, FatBytes, Entry, InFat, IsMirror, HasOne, FreeCount,
      ReservedZeros;
    v.Facts();
    if v.freeClust <= v.geo.nFatent - 2 { return FR_OK, v.freeClust; }
    ghost var t := v.Table();
    if v.geo.fsType == Fat12 {
      res, nclst := CountEntries(v);
      if res == FR_INT_ERR { CutShort(v.Table(), FirstOne(v.Table(), 2), |v.Table()|); }
    } else {
      res, nclst := CountRaw(v);
    }
    v.freeClust := nclst;
    if v.geo.fsType == Fat32 { v.fsiFlag := true; }
    if res != FR_DISK_ERR { CountingExact(v.geo.fsType, t); }
  }

  /** The count is the number of free clusters exactly when no reserved entry is mistaken for one. */
  lemma CountingExact(t: FsType, fat: Fat)
    requires |fat| >= 2
    ensures Counting(t, fat) <= |fat| + 2 && FreeCount(fat) == Zeros(fat, |fat|)
    ensures Counting(t, fat) == FreeCount(fat) <==> t == Fat12 || (fat[0] != 0 && fat[1] != 0)
  {
  }
}
