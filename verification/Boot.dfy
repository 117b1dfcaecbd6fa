// Mounting: from the boot record to the geometry of the volume.
module Boot {
  import opened Words
  import opened Layout
  import opened FatTable
  import opened FileSystem
  import FsInfo

  // ----- the boot record -----

  const BS_55AA: nat := 510
  const MBR_TABLE: nat := 446

  /** 32-bit arithmetic. */
  function W(x: nat): Dword
  {
    x % 0x1_0000_0000
  }

  predicate IsFatString(d: Dword)
  {
    d % 0x100_0000 == 0x54_4146
  }

  datatype BootKind = FatRecord | OtherRecord | NoRecord | ReadError

  /** check_fs, behind the read. */
  function KindOf(s: Sector): BootKind
  {
    if LdWord(s, BS_55AA) != 0xAA55 then NoRecord
    else if IsFatString(LdDword(s, 54)) then FatRecord
    else if IsFatString(LdDword(s, 82)) then FatRecord
    else OtherRecord
  }

  /** The fields of the BIOS parameter block. */
  function SectorsPerFat(s: Sector): Dword { if LdWord(s, 22) != 0 then LdWord(s, 22) else LdDword(s, 36) }

  function Fats(s: Sector): Byte { s[16] }

  function PerCluster(s: Sector): Byte { s[13] }

  function RootEntries(s: Sector): Word { LdWord(s, 17) }

  function TotalSectors(s: Sector): Dword { if LdWord(s, 19) != 0 then LdWord(s, 19) else LdDword(s, 32) }

  function Reserved(s: Sector): Word { LdWord(s, 14) }

  const MIN_FAT16: nat := 4086
  const MIN_FAT32: nat := 65526

  function SubType(nclst: nat): FsType
  {
    if nclst >= MIN_FAT32 then Fat32 else if nclst >= MIN_FAT16 then Fat16 else Fat12
  }

  datatype Parsed = Accepted(g: Geometry) | Refused

  /** FAT area, and all sectors in front of the data area, as computed in 32 bits. */
  function FatArea(s: Sector): Dword { W((SectorsPerFat(s) as int) * (Fats(s) as int)) }

  function SysSectors(s: Sector): Dword { W((Reserved(s) as int) + (FatArea(s) as int) + (RootEntries(s) as int) / 16) }

  /** Number of clusters, none when the system area does not fit. */
  function ClusterCount(s: Sector): nat
  {
    if PerCluster(s) == 0 || TotalSectors(s) < SysSectors(s) then 0
    else Quotient(TotalSectors(s) - SysSectors(s), PerCluster(s))
  }

  function Quotient(a: nat, b: nat): (q: nat)
    requires b > 0
    ensures q * b <= a < (q + 1) * b
  {
    a / b
  }

  /** The checks of the boot record, in the order of the source. */
  predicate Acceptable(s: Sector)
  {
    && LdWord(s, 11) == 512
    && (Fats(s) == 1 || Fats(s) == 2)
    && PerCluster(s) != 0 && And(PerCluster(s), PerCluster(s) - 1) == 0
    && RootEntries(s) % 16 == 0
    && Reserved(s) != 0
    && TotalSectors(s) >= SysSectors(s)
    && ClusterCount(s) != 0
    && (SubType(ClusterCount(s)) == Fat32 <==> RootEntries(s) == 0)
    && SectorsPerFat(s) >= W(FatNeed(s) + 511) / 512
  }

  /** Bytes of a FAT with an entry for each cluster, in 32 bits. */
  function FatNeed(s: Sector): Dword
  {
    W(FatBytes(SubType(ClusterCount(s)), W(ClusterCount(s) + 2)))
  }

  /** The analysis of a FAT boot record at sector bsect, in 32-bit arithmetic. */
  function Parse(s: Sector, bsect: Dword): Parsed
  {
    if !Acceptable(s) then Refused
    else
      var t := SubType(ClusterCount(s));
      var fatbase := W((bsect as int) + (Reserved(s) as int));
      Accepted(Geometry(t, PerCluster(s), Fats(s), RootEntries(s), W(ClusterCount(s) + 2), SectorsPerFat(s), fatbase,
        if t == Fat32 then LdDword(s, 44) else W((fatbase as int) + (FatArea(s) as int)),
        W((bsect as int) + (SysSectors(s) as int)),
        if t == Fat32 then W((bsect as int) + (LdWord(s, 48) as int)) else 0))
  }

  /** A positive number is a power of two exactly when clearing its lowest set bit leaves nothing. */
  lemma {:induction false} PowerTest(x: nat)
    requires x > 0
    ensures And(x, x - 1) == 0 <==> IsPow2(x)
  {
    if x == 1 {
    } else if x % 2 == 0 {
      PowerTest(x / 2);
      assert (x - 1) / 2 == x / 2 - 1 && (x - 1) % 2 == 1;
    } else {
      assert (x - 1) / 2 == x / 2 && (x - 1) % 2 == 0;
      AndSelf(x / 2);
    }
  }

  lemma {:induction false} AndSelf(x: nat)
    ensures And(x, x) == x
  {
    if x > 0 { AndSelf(x / 2); }
  }

  lemma {:induction false} PowerBound(x: nat, k: nat)
    requires IsPow2(x) && x < 2 * Pow2(k)
    ensures x <= Pow2(k)
    decreases k
  {
    if x > 1 && k > 0 { PowerBound(x / 2, k - 1); }
  }

  lemma SmallPower(x: nat)
    requires IsPow2(x) && x < 256
    ensures x <= 128
  {
    assert Pow2(4) == 16 && Pow2(7) == 8 * Pow2(4);
    PowerBound(x, 7);
  }

  /** FAT and root fit into 32 bits, the volume lies on a device of n sectors, and FSInfo in the reserved area. */
  ghost predicate OnDevice(s: Sector, bsect: Dword, g: Geometry, n: nat)
  {
    && (bsect as int) + (Reserved(s) as int) + TrueFatArea(s) + (RootEntries(s) as int) / 16 < 0x1_0000_0000
    && EndSector(g) <= n < 0x1_0000_0000
    && ClusterCount(s) + 2 <= MaxFatent(g.fsType)
    && (g.fsType == Fat32 ==> 0 < (bsect as int) + (LdWord(s, 48) as int) && LdWord(s, 48) < Reserved(s))
  }

  /** Sectors of all FAT copies, not wrapped around. */
  function TrueFatArea(s: Sector): nat
  {
    if Fats(s) == 2 then 2 * (SectorsPerFat(s) as int) else SectorsPerFat(s)
  }

  /** The FAT is large enough for all entries. */
  lemma FatSpace(s: Sector, bsect: Dword)
    requires Acceptable(s) && ClusterCount(s) + 2 <= MaxFatent(SubType(ClusterCount(s)))
    ensures FatBytes(SubType(ClusterCount(s)), ClusterCount(s) + 2) <= (SectorsPerFat(s) as int) * 512
  {
    hide And, PerCluster, TotalSectors, SysSectors, ClusterCount;
  }

  lemma QuotientBound(a: nat, b: nat)
    requires b > 0
    ensures Quotient(a, b) <= a
  {
    AtLeastOnce(Quotient(a, b), b);
  }

  lemma AtLeastOnce(q: nat, b: nat)
    requires b > 0
    ensures q <= q * b
  {
  }

  lemma ClusterBound(s: Sector)
    requires Acceptable(s)
    ensures 0 < ClusterCount(s) <= 0xFFFF_FFFF
  {
    hide And, Quotient, PerCluster, TotalSectors, SysSectors;
    QuotientBound(TotalSectors(s) - SysSectors(s), PerCluster(s));
  }

  /** The members of an accepted geometry, in terms of true sums. */
  lemma ParseFacts(s: Sector, bsect: Dword)
    requires Parse(s, bsect).Accepted? && bsect < 0xFFFF_0000
    ensures var g := Parse(s, bsect).g;
      && IsPow2(g.csize) && 1 <= g.csize <= 128 && 1 <= g.nFats <= 2
      && g.nRootdir == RootEntries(s) && g.nRootdir % 16 == 0 && (g.fsType == Fat32 <==> g.nRootdir == 0)
      && g.fatbase == (bsect as int) + (Reserved(s) as int) && Reserved(s) > 0
      && FatEnd(g) == g.fatbase + TrueFatArea(s)
      && g.database == W(FatEnd(g) + g.nRootdir / 16)
      && (g.fsType != Fat32 ==> g.dirbase == W(FatEnd(g)))
      && (g.fsType == Fat32 ==> g.fsiSector == W((bsect as int) + (LdWord(s, 48) as int)))
      && g.nFatent == W(ClusterCount(s) + 2) && 0 < ClusterCount(s) <= 0xFFFF_FFFF
      && (ClusterCount(s) + 2 <= MaxFatent(g.fsType) ==> FatBytes(g.fsType, g.nFatent) <= g.fsize * 512)
  {
    hide And, IsPow2, LdWord, LdDword, ClusterCount, SectorsPerFat, TotalSectors, FatNeed, Reserved, RootEntries;
    PowerTest(PerCluster(s));
    SmallPower(PerCluster(s));
    var g := Parse(s, bsect).g;
    ClusterBound(s);
    if ClusterCount(s) + 2 <= MaxFatent(g.fsType) { FatSpace(s, bsect); }
    assert (SectorsPerFat(s) as int) * (Fats(s) as int) == TrueFatArea(s);
    Areas(bsect, Reserved(s), TrueFatArea(s), (RootEntries(s) as int) / 16);
  }

  /**
   * What an accepted volume looks like: the areas are ordered and disjoint, and the FAT has room for every entry,
   * exactly when no sum of sectors has wrapped around and the volume lies on the device.
   */
  lemma ParseSound(s: Sector, bsect: Dword, n: nat)
    requires Parse(s, bsect).Accepted? && bsect < 0xFFFF_0000
    ensures var g := Parse(s, bsect).g; Sound(g, n) <==> OnDevice(s, bsect, g, n)
  {
    hide Parse, IsPow2, Span, LdWord, ClusterCount, Reserved, RootEntries, TrueFatArea, FatBytes;
    ParseFacts(s, bsect);
  }

  /** The modular sums, in terms of the true ones. */
  lemma Areas(bsect: nat, rsv: nat, area: nat, root: nat)
    requires bsect < 0xFFFF_0000 && rsv < 0x1_0000 && root < 0x1_0000
    ensures W(bsect + W(rsv + W(area) + root)) == W(bsect + rsv + area + root)
    ensures W(W(bsect + rsv) + W(area)) == W(bsect + rsv + area)
    ensures W(bsect + rsv) == bsect + rsv
  {
    WAdd(rsv + root, area);
    WAdd(bsect, rsv + area + root);
    WAdd(bsect + rsv, area);
  }

  lemma WAdd(a: nat, b: nat)
    ensures W(a + W(b)) == W(a + b)
  {
  }

  /** A boot record whose two FAT copies have 0x80000001 sectors each: the product wraps around to 2. */
  function WrapRecord(): Sector
  {
    ZeroSector()[12 := 2][13 := 1][14 := 1][16 := 2][17 := 16][19 := 100][36 := 1][39 := 0x80]
      [54 := 0x46][55 := 0x41][56 := 0x54][510 := 0x55][511 := 0xAA]
  }

  /** It is found at sector 0 and passes every check although its FAT reaches over the data area. */
  lemma WrapExample()
    ensures var s := WrapRecord();
      && (forall d: seq<Sector> :: |d| > 0 && d[0] == s ==> RecordAt(d) == 0)
      && Parse(s, 0).Accepted? && forall n: nat :: !Sound(Parse(s, 0).g, n)
  {
    var s := WrapRecord();
    assert KindOf(s) == FatRecord;
    assert SectorsPerFat(s) == 0x8000_0001;
    assert FatArea(s) == 2 && SysSectors(s) == 4 && ClusterCount(s) == Quotient(96, 1);
    assert Quotient(96, 1) * 1 <= 96;
    assert And(1, 0) == 0;
  }

  // ----- mounting -----

  /** check_fs: read a sector into the window and classify it. */
  method CheckFs(v: Volume, sect: Dword) returns (k: BootKind)
    requires v.win.Length == 512
    modifies v.win
    ensures k == ReadError ==> !v.dev.reliable || sect >= |v.dev.sectors|
    ensures k != ReadError ==> sect < |v.dev.sectors| && v.win[..] == v.dev.sectors[sect] && k == KindOf(v.win[..])
  {
    var ok := v.dev.Read(v.win, sect);
    if !ok { return ReadError; }
    return KindOf(v.win[..]);
  }

  /** Where the FAT boot record lies: at sector 0, or else at the start of the first partition; -1 for nowhere. */
  function RecordAt(d: seq<Sector>): (r: int)
    requires |d| > 0
    ensures -1 <= r < |d| && r < 0x1_0000_0000
  {
    if KindOf(d[0]) == FatRecord then 0
    else if KindOf(d[0]) == OtherRecord && d[0][MBR_TABLE + 4] != 0 then
      var b := LdDword(d[0], MBR_TABLE + 8);
      if b < |d| && KindOf(d[b]) == FatRecord then b else -1
    else -1
  }

  method FindRecord(v: Volume) returns (k: BootKind, bsect: Dword)
    requires v.win.Length == 512
    modifies v.win
    ensures k == FatRecord ==>
      |v.dev.sectors| > 0 && bsect == RecordAt(v.dev.sectors) && v.win[..] == v.dev.sectors[bsect]
    ensures v.dev.reliable && |v.dev.sectors| > 0 ==> (k == FatRecord <==> RecordAt(v.dev.sectors) >= 0)
  {
    hide KindOf, LdDword;
    bsect := 0;
    k := CheckFs(v, bsect);
    if k == OtherRecord {
      if v.win[MBR_TABLE + 4] != 0 {
        bsect := LdDword(v.win[..], MBR_TABLE + 8);
        k := CheckFs(v, bsect);
      }
    }
  }

  /** The counters on the drive. */
  predicate CountersThere(g: Geometry, d: seq<Sector>)
  {
    g.fsType == Fat32 && g.fsiSector < |d| && FsInfo.Signed(d[g.fsiSector])
  }

  /** The counters, from the FSInfo sector if it can be read and is signed. */
  method LoadCounters(v: Volume)
    requires v.win.Length == 512
    modifies v.win, v`freeClust, v`lastClust, v`fsiFlag
    ensures v.freeClust != UNKNOWN ==>
      CountersThere(v.geo, v.dev.sectors) && v.freeClust == FsInfo.FreeCountOf(v.dev.sectors[v.geo.fsiSector])
    ensures v.geo.fsType == Fat32 ==> !v.fsiFlag
    ensures v.dev.reliable && CountersThere(v.geo, v.dev.sectors) ==>
      && v.freeClust == FsInfo.FreeCountOf(v.dev.sectors[v.geo.fsiSector])
      && v.lastClust == FsInfo.LastOf(v.dev.sectors[v.geo.fsiSector])
  {
    v.freeClust, v.lastClust := UNKNOWN, 0;
    if v.geo.fsType == Fat32 {
      v.fsiFlag := false;
      var ok := v.dev.Read(v.win, v.geo.fsiSector);
      if ok && FsInfo.Signed(v.win[..]) {
        v.lastClust := FsInfo.LastOf(v.win[..]);
        v.freeClust := FsInfo.FreeCountOf(v.win[..]);
      }
    }
  }

  /** Take over the geometry of an accepted boot record. */
  method Attach(v: Volume, g: Geometry, fsid: nat)
    requires v.win.Length == 512
    modifies v, v.win
    ensures v.geo == g && !v.strayed && v.mounted && v.id == fsid && v.winsect == 0 && !v.wflag
    ensures v.freeClust != UNKNOWN ==>
      CountersThere(g, v.dev.sectors) && v.freeClust == FsInfo.FreeCountOf(v.dev.sectors[g.fsiSector])
    ensures v.dev.reliable && CountersThere(g, v.dev.sectors) ==>
      && v.freeClust == FsInfo.FreeCountOf(v.dev.sectors[g.fsiSector])
      && v.lastClust == FsInfo.LastOf(v.dev.sectors[g.fsiSector])
    ensures Sound(g, |v.dev.sectors|) ==> v.Valid() && (v.dev.reliable ==> v.Tallied())
  {
    hide FsInfo.Signed, FsInfo.FreeCountOf, IsPow2, CopiesAgree;
    v.geo := g;
    LoadCounters(v);
    v.mounted := true;
    v.id := fsid;
    v.winsect := 0;
    v.wflag := false;
    v.strayed := false;
    v.mirrored := CopiesAgree(g, v.dev.sectors, 0);
  }

  /** The outcome of a fresh mount, for the boot record at sector bsect. */
  ghost predicate Mounted(v: Volume, bsect: Dword)
    reads v, v.win, v.dev
  {
    var d := v.dev.sectors;
    && v.mounted && !v.strayed && v.dev.ready && v.winsect == 0 && !v.wflag && v.win.Length == 512
    && |d| > 0 && bsect == RecordAt(d) && Parse(d[bsect], bsect) == Accepted(v.geo)
    && (v.freeClust != UNKNOWN ==> CountersThere(v.geo, d) && v.freeClust == FsInfo.FreeCountOf(d[v.geo.fsiSector]))
    && (v.dev.reliable && CountersThere(v.geo, d) ==> v.freeClust == FsInfo.FreeCountOf(d[v.geo.fsiSector]))
    && (bsect < 0xFFFF_0000 && OnDevice(d[bsect], bsect, v.geo, |d|) ==> v.Valid() && (v.dev.reliable ==> v.Tallied()))
  }

  /** chk_mounted, for read access: mount the volume unless it is mounted and the medium has not changed. */
  method Mount(v: Volume, fsid: nat) returns (res: FResult, fsid': nat, ghost bsect: Dword)
    requires v.win.Length == 512
    modifies v, v.win, v.dev`ready
    ensures old(v.mounted && v.dev.ready) ==> res == FR_OK && fsid' == fsid && unchanged(v) && unchanged(v.win)
    ensures !old(v.mounted && v.dev.ready) ==> res in {FR_OK, FR_NOT_READY, FR_DISK_ERR, FR_NO_FILESYSTEM}
    ensures !old(v.mounted && v.dev.ready) && res == FR_OK ==> fsid' == v.id == fsid + 1
    ensures !old(v.mounted && v.dev.ready) && res == FR_OK ==> Mounted(v, bsect)
    ensures res != FR_OK ==> !v.mounted
    // a drive that does not fail is mounted exactly when it has a boot record that is accepted
    ensures !old(v.mounted && v.dev.ready) && v.dev.reliable && |v.dev.sectors| > 0 ==>
      var r := RecordAt(v.dev.sectors);
      res == FR_OK <==> r >= 0 && Parse(v.dev.sectors[r], r).Accepted?
  {
    hide Parse, CountersThere, LdWord, LdDword, RecordAt, OnDevice, Sound, Volume.Valid;
    fsid', bsect := fsid, 0;
    if v.mounted {
      if v.dev.ready { return FR_OK, fsid, 0; }
    }
    v.mounted := false;
    var up := v.dev.Initialize();
    if !up { return FR_NOT_READY, fsid, 0; }
    var k, start := FindRecord(v);
    bsect := start;
    if k == ReadError { return FR_DISK_ERR, fsid, bsect; }
    if k != FatRecord { return FR_NO_FILESYSTEM, fsid, bsect; }
    var p := Parse(v.win[..], start);
    if p.Refused? { return FR_NO_FILESYSTEM, fsid, bsect; }
    fsid' := fsid + 1;
    if bsect < 0xFFFF_0000 { ParseSound(v.win[..], bsect, |v.dev.sectors|); }
    Attach(v, p.g, fsid');
    res := FR_OK;
  }

  /** A drive that starts with that record is mounted, whatever else is on it, and its volume is not sound. */
  method MountWrapped(v: Volume, fsid: nat) returns (res: FResult)
    requires v.win.Length == 512 && v.dev.reliable && !v.mounted
    requires |v.dev.sectors| > 0 && v.dev.sectors[0] == WrapRecord()
    modifies v, v.win, v.dev`ready
    ensures res == FR_OK && v.mounted && !v.Valid()
    ensures forall n: nat :: !Sound(v.geo, n)
  {
    hide RecordAt, Parse, WrapRecord, Sound;
    WrapExample();
    var id;
    ghost var bsect;
    res, id, bsect := Mount(v, fsid);
    SoundIfValid(v);
  }

  lemma SoundIfValid(v: Volume)
    ensures v.Valid() ==> Sound(v.geo, |v.dev.sectors|)
  {
  }

  // ----- the boot record, byte by byte -----

  /** Where the fields of the boot record lie. */
  lemma FieldBytes(s: Sector)
    ensures PerCluster(s) == s[13] && Fats(s) == s[16]
    ensures Reserved(s) == s[14] as nat + 0x100 * s[15] as nat
    ensures RootEntries(s) == s[17] as nat + 0x100 * s[18] as nat
    ensures TotalSectors(s) ==
      if s[19] != 0 || s[20] != 0 then s[19] as nat + 0x100 * s[20] as nat
      else s[32] as nat + 0x100 * s[33] as nat + 0x1_0000 * s[34] as nat + 0x100_0000 * s[35] as nat
    ensures SectorsPerFat(s) ==
      if s[22] != 0 || s[23] != 0 then s[22] as nat + 0x100 * s[23] as nat
      else s[36] as nat + 0x100 * s[37] as nat + 0x1_0000 * s[38] as nat + 0x100_0000 * s[39] as nat
  {
  }

  /** The signature 55 AA at the end, and the letters FAT at byte 54 or 82. */
  lemma KindBytes(s: Sector)
    ensures KindOf(s) == FatRecord <==>
      && s[510] == 0x55 && s[511] == 0xAA
      && ((s[54] == 0x46 && s[55] == 0x41 && s[56] == 0x54) || (s[82] == 0x46 && s[83] == 0x41 && s[84] == 0x54))
    ensures KindOf(s) == NoRecord <==> !(s[510] == 0x55 && s[511] == 0xAA)
  {
    FatLetters(s, 54);
    FatLetters(s, 82);
    hide LdDword, IsFatString;
  }

  lemma FatLetters(s: Sector, o: nat)
    requires o + 4 <= 512
    ensures IsFatString(LdDword(s, o)) <==> s[o] == 0x46 && s[o + 1] == 0x41 && s[o + 2] == 0x54
  {
    LittleEndian(s, o, 0);
    Low24(s[o] as nat + 0x100 * s[o + 1] as nat + 0x1_0000 * s[o + 2] as nat, s[o + 3]);
    hide LdDword;
  }

  lemma Low24(a: nat, b: nat)
    requires a < 0x100_0000
    ensures (a + 0x100_0000 * b) % 0x100_0000 == a
  {
  }

  /** The record found: at sector 0, or where the first entry of the partition table points, if it has a type. */
  lemma RecordBytes(d: seq<Sector>)
    requires |d| > 0
    ensures KindOf(d[0]) == FatRecord ==> RecordAt(d) == 0
    ensures KindOf(d[0]) == OtherRecord && d[0][450] != 0 ==>
      var b := d[0][454] as nat + 0x100 * d[0][455] as nat + 0x1_0000 * d[0][456] as nat + 0x100_0000 * d[0][457] as nat;
      RecordAt(d) == if b < |d| && KindOf(d[b]) == FatRecord then b else -1
    ensures KindOf(d[0]) == NoRecord || (KindOf(d[0]) == OtherRecord && d[0][450] == 0) ==> RecordAt(d) == -1
  {
    hide KindOf;
  }

  /** The sub-type by the number of clusters. */
  lemma SubTypes(n: nat)
    ensures n < 4086 ==> SubType(n) == Fat12
    ensures 4086 <= n < 65526 ==> SubType(n) == Fat16
    ensures 65526 <= n ==> SubType(n) == Fat32
  {
  }

  /** Bytes needed for n FAT entries. */
  function NeededBytes(clusters: nat): nat
  {
    var n := clusters + 2;
    if clusters < 4086 then (3 * n + 1) / 2 else if clusters < 65526 then 2 * n else 4 * n
  }

  /** The checks, written out; n is the number of clusters behind sys sectors. */
  predicate Passes(s: Sector, sys: nat, n: nat)
  {
    var fsz: nat, nf: nat, root: nat, cs: nat := SectorsPerFat(s), Fats(s), RootEntries(s), PerCluster(s);
    && s[11] == 0x00 && s[12] == 0x02 && (nf == 1 || nf == 2) && IsPow2(cs) && root % 16 == 0 && Reserved(s) != 0
    && TotalSectors(s) >= sys && n != 0 && (n >= 65526 <==> root == 0) && NeededBytes(n) <= 512 * fsz
  }

  lemma AcceptableWritten(s: Sector, sys: nat, n: nat)
    requires PerCluster(s) > 0 && SysSectors(s) == sys && ClusterCount(s) == n < 0x3FFF_FF00
    ensures Acceptable(s) <==> Passes(s, sys, n)
  {
    hide And, SectorsPerFat, TotalSectors, Reserved, RootEntries, IsPow2, SysSectors, ClusterCount, FatNeed, NeededBytes;
    PowerTest(PerCluster(s));
    NeedWritten(s, n);
  }

  /** Sectors in front of the data area, with area of them for the FAT copies. */
  function SysOf(s: Sector, area: nat): nat
  {
    (Reserved(s) as nat) + area + (RootEntries(s) as nat) / 16
  }

  /** The geometry of a volume at bsect with n clusters. */
  function GeometryOf(s: Sector, bsect: nat, area: nat, n: nat): Geometry
  {
    var rsv: nat := Reserved(s);
    Geometry(if n >= 65526 then Fat32 else if n >= 4086 then Fat16 else Fat12, s[13], s[16], RootEntries(s), n + 2,
      SectorsPerFat(s), bsect + rsv,
      if n >= 65526 then LdDword(s, 44) else bsect + rsv + area,
      bsect + SysOf(s, area),
      if n >= 65526 then W(bsect + (LdWord(s, 48) as nat)) else 0)
  }

  /** The outcome, written out, for a record none of whose sums wraps around. */
  lemma ParseWritten(s: Sector, bsect: Dword, area: nat, n: nat)
    requires area == (SectorsPerFat(s) as nat) * (Fats(s) as nat) && (bsect as nat) + SysOf(s, area) < 0x1_0000_0000
    requires TotalSectors(s) < 0x3FFF_FF00
    requires n ==
      if PerCluster(s) > 0 && TotalSectors(s) >= SysOf(s, area)
      then Quotient(TotalSectors(s) - SysOf(s, area), PerCluster(s)) else 0
    ensures Parse(s, bsect) ==
      if PerCluster(s) == 0 || !Passes(s, SysOf(s, area), n) then Refused else Accepted(GeometryOf(s, bsect, area, n))
  {
    hide And, LdDword, LdWord, Quotient, SectorsPerFat, TotalSectors, Reserved, RootEntries, IsPow2, Acceptable, Passes,
      PerCluster, Fats, FatArea, SysSectors, ClusterCount, SysOf, W;
    FieldBytes(s);
    NoCluster(s);
    SumsExact(s, bsect, area);
    if PerCluster(s) > 0 {
      CountExact(s, SysOf(s, area), n);
      AcceptableWritten(s, SysOf(s, area), n);
      if Acceptable(s) { SubTypes(n); }
    }
  }
  lemma WIs(x: nat)
    ensures x < 0x1_0000_0000 ==> W(x) == x
  {
  }

  lemma SumsExact(s: Sector, bsect: Dword, area: nat)
    requires area == (SectorsPerFat(s) as nat) * (Fats(s) as nat) && (bsect as nat) + SysOf(s, area) < 0x1_0000_0000
    ensures FatArea(s) == area && SysSectors(s) == SysOf(s, area)
    ensures W((bsect as int) + (Reserved(s) as int)) == (bsect as nat) + (Reserved(s) as nat)
    ensures W((bsect as nat) + (Reserved(s) as nat) + area) == (bsect as nat) + (Reserved(s) as nat) + area
    ensures W((bsect as nat) + SysOf(s, area)) == (bsect as nat) + SysOf(s, area)
  {
    hide SectorsPerFat, Fats, Reserved, RootEntries, W;
    WIs(area);
    WIs(SysOf(s, area));
    WIs((bsect as nat) + (Reserved(s) as nat));
    WIs((bsect as nat) + (Reserved(s) as nat) + area);
    WIs((bsect as nat) + SysOf(s, area));
  }

  lemma CountExact(s: Sector, sys: nat, n: nat)
    requires PerCluster(s) > 0 && SysSectors(s) == sys && TotalSectors(s) < 0x3FFF_FF00
    requires n == if TotalSectors(s) >= sys then Quotient(TotalSectors(s) - sys, PerCluster(s)) else 0
    ensures ClusterCount(s) == n < 0x3FFF_FF00
    ensures W(n + 2) == n + 2
  {
    hide Quotient, SysSectors, PerCluster, TotalSectors;
    if TotalSectors(s) >= sys { QuotientBound(TotalSectors(s) - sys, PerCluster(s)); }
  }

  lemma NoCluster(s: Sector)
    ensures Acceptable(s) ==> PerCluster(s) != 0
    ensures forall sys: nat, n: nat :: Passes(s, sys, n) ==> TotalSectors(s) >= sys
  {
    hide And, LdDword, LdWord, Quotient, SectorsPerFat, TotalSectors, Reserved, RootEntries, IsPow2;
  }

  lemma NeedWritten(s: Sector, n: nat)
    requires ClusterCount(s) == n < 0x4000_0000 - 200
    ensures FatNeed(s) == NeededBytes(n)
    ensures forall fsz: nat :: fsz >= W(FatNeed(s) + 511) / 512 <==> NeededBytes(n) <= 512 * fsz
  {
    hide ClusterCount, Quotient, FatBytes, SubType, NeededBytes, W;
    NeedBytes(n);
    WIs(NeededBytes(n) + 511);
    forall fsz: nat ensures fsz >= W(FatNeed(s) + 511) / 512 <==> NeededBytes(n) <= 512 * fsz {
      RoundUp(NeededBytes(n), fsz);
    }
  }

  lemma NeedBytes(n: nat)
    requires n < 0x4000_0000 - 200
    ensures W(FatBytes(SubType(n), W(n + 2))) == NeededBytes(n) <= 0xFFFF_FFFF - 511
  {
  }

  lemma RoundUp(x: nat, fsz: nat)
    ensures fsz >= (x + 511) / 512 <==> x <= 512 * fsz
  {
  }
}
