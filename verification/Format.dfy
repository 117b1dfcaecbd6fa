// f_mkfs: planning a volume, writing it, and what mounting makes of it.
module Format {
  import opened Words
  import opened Layout
  import opened FatTable
  import opened Clusters
  import opened FileSystem
  import opened Boot
  import FsInfo
  import Disk

  const N_ROOTDIR: nat := 512

  // ----- planning -----

  /** The sizes and offsets of a volume, in sectors; nClst is the number of clusters. */
  datatype Plan = Plan(fmt: FsType, bVol: nat, nVol: nat, au: nat, nRsv: nat, nFat: nat, nDir: nat, nClst: nat)
  {
    function BFat(): nat { bVol + nRsv }
    function BDir(): nat { BFat() + nFat }
    function BData(): nat { BDir() + nDir }
  }

  datatype Planned = Go(p: Plan) | Abort

  /** Sectors for the FAT of n clusters, before alignment. */
  function FatSectors(t: FsType, n: nat): nat
  {
    match t
    case Fat32 => (n * 4 + 8 + 511) / 512
    case Fat12 => ((n * 3 + 1) / 2 + 3 + 511) / 512
    case Fat16 => (n * 2 + 4 + 511) / 512
  }

  /** The volume before alignment. */
  function Draft(bVol: nat, nVol: nat, au: nat): Plan
    requires au > 0
  {
    var n := Quotient(nVol, au);
    var t := SubType(n);
    Plan(t, bVol, nVol, au, if t == Fat32 then 32 else 1, FatSectors(t, n), if t == Fat32 then 0 else N_ROOTDIR * 32 / 512, n)
  }

  /** Distance from b up to the next multiple of n, for a power of two n. */
  function Slack(b: nat, n: nat): nat
    requires 0 < n <= 0x8000
  {
    var up := And(b + n - 1, Not32(n - 1));
    if up >= b then up - b else 0
  }

  /** The data area moved up to an erase block boundary, by a larger reserved area or a larger FAT. */
  function Aligned(d: Plan, n: nat): Plan
    requires 0 < n <= 0x8000 && d.au > 0
  {
    var k := Slack(d.BData(), n);
    var a := if d.fmt == Fat32 then d.(nRsv := d.nRsv + k) else d.(nFat := d.nFat + k);
    a.(nClst := Quotient(W32(a.nVol - (a.nRsv + a.nFat + a.nDir)), d.au))
  }

  /** A difference in 32 bits. */
  function W32(x: int): nat
  {
    x % 0x1_0000_0000
  }

  /** The plan for a volume of nVol sectors at bVol, with au sectors per cluster and erase blocks of n sectors. */
  function PlanFor(bVol: nat, nVol: nat, au: nat, n: nat): Planned
    requires au > 0 && 0 < n <= 0x8000
  {
    var d := Draft(bVol, nVol, au);
    if nVol + bVol < d.BData() + au then Abort
    else
      var a := Aligned(d, n);
      if (a.fmt == Fat16 && a.nClst < MIN_FAT16) || (a.fmt == Fat32 && a.nClst < MIN_FAT32) then Abort
      else Go(a)
  }

  lemma SlackExact(b: nat, n: nat)
    requires IsPow2(n) && 0 < n <= 0x8000 && b + n <= 0x1_0000_0000
    ensures Slack(b, n) < n && (b + Slack(b, n)) % n == 0
  {
    hide And, IsPow2;
    var x := b + n - 1;
    AndClear(x, n);
    RoundDown(x, n);
    assert b + Slack(b, n) == x - x % n;
  }

  lemma RoundDown(x: nat, n: nat)
    requires n > 0
    ensures 0 <= x % n < n && (x - x % n) % n == 0
  {
    var q, r := x / n, x % n;
    assert x == q * n + r;
    ModUnique(x - r, n, q, 0);
  }

  // ----- facts about a plan -----

  /** At least one cluster is left behind the aligned data area. */
  predicate Room(p: Plan)
  {
    p.nRsv + p.nFat + p.nDir + p.au <= p.nVol
  }

  /** The system area ends on the volume. */
  predicate Fits(p: Plan)
  {
    p.nRsv + p.nFat + p.nDir <= p.nVol
  }

  lemma MulMono(a: nat, b: nat, c: nat)
    ensures a <= b ==> a * c <= b * c
  {
    assert b * c == a * c + (b - a) * c;
  }

  lemma QuotientMono(a: nat, b: nat, c: nat)
    requires a <= b && c > 0
    ensures Quotient(a, c) <= Quotient(b, c)
  {
    MulMono(Quotient(b, c) + 1, Quotient(a, c), c);
  }

  /** The FAT planned for n0 clusters has room for any smaller number. */
  lemma FatRoom(t: FsType, n0: nat, n: nat)
    requires n <= n0
    ensures FatBytes(t, n + 2) <= 512 * FatSectors(t, n0)
    ensures 0 < FatSectors(t, n0) && (t != Fat32 && n0 < MIN_FAT32 ==> FatSectors(t, n0) <= 0x101)
  {
    match t
    case Fat12 => assert FatBytes(t, n + 2) <= (n0 * 3 + 1) / 2 + 3;
    case Fat16 => assert FatBytes(t, n + 2) <= n0 * 2 + 4;
    case Fat32 => assert FatBytes(t, n + 2) <= n0 * 4 + 8;
  }

  /** Growing the reserved area or the FAT only takes clusters away. */
  lemma AlignedFacts(d: Plan, n: nat, n0: nat)
    requires 0 < d.au <= 128 && IsPow2(n) && 0 < n <= 0x8000 && d.BData() + n <= 0x1_0000_0000
    requires n0 == Quotient(d.nVol, d.au)
    ensures var a := Aligned(d, n);
      && a.fmt == d.fmt && a.bVol == d.bVol && a.nVol == d.nVol && a.au == d.au && a.nDir == d.nDir
      && d.nRsv <= a.nRsv < d.nRsv + 0x8000 && d.nFat <= a.nFat < d.nFat + 0x8000
      && a.BData() % n == 0
      && (Fits(a) && d.nVol < 0x1_0000_0000 ==>
            a.nClst == Quotient(d.nVol - (a.nRsv + a.nFat + a.nDir), d.au) <= n0)
  {
    hide And, IsPow2, Slack, Quotient;
    SlackExact(d.BData(), n);
    var a := Aligned(d, n);
    if Fits(a) { QuotientMono(d.nVol - (a.nRsv + a.nFat + a.nDir), d.nVol, d.au); }
  }

  /** What every plan satisfies: sizes that the boot record can hold, and a FAT that is large enough. */
  lemma PlanFacts(bVol: nat, nVol: nat, au: nat, n: nat)
    requires 0 < au <= 128 && IsPow2(n) && 0 < n <= 0x8000 && bVol <= 63 && nVol < 0xFFFF_0000
    requires PlanFor(bVol, nVol, au, n).Go?
    ensures var p := PlanFor(bVol, nVol, au, n).p;
      && p.bVol == bVol && p.nVol == nVol && p.au == au
      && 0 < p.nRsv < 0x1_0000 && (p.fmt == Fat32 ==> p.nRsv >= 32)
      && p.nDir == (if p.fmt == Fat32 then 0 else 32) && p.BData() % n == 0
      && 0 < p.nFat && (p.fmt != Fat32 ==> p.nFat < 0x1_0000)
      && (Fits(p) ==>
            && p.nClst == Quotient(nVol - (p.nRsv + p.nFat + p.nDir), au) <= Quotient(nVol, au)
            && (SubType(p.nClst) == p.fmt)
            && FatBytes(p.fmt, p.nClst + 2) <= 512 * p.nFat)
  {
    hide And, IsPow2, Slack, Quotient, Aligned, FatBytes, FatSectors;
    var d, n0 := Draft(bVol, nVol, au), Quotient(nVol, au);
    var a := Aligned(d, n);
    AlignedFacts(d, n, n0);
    FatRoom(d.fmt, n0, 0);
    if Fits(a) { FatRoom(d.fmt, n0, a.nClst); }
  }

  // ----- the boot record -----

  /** mem_cpy of literal bytes. */
  function Copy(s: Sector, o: nat, b: seq<Byte>): (r: Sector)
    requires o + |b| <= 512
    ensures forall i :: 0 <= i < 512 ==> r[i] == if o <= i < o + |b| then b[i - o] else s[i]
  {
    s[..o] + b + s[o + |b|..]
  }

  const JUMP_AND_OEM: seq<Byte> := [0xEB, 0xFE, 0x90, 0x4D, 0x53, 0x44, 0x4F, 0x53, 0x35, 0x2E, 0x30]
  const LABEL: seq<Byte> := [0x4E, 0x4F, 0x20, 0x4E, 0x41, 0x4D, 0x45, 0x20, 0x20, 0x20, 0x20]
  const FAT32_NAME: seq<Byte> := [0x46, 0x41, 0x54, 0x33, 0x32, 0x20, 0x20, 0x20]
  const FAT_NAME: seq<Byte> := [0x46, 0x41, 0x54, 0x20, 0x20, 0x20, 0x20, 0x20]

  /** The fields all sub-types share. */
  function CommonFields(p: Plan, md: Byte): Sector
    requires p.au < 256
  {
    var s0 := Copy(ZeroSector(), 0, JUMP_AND_OEM);
    var s1 := StWord(s0, 11, 512)[13 := p.au];
    var s2 := StWord(s1, 14, p.nRsv)[16 := 1];
    var s3 := StWord(s2, 17, if p.fmt == Fat32 then 0 else N_ROOTDIR);
    var s4 := if p.nVol < 0x1_0000 then StWord(s3, 19, p.nVol) else StDword(s3, 32, p.nVol);
    var s5 := StWord(s4[21 := md], 24, 63);
    StDword(StWord(s5, 26, 255), 28, p.bVol)
  }

  /** The fields of a FAT32 volume. */
  function Fat32Fields(s: Sector, p: Plan, tim: Dword): Sector
  {
    var s1 := StDword(StDword(s, 67, tim), 36, p.nFat);
    var s2 := StWord(StDword(s1, 44, 2), 48, 1);
    var s3 := StWord(s2, 50, 6)[64 := 0x80][66 := 0x29];
    Copy(s3, 71, LABEL + FAT32_NAME)
  }

  /** The fields of a FAT12 or FAT16 volume. */
  function Fat16Fields(s: Sector, p: Plan, tim: Dword): Sector
  {
    var s1 := StWord(StDword(s, 39, tim), 22, p.nFat)[36 := 0x80][38 := 0x29];
    Copy(s1, 43, LABEL + FAT_NAME)
  }

  /** The boot record of a planned volume. */
  function BootRecord(p: Plan, md: Byte, tim: Dword): Sector
    requires p.au < 256
  {
    var s := CommonFields(p, md);
    StWord(if p.fmt == Fat32 then Fat32Fields(s, p, tim) else Fat16Fields(s, p, tim), 510, 0xAA55)
  }

  /** The common fields read back, whatever is stored behind offset 36 and at 22. */
  lemma CommonRead(p: Plan, md: Byte)
    requires p.au < 256 && p.nRsv < 0x1_0000 && p.nVol < 0x1_0000_0000
    ensures var s := CommonFields(p, md);
      && LdWord(s, 11) == 512 && s[13] == p.au && LdWord(s, 14) == p.nRsv && s[16] == 1
      && LdWord(s, 17) == (if p.fmt == Fat32 then 0 else N_ROOTDIR)
      && (if LdWord(s, 19) != 0 then LdWord(s, 19) else LdDword(s, 32)) == p.nVol
      && (forall i :: 36 <= i < 512 || i == 22 || i == 23 ==> s[i] == 0)
  {
    hide StWord, StDword;
  }

  lemma Fat32Read(s: Sector, p: Plan, tim: Dword)
    requires p.nFat < 0x1_0000_0000
    ensures var r := Fat32Fields(s, p, tim);
      && LdDword(r, 36) == p.nFat && LdDword(r, 44) == 2 && LdWord(r, 48) == 1 && IsFatString(LdDword(r, 82))
      && (forall i :: 0 <= i < 36 ==> r[i] == s[i])
  {
    hide StWord, StDword;
    var r := Fat32Fields(s, p, tim);
    assert LABEL + FAT32_NAME == [0x4E, 0x4F, 0x20, 0x4E, 0x41, 0x4D, 0x45, 0x20, 0x20, 0x20, 0x20,
        0x46, 0x41, 0x54, 0x33, 0x32, 0x20, 0x20, 0x20];
    assert r[82] == 0x46 && r[83] == 0x41 && r[84] == 0x54;
  }

  lemma Fat16Read(s: Sector, p: Plan, tim: Dword)
    requires p.nFat < 0x1_0000
    ensures var r := Fat16Fields(s, p, tim);
      && LdWord(r, 22) == p.nFat && IsFatString(LdDword(r, 54))
      && (forall i :: 0 <= i < 36 && i != 22 && i != 23 ==> r[i] == s[i])
  {
    hide StWord, StDword;
    var r := Fat16Fields(s, p, tim);
    assert LABEL + FAT_NAME == [0x4E, 0x4F, 0x20, 0x4E, 0x41, 0x4D, 0x45, 0x20, 0x20, 0x20, 0x20,
        0x46, 0x41, 0x54, 0x20, 0x20, 0x20, 0x20, 0x20];
    assert r[54] == 0x46 && r[55] == 0x41 && r[56] == 0x54;
  }

  /** The boot record as mounting reads it. */
  lemma BootRead(p: Plan, md: Byte, tim: Dword)
    requires p.au < 256 && p.nRsv < 0x1_0000 && p.nVol < 0x1_0000_0000
    requires 0 < p.nFat < 0x1_0000_0000 && (p.fmt != Fat32 ==> p.nFat < 0x1_0000)
    ensures var s := BootRecord(p, md, tim);
      && KindOf(s) == FatRecord
      && LdWord(s, 11) == 512 && PerCluster(s) == p.au && Reserved(s) == p.nRsv && Fats(s) == 1
      && RootEntries(s) == (if p.fmt == Fat32 then 0 else N_ROOTDIR)
      && TotalSectors(s) == p.nVol && SectorsPerFat(s) == p.nFat
      && (p.fmt == Fat32 ==> LdDword(s, 44) == 2 && LdWord(s, 48) == 1)
  {
    hide StWord, StDword, CommonFields, Fat32Fields, Fat16Fields;
    var c := CommonFields(p, md);
    CommonRead(p, md);
    if p.fmt == Fat32 { Fat32Read(c, p, tim); } else { Fat16Read(c, p, tim); }
    var r := if p.fmt == Fat32 then Fat32Fields(c, p, tim) else Fat16Fields(c, p, tim);
    var s := BootRecord(p, md, tim);
    assert s == StWord(r, 510, 0xAA55);
    assert forall i :: 0 <= i < 510 ==> s[i] == r[i];
    Same(c, s, 11);
    Same(c, s, 14);
    Same(c, s, 17);
    Same(c, s, 19);
    Same(c, s, 32);
    Same(r, s, 22);
    Same(r, s, 36);
    Same(r, s, 44);
    Same(r, s, 48);
    Same(r, s, 54);
    Same(r, s, 82);
  }

  /** Fields of sectors that agree there. */
  lemma Same(a: Sector, b: Sector, o: nat)
    requires o + 4 <= 512
    ensures a[o] == b[o] && a[o + 1] == b[o + 1] ==> LdWord(a, o) == LdWord(b, o)
    ensures (forall i :: o <= i < o + 4 ==> a[i] == b[i]) ==> LdDword(a, o) == LdDword(b, o)
  {
  }

  // ----- the volume, mounted -----

  /** The geometry a plan stands for. */
  function GeoOf(p: Plan): Geometry
  {
    Geometry(p.fmt, p.au, 1, if p.fmt == Fat32 then 0 else N_ROOTDIR, p.nClst + 2, p.nFat, p.BFat(),
      if p.fmt == Fat32 then 2 else p.BDir(), p.BData(), if p.fmt == Fat32 then p.bVol + 1 else 0)
  }

  /** What f_mkfs requires of the device: an erase block size that is a power of two, and no more sectors than FAT32 can use. */
  predicate Formattable(bVol: nat, nVol: nat, au: nat, n: nat)
  {
    && IsPow2(au) && 0 < au <= 128 && IsPow2(n) && 0 < n <= 0x8000
    && (bVol == 0 || bVol == 63) && nVol < 0xFFFF_0000
    && Quotient(nVol, au) + 2 <= MaxFatent(Fat32)
  }

  /**
   * Mounting accepts a formatted volume, with the same sub-type, cluster count, FAT start and data start, exactly
   * when the alignment has left room for a cluster.
   */
  lemma FormattedAccepted(bVol: nat, nVol: nat, au: nat, n: nat, md: Byte, tim: Dword)
    requires Formattable(bVol, nVol, au, n) && PlanFor(bVol, nVol, au, n).Go? && Fits(PlanFor(bVol, nVol, au, n).p)
    ensures var p := PlanFor(bVol, nVol, au, n).p; var s := BootRecord(p, md, tim);
      && KindOf(s) == FatRecord
      && Parse(s, bVol) == (if Room(p) then Accepted(GeoOf(p)) else Refused)
      && (Room(p) ==> Sound(GeoOf(p), bVol + nVol))
  {
    hide And, IsPow2, BootRecord, PlanFor, Quotient, Parse, KindOf, SubType, FatBytes;
    PlanFacts(bVol, nVol, au, n);
    var p := PlanFor(bVol, nVol, au, n).p;
    var s := BootRecord(p, md, tim);
    BootRead(p, md, tim);
    Checked(p, s);
    if Room(p) { GeoSound(p); }
  }

  /** The checks of the boot record, on the record of a plan. */
  lemma Checked(p: Plan, s: Sector)
    requires IsPow2(p.au) && 0 < p.au <= 128 && Fits(p) && p.nVol < 0xFFFF_0000 && (p.bVol == 0 || p.bVol == 63)
    requires 0 < p.nRsv && 0 < p.nFat && SubType(p.nClst) == p.fmt && p.nDir == (if p.fmt == Fat32 then 0 else 32)
    requires p.nClst == Quotient(p.nVol - (p.nRsv + p.nFat + p.nDir), p.au)
    requires FatBytes(p.fmt, p.nClst + 2) <= 512 * p.nFat && p.nClst + 2 <= MaxFatent(Fat32)
    requires LdWord(s, 11) == 512 && PerCluster(s) == p.au && Reserved(s) == p.nRsv && Fats(s) == 1
    requires SectorsPerFat(s) == p.nFat && TotalSectors(s) == p.nVol
    requires RootEntries(s) == if p.fmt == Fat32 then 0 else N_ROOTDIR
    requires p.fmt == Fat32 ==> LdDword(s, 44) == 2 && LdWord(s, 48) == 1
    ensures Parse(s, p.bVol) == if Room(p) then Accepted(GeoOf(p)) else Refused
  {
    hide And, IsPow2, Quotient, LdWord, LdDword, PerCluster, Reserved, Fats, SectorsPerFat, RootEntries, TotalSectors,
      FatArea, SysSectors, ClusterCount, SubType, FatNeed, FatBytes, W, Acceptable;
    Counted(p, s);
    CheckedFields(p, s);
    WSmall(p.bVol + p.nRsv);
    WSmall(p.BFat() + p.nFat);
    WSmall(p.bVol + (p.nRsv + p.nFat + p.nDir));
    WSmall(p.bVol + 1);
    WSmall(p.nClst + 2);
  }

  lemma WSmall(x: nat)
    requires x < 0x1_0000_0000
    ensures W(x) == x
  {
  }

  /** The record passes the checks exactly when there is a cluster. */
  lemma CheckedFields(p: Plan, s: Sector)
    requires IsPow2(p.au) && 0 < p.au <= 128 && Fits(p)
    requires 0 < p.nRsv && SubType(p.nClst) == p.fmt
    requires FatBytes(p.fmt, p.nClst + 2) <= 512 * p.nFat && p.nClst + 2 <= MaxFatent(Fat32)
    requires LdWord(s, 11) == 512 && PerCluster(s) == p.au && Reserved(s) == p.nRsv && Fats(s) == 1
    requires SectorsPerFat(s) == p.nFat && TotalSectors(s) == p.nVol
    requires RootEntries(s) == if p.fmt == Fat32 then 0 else N_ROOTDIR
    requires SysSectors(s) == p.nRsv + p.nFat + p.nDir && ClusterCount(s) == p.nClst && (p.nClst == 0 <==> !Room(p))
    ensures Acceptable(s) <==> Room(p)
  {
    hide And, IsPow2, LdWord, LdDword, PerCluster, Reserved, Fats, SectorsPerFat, RootEntries, TotalSectors,
      FatArea, SysSectors, ClusterCount, SubType, FatNeed, FatBytes, W, Room;
    PowerTest(p.au);
    NeedExact(s, p);
    NeedBound(p.fmt, p.nClst + 2);
    WSmall(FatNeed(s) + 511);
  }

  lemma NeedExact(s: Sector, p: Plan)
    requires ClusterCount(s) == p.nClst && SubType(p.nClst) == p.fmt && p.nClst + 2 <= MaxFatent(Fat32)
    ensures FatNeed(s) == FatBytes(p.fmt, p.nClst + 2)
  {
    hide ClusterCount, SubType;
    NeedBound(p.fmt, p.nClst + 2);
  }

  lemma NeedBound(t: FsType, n: nat)
    requires n <= MaxFatent(Fat32)
    ensures FatBytes(t, n) + 511 < 0x1_0000_0000
  {
  }

  lemma GeoSound(p: Plan)
    requires Room(p) && IsPow2(p.au) && 0 < p.au <= 128 && 0 < p.nRsv && SubType(p.nClst) == p.fmt
    requires p.nDir == (if p.fmt == Fat32 then 0 else 32) && (p.fmt == Fat32 ==> p.nRsv >= 32)
    requires p.nClst == Quotient(p.nVol - (p.nRsv + p.nFat + p.nDir), p.au) && p.bVol + p.nVol < 0x1_0000_0000
    requires FatBytes(p.fmt, p.nClst + 2) <= 512 * p.nFat && p.nClst + 2 <= MaxFatent(Fat32)
    ensures Sound(GeoOf(p), p.bVol + p.nVol)
  {
    hide IsPow2, Quotient, FatBytes;
    MulMono(1, p.nClst, p.au);
    assert p.nClst > 0;
  }

  /** The cluster count that mounting computes is the planned one, and the FAT suffices for it. */
  lemma Counted(p: Plan, s: Sector)
    requires 0 < p.au <= 128 && Fits(p) && p.nVol < 0xFFFF_0000 && p.nFat < 0x1_0000_0000
    requires PerCluster(s) == p.au && Reserved(s) == p.nRsv && Fats(s) == 1 && SectorsPerFat(s) == p.nFat
    requires (RootEntries(s) as int) / 16 == p.nDir && TotalSectors(s) == p.nVol
    requires p.nClst == Quotient(p.nVol - (p.nRsv + p.nFat + p.nDir), p.au)
    ensures FatArea(s) == p.nFat && SysSectors(s) == p.nRsv + p.nFat + p.nDir
    ensures ClusterCount(s) == p.nClst
    ensures p.nClst == 0 <==> !Room(p)
  {
    hide Quotient, LdWord, LdDword, PerCluster, Reserved, Fats, SectorsPerFat, RootEntries, TotalSectors;
    var free := p.nVol - (p.nRsv + p.nFat + p.nDir);
    MulMono(1, p.nClst, p.au);
  }

  // ----- the fresh FAT -----

  /** The first sector of the FAT: the reserved entries, and on FAT32 the end mark of the root directory. */
  function FirstFat(t: FsType, md: Byte): Sector
  {
    match t
    case Fat12 => StDword(ZeroSector(), 0, 0x00FF_FF00 + md)
    case Fat16 => StDword(ZeroSector(), 0, 0xFFFF_FF00 + md)
    case Fat32 => StDword(StDword(StDword(ZeroSector(), 0, 0xFFFF_FF00 + md), 4, 0xFFFF_FFFF), 8, 0x0FFF_FFFF)
  }

  /** The FAT area of the drive as it is initialised. */
  ghost predicate FreshFat(p: Plan, md: Byte, d: seq<Sector>)
  {
    && 0 < p.nFat && p.BFat() + p.nFat <= |d| && d[p.BFat()] == FirstFat(p.fmt, md)
    && forall s :: p.BFat() < s < p.BFat() + p.nFat ==> d[s] == ZeroSector()
  }

  /** Entries in use: the reserved two, and on FAT32 the root directory. */
  function Used(t: FsType): nat
  {
    if t == Fat32 then 3 else 2
  }

  /** Number of bytes of the FAT that are not zero. */
  function UsedBytes(t: FsType): nat
  {
    match t
    case Fat12 => 3
    case Fat16 => 4
    case Fat32 => 12
  }

  lemma FreshByte(p: Plan, md: Byte, d: seq<Sector>, i: nat)
    requires FreshFat(p, md, d) && UsedBytes(p.fmt) <= i < 512 * p.nFat
    ensures FatSector(GeoOf(p), i) < |d| && FatByte(GeoOf(p), d, i) == 0
  {
  }

  /** Behind the entries in use, the fresh FAT is zero. */
  lemma FreshEntry(p: Plan, md: Byte, d: seq<Sector>, c: nat)
    requires FreshFat(p, md, d) && FatFits(GeoOf(p), |d|) && Used(p.fmt) <= c < p.nClst + 2
    ensures Entry(GeoOf(p), d, c) == 0
  {
    hide FirstFat, FreshFat;
    var g := GeoOf(p);
    EntryInFat(g, c, |d|);
    var i := EntryPos(p.fmt, c);
    FreshByte(p, md, d, i);
    FreshByte(p, md, d, i + 1);
    if p.fmt == Fat12 {
      Entry12(g, d, c);
    } else {
      EntryWord(g, d, c);
      if p.fmt == Fat32 {
        FreshByte(p, md, d, i + 2);
        FreshByte(p, md, d, i + 3);
      }
    }
  }

  /** The bytes in use. */
  lemma FirstBytes(t: FsType, md: Byte)
    ensures var s := FirstFat(t, md);
      && s[1] == 0xFF && s[2] == 0xFF
      && (t == Fat16 ==> s[3] == 0xFF)
      && (t == Fat32 ==> LdDword(s, 0) == 0xFFFF_FF00 + md && LdDword(s, 4) == 0xFFFF_FFFF && LdDword(s, 8) == 0x0FFF_FFFF)
  {
    hide LdDword;
    if t == Fat32 {
      FirstDwords(md);
    }
  }

  lemma FirstDwords(md: Byte)
    ensures var s := FirstFat(Fat32, md);
      LdDword(s, 0) == 0xFFFF_FF00 + md && LdDword(s, 4) == 0xFFFF_FFFF && LdDword(s, 8) == 0x0FFF_FFFF
  {
    hide LdDword, StDword;
    var s0 := StDword(ZeroSector(), 0, 0xFFFF_FF00 + md);
    var s1 := StDword(s0, 4, 0xFFFF_FFFF);
    FsInfo.Apart4(s1, s0, 4, 0xFFFF_FFFF, 0);
    FsInfo.Apart4(FirstFat(Fat32, md), s1, 8, 0x0FFF_FFFF, 0);
    FsInfo.Apart4(FirstFat(Fat32, md), s1, 8, 0x0FFF_FFFF, 4);
  }

  /** The reserved entries are in use, and so is the root directory on FAT32. */
  lemma ReservedEntry(p: Plan, md: Byte, d: seq<Sector>, c: nat)
    requires FreshFat(p, md, d) && FatFits(GeoOf(p), |d|) && c < Used(p.fmt) && c < p.nClst + 2
    ensures Entry(GeoOf(p), d, c) != 0
    ensures c == 2 ==> Entry(GeoOf(p), d, c) == EndMark(Fat32)
  {
    hide FirstFat;
    var g := GeoOf(p);
    FirstBytes(p.fmt, md);
    assert c == 0 || c == 1 || c == 2;
    if p.fmt == Fat12 {
      Entry12(g, d, c);
    } else {
      EntryWord(g, d, c);
    }
  }

  /**
   * The FAT of a fresh volume: well-formed, the reserved entries in use, and all clusters free but the root
   * directory of FAT32.
   */
  lemma FreshTable(p: Plan, md: Byte, d: seq<Sector>)
    requires FreshFat(p, md, d) && FatFits(GeoOf(p), |d|) && 0 < p.nClst && p.nClst + 2 <= EndMark(p.fmt)
    ensures var t := FatOf(GeoOf(p), d);
      && WellFormed(t) && t[0] != 0 && t[1] != 0
      && FreeCount(t) == p.nClst - (if p.fmt == Fat32 then 1 else 0)
      && (p.fmt == Fat32 ==> Chain(t, [2]))
  {
    hide FreshFat, Entry, FatFits;
    var t := FatOf(GeoOf(p), d);
    forall c | 0 <= c < |t|
      ensures c >= Used(p.fmt) ==> t[c] == 0
      ensures c < Used(p.fmt) ==> t[c] != 0 && (c == 2 ==> t[c] == EndMark(Fat32))
    {
      if c >= Used(p.fmt) { FreshEntry(p, md, d, c); } else { ReservedEntry(p, md, d, c); }
    }
    NoLinks(t);
    ZerosFrom(t, Used(p.fmt), |t|);
  }

  // ----- the partition table -----

  /** System ID of the partition. */
  function SystemId(p: Plan): Byte
  {
    match p.fmt
    case Fat12 => 0x01
    case Fat16 => if p.nVol < 0x1_0000 then 0x04 else 0x06
    case Fat32 => 0x0C
  }

  /** The master boot record with one partition. */
  function MasterRecord(p: Plan): Sector
  {
    var n := (p.bVol + p.nVol) / 63 / 255;
    var s1 := ZeroSector()[447 := 1][448 := 1][450 := SystemId(p)][451 := 254];
    var s2 := s1[452 := Or(n / 4, 63) % 256][453 := n % 256];
    var s3 := StDword(StDword(s2, 454, 63), 458, p.nVol);
    StWord(s3, 510, 0xAA55)
  }

  lemma MasterRead(p: Plan)
    ensures var s := MasterRecord(p);
      KindOf(s) == OtherRecord && s[MBR_TABLE + 4] != 0 && LdDword(s, MBR_TABLE + 8) == 63
  {
    hide StWord, StDword, Or;
    var s := MasterRecord(p);
    assert s[54] == 0 && s[55] == 0 && s[56] == 0 && s[82] == 0 && s[83] == 0 && s[84] == 0;
  }

  // ----- the formatted drive -----

  /** Sectors of the root directory that are cleared. */
  function RootSpan(p: Plan): nat
  {
    if p.fmt == Fat32 then p.au else p.nDir
  }

  /** What f_mkfs leaves on the drive. */
  ghost predicate Formatted(p: Plan, md: Byte, tim: Dword, d: seq<Sector>)
  {
    && p.au < 256 && p.bVol < |d| && d[p.bVol] == BootRecord(p, md, tim)
    && (p.bVol != 0 ==> d[0] == MasterRecord(p))
    && FreshFat(p, md, d)
    && p.BDir() + RootSpan(p) <= |d|
    && forall s :: p.BDir() <= s < p.BDir() + RootSpan(p) ==> d[s] == ZeroSector()
  }

  /** The boot record of a formatted drive is found where it was written. */
  lemma FormattedRecord(p: Plan, md: Byte, tim: Dword, d: seq<Sector>)
    requires Formatted(p, md, tim, d) && KindOf(BootRecord(p, md, tim)) == FatRecord && (p.bVol == 0 || p.bVol == 63)
    ensures RecordAt(d) == p.bVol
  {
    hide KindOf, BootRecord, MasterRecord, LdDword;
    MasterRead(p);
  }

  // ----- f_mkfs -----

  const VST: seq<nat> := [1024, 512, 256, 128, 64, 32, 16, 8, 4, 2, 0]
  const CST: seq<nat> := [32768, 16384, 8192, 4096, 2048, 16384, 8192, 4096, 2048, 1024, 512]

  /** The first row of the table, from row k on, that a volume of vs size units reaches. */
  function Row(vs: nat, k: nat): (i: nat)
    requires k < |VST|
    ensures k <= i < |VST| && vs >= VST[i] && forall m :: k <= m < i ==> vs < VST[m]
    decreases |VST| - k
  {
    if vs < VST[k] then Row(vs, k + 1) else k
  }

  /** The cluster size in bytes: the one asked for, or the one the table has for the volume size. */
  function SizeFor(au: nat, nVol: nat): nat
  {
    if au != 0 then au else CST[Row(nVol / 2000, 0)]
  }

  /** The erase block size used, for the one the device reports. */
  function BlockFor(block: nat): (n: nat)
    ensures 0 < n <= 0x8000
  {
    if block == 0 || block > 0x8000 then 1 else block
  }

  /** The plan for a device of n sectors, by the parameters of f_mkfs. */
  function Request(n: nat, sfd: bool, au: nat, block: nat): Planned
    requires n >= 128
  {
    var bVol := if sfd then 0 else 63;
    PlanFor(bVol, n - bVol, Unit(SizeFor(au, n - bVol)), BlockFor(block))
  }

  /** What a caller can check beforehand: legal cluster size, a device that is large enough, and a system area that fits. */
  predicate Formats(n: nat, sfd: bool, au: nat, block: nat)
  {
    && (au == 0 || IsPow2(au)) && n >= 128 && Request(n, sfd, au, block).Go?
    && var p := Request(n, sfd, au, block).p; p.BDir() + RootSpan(p) <= n
  }

  /** The cluster size in bytes chosen for a volume: the first row of the table that the volume size reaches. */
  method AutoUnit(nVol: nat) returns (au: nat)
    ensures au == SizeFor(0, nVol)
  {
    var vs := nVol / 2000;
    var k := 0;
    while vs < VST[k]
      invariant k < |VST| && Row(vs, 0) == Row(vs, k)
      decreases |VST| - k
    {
      k := k + 1;
    }
    return CST[k];
  }

  /** Sectors per cluster for a cluster size in bytes. */
  function Unit(au: nat): (u: nat)
    ensures 0 < u <= 128
  {
    var u := au / 512;
    if u == 0 then 1 else if u > 128 then 128 else u
  }

  lemma UnitPower(au: nat)
    requires au == 0 || IsPow2(au)
    ensures IsPow2(Unit(au))
  {
    assert IsPow2(128) by { assert IsPow2(8) && IsPow2(16) && IsPow2(32) && IsPow2(64); }
    if au >= 512 { HalfPower(au, 9); assert Pow2(4) == 16 && Pow2(9) == 32 * Pow2(4); }
  }

  /** A power of two divided by a smaller one. */
  lemma {:induction false} HalfPower(x: nat, k: nat)
    requires IsPow2(x) && Pow2(k) <= x
    ensures IsPow2(x / Pow2(k))
    decreases k
  {
    if k > 0 {
      HalfPower(x / 2, k - 1);
      DivTwice(x, Pow2(k - 1));
    }
  }

  lemma DivTwice(x: nat, h: nat)
    requires h > 0
    ensures x / (2 * h) == x / 2 / h
  {
    var q, r := x / 2 / h, x / 2 % h;
    assert x / 2 == q * h + r;
    assert q * (2 * h) == 2 * (q * h);
    ModUnique(x, 2 * h, q, 2 * r + x % 2);
  }

  /** Fill the work buffer and write it to a sector. */
  method PutSector(v: Volume, s: Sector, sect: nat) returns (ok: bool)
    requires v.win.Length == 512
    modifies v.win, v.dev`sectors
    ensures v.win[..] == s && |v.dev.sectors| == |old(v.dev.sectors)|
    ensures ok ==> sect < |v.dev.sectors| && v.dev.sectors == old(v.dev.sectors)[sect := s]
    ensures !ok ==> v.dev.sectors == old(v.dev.sectors)
    ensures v.dev.reliable && sect < |v.dev.sectors| ==> ok
  {
    forall i | 0 <= i < 512 { v.win[i] := s[i]; }
    assert v.win[..] == s;
    ok := v.dev.Write(v.win, sect);
  }

  /** Write zeros to cnt sectors. */
  method ZeroRun(v: Volume, first: nat, cnt: nat) returns (ok: bool)
    requires v.win.Length == 512 && v.win[..] == ZeroSector()
    modifies v.dev`sectors
    ensures |v.dev.sectors| == |old(v.dev.sectors)|
    ensures ok ==> cnt == 0 || first + cnt <= |v.dev.sectors|
    ensures ok ==> forall s :: 0 <= s < |v.dev.sectors| ==>
      v.dev.sectors[s] == if first <= s < first + cnt then ZeroSector() else old(v.dev.sectors)[s]
    ensures v.dev.reliable && first + cnt <= |v.dev.sectors| ==> ok
  {
    for n := 0 to cnt
      invariant |v.dev.sectors| == |old(v.dev.sectors)| && (n == 0 || first + n <= |v.dev.sectors|)
      invariant forall s :: 0 <= s < |v.dev.sectors| ==>
        v.dev.sectors[s] == if first <= s < first + n then ZeroSector() else old(v.dev.sectors)[s]
    {
      ok := v.dev.Write(v.win, first + n);
      if !ok { return; }
    }
    return true;
  }

  /** Partition table, boot record and its backup. */
  method WriteRecords(v: Volume, p: Plan, md: Byte, tim: Dword) returns (res: FResult)
    requires v.win.Length == 512 && p.au < 256 && (p.bVol == 0 || p.bVol == 63)
    modifies v.win, v.dev`sectors
    ensures |v.dev.sectors| == |old(v.dev.sectors)|
    ensures res == FR_OK || res == FR_DISK_ERR
    ensures res == FR_OK ==> p.bVol < |v.dev.sectors| && v.dev.sectors[p.bVol] == BootRecord(p, md, tim)
    ensures res == FR_OK && p.bVol != 0 ==> v.dev.sectors[0] == MasterRecord(p)
    ensures res == FR_OK && v.dev.reliable && p.fmt == Fat32 && p.bVol + 6 < |v.dev.sectors| ==>
      v.dev.sectors[p.bVol + 6] == BootRecord(p, md, tim)
    ensures v.dev.reliable && p.bVol < |v.dev.sectors| ==> res == FR_OK
  {
    hide BootRecord, MasterRecord;
    var ok;
    if p.bVol != 0 {
      ok := PutSector(v, MasterRecord(p), 0);
      if !ok { return FR_DISK_ERR; }
    }
    ok := PutSector(v, BootRecord(p, md, tim), p.bVol);
    if !ok { return FR_DISK_ERR; }
    if p.fmt == Fat32 {
      var _ := v.dev.Write(v.win, p.bVol + 6);   // a failure of the backup is ignored
    }
    return FR_OK;
  }

  /** The FAT and the root directory. */
  method WriteTables(v: Volume, p: Plan, md: Byte) returns (res: FResult)
    requires v.win.Length == 512 && 0 < p.nFat && 0 < p.nRsv
    modifies v.win, v.dev`sectors
    ensures |v.dev.sectors| == |old(v.dev.sectors)|
    ensures res == FR_OK || res == FR_DISK_ERR
    ensures res == FR_OK ==> v.win[..] == ZeroSector()
    ensures res == FR_OK ==> FreshFat(p, md, v.dev.sectors)
    ensures res == FR_OK && RootSpan(p) > 0 ==> p.BDir() + RootSpan(p) <= |v.dev.sectors|
    ensures res == FR_OK ==> forall s :: p.BDir() <= s < p.BDir() + RootSpan(p) ==> v.dev.sectors[s] == ZeroSector()
    ensures forall s :: 0 <= s < |v.dev.sectors| && s < p.BFat() && res == FR_OK ==>
      v.dev.sectors[s] == old(v.dev.sectors)[s]
    ensures v.dev.reliable && p.BDir() + RootSpan(p) <= |v.dev.sectors| ==> res == FR_OK
  {
    hide FirstFat, RootSpan;
    var ok := PutSector(v, FirstFat(p.fmt, md), p.BFat());
    if !ok { return FR_DISK_ERR; }
    forall i | 0 <= i < 512 { v.win[i] := 0; }
    assert v.win[..] == ZeroSector();
    ok := ZeroRun(v, p.BFat() + 1, p.nFat - 1);
    if !ok { return FR_DISK_ERR; }
    ok := ZeroRun(v, p.BDir(), RootSpan(p));
    if !ok { return FR_DISK_ERR; }
    return FR_OK;
  }

  /** The FSInfo sector and its backup; the results are ignored. */
  method WriteCounters(v: Volume, p: Plan)
    requires v.win.Length == 512 && p.fmt == Fat32 && p.bVol + 8 <= |v.dev.sectors|
    modifies v.win, v.dev`sectors
    ensures |v.dev.sectors| == |old(v.dev.sectors)|
    ensures forall s :: 0 <= s < |v.dev.sectors| && s != p.bVol + 1 && s != p.bVol + 7 ==>
      v.dev.sectors[s] == old(v.dev.sectors)[s]
    ensures v.dev.reliable ==>
      && v.dev.sectors[p.bVol + 1] == FsInfo.Encode(W32(p.nClst - 1), 2)
      && v.dev.sectors[p.bVol + 7] == FsInfo.Encode(W32(p.nClst - 1), 2)
  {
    hide FsInfo.Encode;
    var _ := PutSector(v, FsInfo.Encode(W32(p.nClst - 1), 2), p.bVol + 1);
    var _ := v.dev.Write(v.win, p.bVol + 7);
  }

  /** The answer of f_mkfs, for a legal cluster size and a device of n sectors that does not fail. */
  predicate Decided(res: FResult, p: Plan, n: nat, sfd: bool, au: nat, block: nat)
  {
    && (res == FR_OK <==> Formats(n, sfd, au, block))
    && (res == FR_MKFS_ABORTED <==> n >= 128 && Request(n, sfd, au, block).Abort?)
    && (res == FR_OK ==> Request(n, sfd, au, block) == Go(p))
  }

  /** f_mkfs, from the parameter check on: au in bytes, block the erase block size the device reports. */
  method Mkfs(v: Volume, sfd: bool, au: Dword, block: nat, tim: Dword)
    returns (res: FResult, ghost p: Plan, ghost md: Byte, ghost blk: nat)
    requires v.win.Length == 512 && |v.dev.sectors| < 0xFFFF_0000
    requires block == 0 || block > 0x8000 || IsPow2(block)
    requires au != 0 ==> Quotient(|v.dev.sectors|, Unit(au)) + 2 <= MaxFatent(Fat32)
    modifies v.win, v`mounted, v.dev`sectors, v.dev`ready
    ensures |v.dev.sectors| == |old(v.dev.sectors)|
    ensures res in {FR_OK, FR_INVALID_PARAMETER, FR_NOT_READY, FR_DISK_ERR, FR_MKFS_ABORTED}
    ensures res == FR_INVALID_PARAMETER <==> au != 0 && !IsPow2(au)
    ensures res == FR_OK ==> !v.mounted && v.dev.ready && Formatted(p, md, tim, v.dev.sectors)
    ensures res == FR_OK ==> Formattable(p.bVol, p.nVol, p.au, blk) && PlanFor(p.bVol, p.nVol, p.au, blk) == Go(p)
    ensures res == FR_OK ==> p.bVol == (if sfd then 0 else 63) && p.bVol + p.nVol == |v.dev.sectors| && Fits(p)
    ensures res == FR_OK ==>
      p.au == Unit(SizeFor(au, p.nVol)) && (blk == BlockFor(block) || (blk == 1 && !v.dev.reliable))
    ensures res == FR_OK && v.dev.reliable && p.fmt == Fat32 ==> Copied(p, md, tim, v.dev.sectors)
    // on a drive that does not fail, the parameters and the size of the device decide
    ensures v.dev.reliable && (au == 0 || IsPow2(au)) ==> Decided(res, p, |v.dev.sectors|, sfd, au, block)
  {
    hide And, IsPow2, BootRecord, FirstFat, MasterRecord, FsInfo.Encode, Quotient, PlanFor, Unit, Row, RootSpan,
      Request;
    p, md, blk := Plan(Fat12, 0, 0, 1, 0, 0, 0, 0), 0, 1;
    if au != 0 { PowerTest(au); }
    if au != 0 && And(au, au - 1) != 0 { return FR_INVALID_PARAMETER, p, md, blk; }
    v.mounted := false;
    var up := v.dev.Initialize();
    if !up { return FR_NOT_READY, p, md, blk; }
    var plan;
    res, plan, blk := PlanVolume(v, sfd, au, block);
    if res != FR_OK { return; }
    PlanFacts(plan.bVol, plan.nVol, plan.au, blk);
    p, md := plan, if sfd then 0xF0 else 0xF8;
    res := WriteVolume(v, plan, if sfd then 0xF0 else 0xF8, tim);
  }

  /** The planning part of f_mkfs: the device is asked for its size and its erase block size. */
  method PlanVolume(v: Volume, sfd: bool, au: Dword, block: nat) returns (res: FResult, p: Plan, ghost blk: nat)
    requires |v.dev.sectors| < 0xFFFF_0000 && (au == 0 || IsPow2(au))
    requires block == 0 || block > 0x8000 || IsPow2(block)
    requires au != 0 ==> Quotient(|v.dev.sectors|, Unit(au)) + 2 <= MaxFatent(Fat32)
    ensures res in {FR_OK, FR_DISK_ERR, FR_MKFS_ABORTED}
    ensures res == FR_OK ==> |v.dev.sectors| >= 128
    ensures res == FR_OK ==> Formattable(p.bVol, p.nVol, p.au, blk) && PlanFor(p.bVol, p.nVol, p.au, blk) == Go(p)
    ensures res == FR_OK ==> p.bVol == (if sfd then 0 else 63) && p.bVol + p.nVol == |v.dev.sectors|
    ensures res == FR_OK ==>
      p.au == Unit(SizeFor(au, p.nVol)) && (blk == BlockFor(block) || (blk == 1 && !v.dev.reliable))
    ensures v.dev.reliable ==>
      var n := |v.dev.sectors|;
      && (res == FR_DISK_ERR <==> n < 128)
      && (n >= 128 ==> res == if Request(n, sfd, au, block).Go? then FR_OK else FR_MKFS_ABORTED)
      && (res == FR_OK ==> Request(n, sfd, au, block) == Go(p))
  {
    hide IsPow2, Quotient, PlanFor, Unit, Row;
    p, blk := Plan(Fat12, 0, 0, 1, 0, 0, 0, 0), 1;
    var ok := v.dev.Attempt();
    if !ok || |v.dev.sectors| < 128 { return FR_DISK_ERR, p, blk; }
    var bVol := if sfd then 0 else 63;
    var nVol := |v.dev.sectors| - bVol;
    var size := au;
    if size == 0 {
      size := AutoUnit(nVol);
      AutoFacts(nVol, Row(nVol / 2000, 0));
    } else {
      QuotientMono(nVol, |v.dev.sectors|, Unit(au));
    }
    UnitPower(size);
    var n := block;
    ok := v.dev.Attempt();
    if !ok || n == 0 || n > 0x8000 { n := 1; }
    OnePower();
    var plan := PlanFor(bVol, nVol, Unit(size), n);
    if plan.Abort? { return FR_MKFS_ABORTED, p, blk; }
    PlanFacts(bVol, nVol, Unit(size), n);
    return FR_OK, plan.p, n;
  }

  lemma OnePower()
    ensures IsPow2(1)
  {
  }

  /** The automatic cluster size is a power of two, and keeps the number of clusters small. */
  lemma AutoFacts(nVol: nat, i: nat)
    requires i < |VST| && nVol < 0xFFFF_0000 && forall k :: 0 <= k < i ==> nVol / 2000 < VST[k]
    ensures IsPow2(CST[i]) && CST[i] > 0
    ensures Quotient(nVol, Unit(CST[i])) + 2 <= MaxFatent(Fat32)
  {
    assert IsPow2(512) by { assert IsPow2(8) && IsPow2(16) && IsPow2(32) && IsPow2(64) && IsPow2(128) && IsPow2(256); }
    assert IsPow2(1024) && IsPow2(2048) && IsPow2(4096) && IsPow2(8192) && IsPow2(16384) && IsPow2(32768);
    assert i > 0 ==> nVol / 2000 < VST[0];
    QuotientBound(nVol, Unit(CST[i]));
    if i == 0 { assert Unit(32768) == 64 && Quotient(nVol, 64) * 64 <= nVol; }
  }

  /** The FSInfo sector of a FAT32 volume, and the copies of it and of the boot record. */
  ghost predicate Copied(p: Plan, md: Byte, tim: Dword, d: seq<Sector>)
  {
    && p.au < 256 && p.bVol + 7 < |d|
    && d[p.bVol + 1] == FsInfo.Encode(W32(p.nClst - 1), 2) && d[p.bVol + 7] == d[p.bVol + 1]
    && d[p.bVol + 6] == BootRecord(p, md, tim)
  }

  /** The writing part of f_mkfs. */
  method WriteVolume(v: Volume, p: Plan, md: Byte, tim: Dword) returns (res: FResult)
    requires v.win.Length == 512 && 0 < p.au <= 128 && (p.bVol == 0 || p.bVol == 63) && 0 < p.nFat && 0 < p.nRsv
    requires (p.fmt == Fat32 ==> p.nRsv >= 32) && p.nDir == (if p.fmt == Fat32 then 0 else 32)
    requires p.bVol + p.nVol == |v.dev.sectors|
    modifies v.win, v.dev`sectors
    ensures |v.dev.sectors| == |old(v.dev.sectors)|
    ensures res == FR_OK || res == FR_DISK_ERR
    ensures res == FR_OK ==> Formatted(p, md, tim, v.dev.sectors) && Fits(p)
    ensures res == FR_OK && v.dev.reliable && p.fmt == Fat32 ==> Copied(p, md, tim, v.dev.sectors)
    ensures v.dev.reliable ==> (res == FR_OK <==> p.BDir() + RootSpan(p) <= |v.dev.sectors|)
  {
    hide BootRecord, FirstFat, MasterRecord, FsInfo.Encode;
    res := WriteRecords(v, p, md, tim);
    if res != FR_OK { return; }
    res := WriteTables(v, p, md);
    if res != FR_OK { return; }
    if p.fmt == Fat32 { WriteCounters(v, p); }
    var ok := v.dev.Attempt();
    if !ok { return FR_DISK_ERR; }
  }

  // ----- f_mkfs and chk_mounted together -----

  /** The root directory holds no entry: its sectors are zero. */
  ghost predicate EmptyRoot(p: Plan, view: seq<Sector>)
  {
    p.BDir() + RootSpan(p) <= |view| && forall s :: p.BDir() <= s < p.BDir() + RootSpan(p) ==> view[s] == ZeroSector()
  }

  /**
   * A volume that has been formatted is mounted with the planned geometry exactly when the alignment left room for
   * a cluster. It then has a well-formed FAT, an empty root directory, and on FAT32 a free count that is the real
   * number of free clusters.
   */
  method MkfsAndMount(v: Volume, sfd: bool, au: Dword, block: nat, tim: Dword, fsid: nat)
    returns (res: FResult, mount: FResult, ghost p: Plan)
    requires v.win.Length == 512 && |v.dev.sectors| < 0xFFFF_0000 && v.dev.reliable
    requires block == 0 || block > 0x8000 || IsPow2(block)
    requires au != 0 ==> Quotient(|v.dev.sectors|, Unit(au)) + 2 <= MaxFatent(Fat32)
    modifies v, v.win, v.dev`sectors, v.dev`ready
    ensures |v.dev.sectors| == |old(v.dev.sectors)|
    ensures res == FR_OK <==> Formats(|v.dev.sectors|, sfd, au, block)
    ensures res == FR_OK ==> Request(|v.dev.sectors|, sfd, au, block) == Go(p) && (mount == FR_OK <==> Room(p))
    ensures res == FR_OK && mount == FR_OK ==>
      && v.Valid() && !v.strayed && v.geo == GeoOf(p)
      && WellFormed(v.Table()) && EmptyRoot(p, v.View())
      && FreeCount(v.Table()) == p.nClst - (if p.fmt == Fat32 then 1 else 0)
      && (p.fmt == Fat32 ==> v.freeClust == FreeCount(v.Table()) && Chain(v.Table(), [2]))
      && v.Counted() && v.Tallied()
  {
    hide IsPow2, BootRecord, FirstFat, MasterRecord, Quotient, PlanFor, RecordAt, Parse, FreshFat, Mounted,
      Volume.Valid, FsInfo.Encode, CountersThere, Sound, OnDevice, KindOf, Volume.Table, FreeCount, WellFormed, Chain,
      EmptyRoot, Formatted, Room, Fits, GeoOf, Formattable, Request, Formats;
    FormatsLegal(|v.dev.sectors|, sfd, au, block);
    ghost var md, n;
    mount := FR_OK;
    res, p, md, n := Mkfs(v, sfd, au, block, tim);
    if res != FR_OK { return; }
    MountableIff(p, md, tim, v.dev.sectors, n);
    var id;
    ghost var bsect;
    mount, id, bsect := Mount(v, fsid);
    if mount == FR_OK {
      MountedPlan(v, p, md, tim, bsect, n);
      MountedFresh(v, p, md, tim);
    }
  }

  lemma FormatsLegal(n: nat, sfd: bool, au: nat, block: nat)
    ensures Formats(n, sfd, au, block) ==> au == 0 || IsPow2(au)
  {
  }

  /** Whether the boot record of a formatted drive is accepted. */
  lemma MountableIff(p: Plan, md: Byte, tim: Dword, d: seq<Sector>, n: nat)
    requires Formatted(p, md, tim, d) && Fits(p)
    requires Formattable(p.bVol, p.nVol, p.au, n) && PlanFor(p.bVol, p.nVol, p.au, n) == Go(p)
    ensures |d| > 0 && RecordAt(d) >= 0
    ensures Parse(d[RecordAt(d)], RecordAt(d)).Accepted? <==> Room(p)
  {
    hide IsPow2, BootRecord, MasterRecord, Quotient, PlanFor, RecordAt, Parse, FreshFat, KindOf;
    FormattedAccepted(p.bVol, p.nVol, p.au, n, md, tim);
    FormattedRecord(p, md, tim, d);
  }

  /** Mounting a formatted volume yields the planned geometry, and on FAT32 the count in the FSInfo sector. */
  lemma MountedPlan(v: Volume, p: Plan, md: Byte, tim: Dword, bsect: Dword, n: nat)
    requires Mounted(v, bsect) && Formatted(p, md, tim, v.dev.sectors) && Fits(p)
    requires Formattable(p.bVol, p.nVol, p.au, n) && PlanFor(p.bVol, p.nVol, p.au, n) == Go(p)
    requires p.bVol + p.nVol == |v.dev.sectors| && v.dev.reliable
    requires p.fmt == Fat32 ==> v.dev.sectors[p.bVol + 1] == FsInfo.Encode(W32(p.nClst - 1), 2)
    ensures Room(p) && v.geo == GeoOf(p) && v.Valid() && v.Tallied() && !v.strayed && !v.wflag && v.winsect == 0
    ensures v.freeClust == if p.fmt == Fat32 then p.nClst - 1 else UNKNOWN
  {
    hide IsPow2, BootRecord, MasterRecord, Quotient, PlanFor, RecordAt, Parse, FreshFat, FsInfo.Encode, FsInfo.Signed,
      FsInfo.FreeCountOf, Sound, OnDevice, KindOf, Volume.Valid, FatBytes;
    FormattedAccepted(p.bVol, p.nVol, p.au, n, md, tim);
    FormattedRecord(p, md, tim, v.dev.sectors);
    ParseSound(BootRecord(p, md, tim), p.bVol, |v.dev.sectors|);
    PlanFacts(p.bVol, p.nVol, p.au, n);
    MulMono(1, p.nClst, p.au);
    FsInfo.RoundTrip(W32(p.nClst - 1), 2);
  }

  /** What a mounted fresh volume holds. */
  lemma MountedFresh(v: Volume, p: Plan, md: Byte, tim: Dword)
    requires v.Valid() && v.geo == GeoOf(p) && !v.wflag && v.winsect == 0 && Formatted(p, md, tim, v.dev.sectors)
    ensures WellFormed(v.Table()) && EmptyRoot(p, v.View())
    ensures 0 < p.nClst && FreeCount(v.Table()) == p.nClst - (if p.fmt == Fat32 then 1 else 0)
    ensures p.fmt == Fat32 ==> Chain(v.Table(), [2])
  {
    hide IsPow2, BootRecord, FirstFat, MasterRecord, FatOf, CopiesAgree, FreeCount, Chain, WellFormed;
    v.FlushedTable();
    FreshTable(p, md, v.dev.sectors);
  }

  /** An erase block so large that no cluster is left: formatting goes through, mounting will not. */
  lemma NoRoomExample()
    ensures PlanFor(0, 162, 128, 128).Go? && Fits(PlanFor(0, 162, 128, 128).p) && !Room(PlanFor(0, 162, 128, 128).p)
  {
    hide And, Slack, IsPow2;
    var d := Draft(0, 162, 128);
    assert d.fmt == Fat12 && d.BData() == 34;
    Pow128();
    SlackExact(34, 128);
    assert Slack(34, 128) == 94;
  }

  lemma Pow128()
    ensures IsPow2(128)
  {
    assert IsPow2(8);
  }

  // ----- the plan and the records, written out -----

  /** Cluster sizes in bytes by the size of the volume in units of 2000 sectors. */
  lemma SizeRows(nVol: nat)
    ensures var vs := nVol / 2000;
      SizeFor(0, nVol) ==
        if vs >= 1024 then 32768 else if vs >= 512 then 16384 else if vs >= 256 then 8192 else if vs >= 128 then 4096
        else if vs >= 64 then 2048 else if vs >= 32 then 16384 else if vs >= 16 then 8192 else if vs >= 8 then 4096
        else if vs >= 4 then 2048 else if vs >= 2 then 1024 else 512
  {
    var i := Row(nVol / 2000, 0);
    assert i > 0 ==> nVol / 2000 < VST[i - 1];
  }

  /** Sectors per cluster. */
  lemma Units(au: nat)
    ensures au < 1024 ==> Unit(au) == 1
    ensures 1024 <= au < 65536 ==> Unit(au) == au / 512
    ensures au >= 65536 ==> Unit(au) == 128
  {
  }

  /** The layout before alignment: sub-type, reserved sectors, FAT and root directory for n clusters. */
  lemma DraftWritten(bVol: nat, nVol: nat, au: nat)
    requires au > 0
    ensures var d, n := Draft(bVol, nVol, au), Quotient(nVol, au);
      && d.bVol == bVol && d.nVol == nVol && d.au == au
      && (n >= 65526 ==> d.fmt == Fat32 && d.nRsv == 32 && d.nDir == 0 && d.nFat == (4 * n + 519) / 512)
      && (4086 <= n < 65526 ==> d.fmt == Fat16 && d.nRsv == 1 && d.nDir == 32 && d.nFat == (2 * n + 515) / 512)
      && (n < 4086 ==> d.fmt == Fat12 && d.nRsv == 1 && d.nDir == 32 && d.nFat == ((3 * n + 1) / 2 + 514) / 512)
  {
    hide Quotient;
  }

  /** The sectors in front of the data area, up to the next multiple of b. */
  function Gap(data: nat, b: nat): nat
    requires b > 0
  {
    if data % b == 0 then 0 else b - data % b
  }

  /** The plan: the gap goes to the reserved sectors of FAT32 or to the FAT, and the sub-type has to survive that. */
  lemma PlanWritten(bVol: nat, nVol: nat, au: nat, b: nat)
    requires 0 < au <= 128 && IsPow2(b) && 0 < b <= 0x8000 && bVol <= 63 && nVol < 0xFFFF_0000
    requires Quotient(nVol, au) + 2 <= MaxFatent(Fat32)
    ensures var d := Draft(bVol, nVol, au);
      var k := Gap(d.BData(), b);
      var rsv, fat := if d.fmt == Fat32 then d.nRsv + k else d.nRsv, if d.fmt == Fat32 then d.nFat else d.nFat + k;
      var used := rsv + fat + d.nDir;
      if nVol + bVol < d.BData() + au then PlanFor(bVol, nVol, au, b) == Abort
      else if used > nVol then PlanFor(bVol, nVol, au, b).Go? ==> !Fits(PlanFor(bVol, nVol, au, b).p)
      else
        var n := Quotient(nVol - used, au);
        PlanFor(bVol, nVol, au, b) ==
          if (d.fmt == Fat16 && n < 4086) || (d.fmt == Fat32 && n < 65526) then Abort
          else Go(Plan(d.fmt, bVol, nVol, au, rsv, fat, d.nDir, n))
  {
    hide Gap, And, IsPow2, Slack, Quotient, FatSectors;
    var d := Draft(bVol, nVol, au);
    DraftBound(bVol, nVol, au);
    SlackExact(d.BData(), b);
    GapIs(d.BData(), Slack(d.BData(), b), b);
  }

  lemma DraftBound(bVol: nat, nVol: nat, au: nat)
    requires 0 < au <= 128 && bVol <= 63 && Quotient(nVol, au) + 2 <= MaxFatent(Fat32)
    ensures Draft(bVol, nVol, au).BData() + 0x8000 <= 0x1_0000_0000
  {
    hide Quotient;
  }

  lemma GapIs(data: nat, k: nat, b: nat)
    requires 0 < b && k < b && (data + k) % b == 0
    ensures k == Gap(data, b)
  {
    var q, r := data / b, data % b;
    assert data == q * b + r;
    var p := (data + k) / b;
    assert data + k == p * b;
    assert (p - q) * b == r + k;
    if r == 0 { SmallMultiple(p - q, b); } else { NextMultiple(p - q, b, r + k); }
  }

  lemma NextMultiple(d: int, b: nat, x: nat)
    requires d * b == x && 0 < x < 2 * b
    ensures x == b
  {
  }

  /** The fields of the boot record that mounting does not read. */
  lemma CommonBytes(p: Plan, md: Byte)
    requires p.au < 256
    ensures var s := CommonFields(p, md);
      && s[0..11] == [0xEB, 0xFE, 0x90, 0x4D, 0x53, 0x44, 0x4F, 0x53, 0x35, 0x2E, 0x30]
      && s[21] == md && LdWord(s, 24) == 63 && LdWord(s, 26) == 255 && LdDword(s, 28) == p.bVol % 0x1_0000_0000
  {
    hide StWord, StDword;
    var s := CommonFields(p, md);
    assert s[0..11] == JUMP_AND_OEM;
  }

  lemma Fat32Bytes(c: Sector, p: Plan, tim: Dword)
    ensures var s := Fat32Fields(c, p, tim);
      && LdWord(s, 50) == 6 && s[64] == 0x80 && s[66] == 0x29 && LdDword(s, 67) == tim
      && s[71..82] == [0x4E, 0x4F, 0x20, 0x4E, 0x41, 0x4D, 0x45, 0x20, 0x20, 0x20, 0x20]
      && s[82..90] == [0x46, 0x41, 0x54, 0x33, 0x32, 0x20, 0x20, 0x20]
  {
    hide StWord, StDword;
    var s := Fat32Fields(c, p, tim);
    assert s[71..82] == LABEL && s[82..90] == FAT32_NAME;
  }

  lemma Fat16Bytes(c: Sector, p: Plan, tim: Dword)
    ensures var s := Fat16Fields(c, p, tim);
      && s[36] == 0x80 && s[38] == 0x29 && LdDword(s, 39) == tim
      && s[43..54] == [0x4E, 0x4F, 0x20, 0x4E, 0x41, 0x4D, 0x45, 0x20, 0x20, 0x20, 0x20]
      && s[54..62] == [0x46, 0x41, 0x54, 0x20, 0x20, 0x20, 0x20, 0x20]
  {
    hide StWord, StDword;
    var s := Fat16Fields(c, p, tim);
    assert s[43..54] == LABEL && s[54..62] == FAT_NAME;
  }

  /** The boot record keeps these fields. */
  lemma BootBytes(p: Plan, md: Byte, tim: Dword)
    requires p.au < 256
    ensures var s := BootRecord(p, md, tim);
      && s[0..11] == [0xEB, 0xFE, 0x90, 0x4D, 0x53, 0x44, 0x4F, 0x53, 0x35, 0x2E, 0x30]
      && s[21] == md && LdWord(s, 24) == 63 && LdWord(s, 26) == 255 && LdDword(s, 28) == p.bVol % 0x1_0000_0000
      && (if p.fmt == Fat32 then
            && LdWord(s, 50) == 6 && s[64] == 0x80 && s[66] == 0x29 && LdDword(s, 67) == tim
            && s[71..82] == [0x4E, 0x4F, 0x20, 0x4E, 0x41, 0x4D, 0x45, 0x20, 0x20, 0x20, 0x20]
            && s[82..90] == [0x46, 0x41, 0x54, 0x33, 0x32, 0x20, 0x20, 0x20]
          else
            && s[36] == 0x80 && s[38] == 0x29 && LdDword(s, 39) == tim
            && s[43..54] == [0x4E, 0x4F, 0x20, 0x4E, 0x41, 0x4D, 0x45, 0x20, 0x20, 0x20, 0x20]
            && s[54..62] == [0x46, 0x41, 0x54, 0x20, 0x20, 0x20, 0x20, 0x20])
  {
    hide StWord, StDword, CommonFields, Fat32Fields, Fat16Fields, LdWord, LdDword;
    var c := CommonFields(p, md);
    CommonBytes(p, md);
    Fat32Bytes(c, p, tim);
    Fat16Bytes(c, p, tim);
    FrontKept(c, p, tim);
    var r := if p.fmt == Fat32 then Fat32Fields(c, p, tim) else Fat16Fields(c, p, tim);
    var s := BootRecord(p, md, tim);
    assert s == StWord(r, 510, 0xAA55) && forall i :: 0 <= i < 510 ==> s[i] == r[i];
    assert s[0..11] == c[0..11];
    Same(c, s, 24);
    Same(c, s, 26);
    Same(c, s, 28);
    Same(r, s, 50);
    Same(r, s, 67);
    Same(r, s, 39);
    assert s[71..82] == r[71..82] && s[82..90] == r[82..90] && s[43..54] == r[43..54] && s[54..62] == r[54..62];
  }

  lemma FrontKept(c: Sector, p: Plan, tim: Dword)
    ensures forall i :: 0 <= i < 36 && i != 22 && i != 23 ==>
      Fat32Fields(c, p, tim)[i] == c[i] && Fat16Fields(c, p, tim)[i] == c[i]
  {
    hide StWord, StDword;
  }

  /** The partition table entry: start and end in cylinders, heads and sectors, type, start and size in sectors. */
  lemma MasterBytes(p: Plan)
    ensures var s, n := MasterRecord(p), (p.bVol + p.nVol) / 63 / 255;
      && s[446] == 0 && s[447] == 1 && s[448] == 1 && s[449] == 0 && s[451] == 254
      && s[450] == (match p.fmt case Fat12 => 0x01 case Fat16 => if p.nVol < 0x1_0000 then 0x04 else 0x06 case Fat32 => 0x0C)
      && s[452] == n / 256 % 4 * 64 + 63 && s[453] == n % 256
      && LdDword(s, 454) == 63 && LdDword(s, 458) == p.nVol % 0x1_0000_0000 && s[510] == 0x55 && s[511] == 0xAA
  {
    hide StWord, StDword, Or, LdDword;
    var n := (p.bVol + p.nVol) / 63 / 255;
    var s1 := ZeroSector()[447 := 1][448 := 1][450 := SystemId(p)][451 := 254];
    var s2 := s1[452 := Or(n / 4, 63) % 256][453 := n % 256];
    var s3 := StDword(s2, 454, 63);
    var s4 := StDword(s3, 458, p.nVol);
    OrLow(n / 4);
    FsInfo.Apart4(s4, s3, 458, p.nVol, 454);
    LittleEndian(s4, 508, 0);
    SignatureBytes(s4);
    assert forall i :: 454 <= i < 462 ==> MasterRecord(p)[i] == s4[i];
    Same(s4, MasterRecord(p), 454);
    Same(s4, MasterRecord(p), 458);
  }

  lemma SignatureBytes(s: Sector)
    ensures StWord(s, 510, 0xAA55)[510] == 0x55 && StWord(s, 510, 0xAA55)[511] == 0xAA
  {
  }

  /** The first bytes of a fresh FAT. */
  lemma FirstFatBytes(t: FsType, md: Byte)
    ensures var s := FirstFat(t, md);
      && s[0] == md && s[1] == 0xFF && s[2] == 0xFF && s[3] == (if t == Fat12 then 0x00 else 0xFF)
      && (t == Fat32 ==> s[4..8] == [0xFF, 0xFF, 0xFF, 0xFF] && s[8..12] == [0xFF, 0xFF, 0xFF, 0x0F])
      && forall i :: (if t == Fat32 then 12 else 4) <= i < 512 ==> s[i] == 0
  {
    hide StDword, StWord, LdDword, LdWord;
    LittleEndian(ZeroSector(), 0, 0x00FF_FF00 + md);
    LittleEndian(ZeroSector(), 0, 0xFFFF_FF00 + md);
    var s0 := StDword(ZeroSector(), 0, 0xFFFF_FF00 + md);
    LittleEndian(s0, 4, 0xFFFF_FFFF);
    LittleEndian(StDword(s0, 4, 0xFFFF_FFFF), 8, 0x0FFF_FFFF);
    var s := FirstFat(t, md);
    assert s[4..8] == [s[4], s[5], s[6], s[7]] && s[8..12] == [s[8], s[9], s[10], s[11]];
  }

  /** The low six bits set. */
  lemma OrLow(x: nat)
    ensures Or(x, 63) % 256 == x / 64 % 4 * 64 + 63
  {
    hide Or;
    var a := x / 2;
    var b := a / 2;
    var c := b / 2;
    var d := c / 2;
    var e := d / 2;
    var q := e / 2;
    OrOdd(x, 31);
    OrOdd(a, 15);
    OrOdd(b, 7);
    OrOdd(c, 3);
    OrOdd(d, 1);
    OrOdd(e, 0);
    OrZero(q);
    ModUnique(q * 64 + 63, 256, q / 4, q % 4 * 64 + 63);
  }

  lemma OrOdd(x: nat, m: nat)
    ensures Or(x, 2 * m + 1) == 2 * Or(x / 2, m) + 1
  {
  }

  lemma {:induction false} OrZero(x: nat)
    ensures Or(x, 0) == x
  {
    if x > 0 { OrZero(x / 2); }
  }
}
