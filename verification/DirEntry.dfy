// The 32-byte directory entry: its fields, and the update that f_sync makes.
module DirEntry {
  import opened Words
  import opened Layout

  const SZ_DIR: nat := 32
  const DIR_ATTR: nat := 11
  const DIR_LST_ACC_DATE: nat := 18
  const DIR_FST_CLUS_HI: nat := 20
  const DIR_WRT_TIME: nat := 22
  const DIR_FST_CLUS_LO: nat := 26
  const DIR_FILE_SIZE: nat := 28

  /** ld_clust: the start cluster in the entry at p; its high half exists on FAT32 only. */
  function LdClust(t: FsType, s: seq<Byte>, p: nat): Dword
    requires p + 32 <= |s|
  {
    (LdWord(s, p + DIR_FST_CLUS_LO) as int) +
    (if t == Fat32 then 0x1_0000 * (LdWord(s, p + DIR_FST_CLUS_HI) as int) else 0)
  }

  function FileSize(s: seq<Byte>, p: nat): Dword
    requires p + 32 <= |s|
  {
    LdDword(s, p + DIR_FILE_SIZE)
  }

  /** attr | AM_ARC */
  function Archived(attr: Byte): Byte
  {
    if attr / 32 % 2 == 1 then attr else attr + 32
  }

  /** The entry at p as f_sync leaves it. */
  function Touched(s: Sector, p: nat, size: Dword, clust: Dword, tim: Dword): Sector
    requires p + 32 <= 512
  {
    var s1 := s[p + DIR_ATTR := Archived(s[p + DIR_ATTR])];
    var s2 := StDword(s1, p + DIR_FILE_SIZE, size);
    var s3 := StWord(s2, p + DIR_FST_CLUS_LO, clust);
    var s4 := StWord(s3, p + DIR_FST_CLUS_HI, clust / 0x1_0000);
    var s5 := StDword(s4, p + DIR_WRT_TIME, tim);
    StWord(s5, p + DIR_LST_ACC_DATE, 0)
  }

  /** The fields lie apart: size and start cluster are read back, and nothing outside the entry changes. */
  lemma TouchedFields(t: FsType, s: Sector, p: nat, size: Dword, clust: Dword, tim: Dword)
    requires p + 32 <= 512
    ensures var r := Touched(s, p, size, clust, tim);
      && FileSize(r, p) == size
      && (t == Fat32 || clust < 0x1_0000 ==> LdClust(t, r, p) == clust)
      && r[p + DIR_ATTR] == Archived(s[p + DIR_ATTR])
      && (forall i :: 0 <= i < 512 && !(p + 11 <= i < p + 12 || p + 18 <= i < p + 32) ==> r[i] == s[i])
  {
    hide StWord, StDword;
    var s1 := s[p + DIR_ATTR := Archived(s[p + DIR_ATTR])];
    var s2 := StDword(s1, p + DIR_FILE_SIZE, size);
    var s3 := StWord(s2, p + DIR_FST_CLUS_LO, clust);
    var s4 := StWord(s3, p + DIR_FST_CLUS_HI, clust / 0x1_0000);
    var s5 := StDword(s4, p + DIR_WRT_TIME, tim);
    var s6 := StWord(s5, p + DIR_LST_ACC_DATE, 0);
    assert forall i :: p + 26 <= i < p + 32 ==> s6[i] == s3[i];
    assert forall i :: p + 20 <= i < p + 22 ==> s6[i] == s4[i];
    assert forall i :: p + 28 <= i < p + 32 ==> s6[i] == s2[i];
    assert LdDword(s6, p + 28) == LdDword(s2, p + 28);
    assert LdWord(s6, p + 26) == LdWord(s3, p + 26);
    assert LdWord(s6, p + 20) == LdWord(s4, p + 20);
  }

  /** The bytes that f_sync writes: archive bit, access date, start cluster, time, size. */
  lemma TouchedBytes(s: Sector, p: nat, size: Dword, clust: Dword, tim: Dword)
    requires p + 32 <= 512
    ensures var r := Touched(s, p, size, clust, tim);
      && r[p + 11] / 32 % 2 == 1 && r[p + 11] % 32 == s[p + 11] % 32 && r[p + 11] / 64 == s[p + 11] / 64
      && r[p + 18] == 0 && r[p + 19] == 0
      && r[p + 20] == clust / 0x1_0000 % 0x100 && r[p + 21] == clust / 0x100_0000
      && r[p + 22] == tim % 0x100 && r[p + 23] == tim / 0x100 % 0x100
      && r[p + 24] == tim / 0x1_0000 % 0x100 && r[p + 25] == tim / 0x100_0000
      && r[p + 26] == clust % 0x100 && r[p + 27] == clust / 0x100 % 0x100
      && r[p + 28] == size % 0x100 && r[p + 29] == size / 0x100 % 0x100
      && r[p + 30] == size / 0x1_0000 % 0x100 && r[p + 31] == size / 0x100_0000
  {
    hide StWord, StDword, Archived;
    var s1 := s[p + DIR_ATTR := Archived(s[p + DIR_ATTR])];
    var s2 := StDword(s1, p + DIR_FILE_SIZE, size);
    var s3 := StWord(s2, p + DIR_FST_CLUS_LO, clust);
    var s4 := StWord(s3, p + DIR_FST_CLUS_HI, clust / 0x1_0000);
    var s5 := StDword(s4, p + DIR_WRT_TIME, tim);
    ArchivedBits(s[p + 11]);
    LittleEndian(s1, p + 28, size);
    LittleEndian(s2, p + 26, clust);
    LittleEndian(s3, p + 20, clust / 0x1_0000);
    LittleEndian(s4, p + 22, tim);
    LittleEndian(s5, p + 18, 0);
    assert clust / 0x1_0000 / 0x100 == clust / 0x100_0000;
  }

  lemma ArchivedBits(b: Byte)
    ensures Archived(b) / 32 % 2 == 1 && Archived(b) % 32 == b % 32 && Archived(b) / 64 == b / 64
  {
  }

  /** The bytes that start cluster and size are read from; the high half of the cluster is used on FAT32 only. */
  lemma FieldBytes(t: FsType, s: seq<Byte>, p: nat)
    requires p + 32 <= |s|
    ensures LdClust(t, s, p) == s[p + 26] as nat + 0x100 * s[p + 27] as nat +
      if t == Fat32 then 0x1_0000 * s[p + 20] as nat + 0x100_0000 * s[p + 21] as nat else 0
    ensures FileSize(s, p) ==
      s[p + 28] as nat + 0x100 * s[p + 29] as nat + 0x1_0000 * s[p + 30] as nat + 0x100_0000 * s[p + 31] as nat
  {
  }
}
