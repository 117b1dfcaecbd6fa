// The FSInfo sector of a FAT32 volume: signatures, free cluster count, last allocated cluster.
module FsInfo {
  import opened Words

  const BS_55AA: nat := 510
  const FSI_LEAD_SIG: nat := 0
  const FSI_STRUC_SIG: nat := 484
  const FSI_FREE_COUNT: nat := 488
  const FSI_NXT_FREE: nat := 492

  /** The sector written for the given counters. */
  function Encode(free: nat, last: nat): Sector
  {
    var s0 := StWord(ZeroSector(), BS_55AA, 0xAA55);
    var s1 := StDword(s0, FSI_LEAD_SIG, 0x4161_5252);
    var s2 := StDword(s1, FSI_STRUC_SIG, 0x6141_7272);
    var s3 := StDword(s2, FSI_FREE_COUNT, free);
    StDword(s3, FSI_NXT_FREE, last)
  }

  /** The signature test mounting applies before it trusts the counters. */
  predicate Signed(s: Sector)
  {
    && LdWord(s, BS_55AA) == 0xAA55
    && LdDword(s, FSI_LEAD_SIG) == 0x4161_5252
    && LdDword(s, FSI_STRUC_SIG) == 0x6141_7272
  }

  function FreeCountOf(s: Sector): Dword { LdDword(s, FSI_FREE_COUNT) }

  function LastOf(s: Sector): Dword { LdDword(s, FSI_NXT_FREE) }

  /** The count that mounting takes from the sector: unknown unless it is signed. */
  function Loaded(s: Sector): Dword
  {
    if Signed(s) then FreeCountOf(s) else 0xFFFF_FFFF
  }

  /** The five fields lie apart, so every counter pair is read back. */
  lemma RoundTrip(free: Dword, last: Dword)
    ensures Signed(Encode(free, last))
    ensures FreeCountOf(Encode(free, last)) == free && LastOf(Encode(free, last)) == last
  {
    var s0 := StWord(ZeroSector(), BS_55AA, 0xAA55);
    var s1 := StDword(s0, FSI_LEAD_SIG, 0x4161_5252);
    var s2 := StDword(s1, FSI_STRUC_SIG, 0x6141_7272);
    var s3 := StDword(s2, FSI_FREE_COUNT, free);
    var s4 := StDword(s3, FSI_NXT_FREE, last);
    Apart(s1, s0, FSI_LEAD_SIG, 0x4161_5252, BS_55AA);
    Apart(s2, s1, FSI_STRUC_SIG, 0x6141_7272, BS_55AA);
    Apart(s3, s2, FSI_FREE_COUNT, free, BS_55AA);
    Apart(s4, s3, FSI_NXT_FREE, last, BS_55AA);
    Apart4(s2, s1, FSI_STRUC_SIG, 0x6141_7272, FSI_LEAD_SIG);
    Apart4(s3, s2, FSI_FREE_COUNT, free, FSI_LEAD_SIG);
    Apart4(s4, s3, FSI_NXT_FREE, last, FSI_LEAD_SIG);
    Apart4(s3, s2, FSI_FREE_COUNT, free, FSI_STRUC_SIG);
    Apart4(s4, s3, FSI_NXT_FREE, last, FSI_STRUC_SIG);
    Apart4(s4, s3, FSI_NXT_FREE, last, FSI_FREE_COUNT);
  }

  lemma Apart(r: seq<Byte>, b: seq<Byte>, o: nat, v: nat, p: nat)
    requires o + 4 <= |b| && p + 2 <= |b| && (p + 2 <= o || o + 4 <= p) && r == StDword(b, o, v)
    ensures LdWord(r, p) == LdWord(b, p)
  {
  }

  lemma Apart4(r: seq<Byte>, b: seq<Byte>, o: nat, v: nat, p: nat)
    requires o + 4 <= |b| && p + 4 <= |b| && (p + 4 <= o || o + 4 <= p) && r == StDword(b, o, v)
    ensures LdDword(r, p) == LdDword(b, p)
  {
  }

  /** All others are zero. */
  lemma EncodeRest(free: Dword, last: Dword)
    ensures forall i :: 4 <= i < 484 || 496 <= i < 510 ==> Encode(free, last)[i] == 0
  {
    hide StDword, StWord;
  }

  /** The signatures that are looked for, and the count that is taken. */
  lemma SignedBytes(s: Sector)
    ensures Signed(s) <==>
      s[0..4] == [0x52, 0x52, 0x61, 0x41] && s[484..488] == [0x72, 0x72, 0x41, 0x61] && s[510..512] == [0x55, 0xAA]
    ensures FreeCountOf(s) == s[488] as nat + 0x100 * s[489] as nat + 0x1_0000 * s[490] as nat + 0x100_0000 * s[491] as nat
    ensures LastOf(s) == s[492] as nat + 0x100 * s[493] as nat + 0x1_0000 * s[494] as nat + 0x100_0000 * s[495] as nat
  {
    LittleEndian(s, 0, 0);
    LittleEndian(s, 484, 0);
    LittleEndian(s, 488, 0);
    LittleEndian(s, 492, 0);
    assert s[0..4] == [s[0], s[1], s[2], s[3]] && s[484..488] == [s[484], s[485], s[486], s[487]];
    assert s[510..512] == [s[510], s[511]];
  }
}
