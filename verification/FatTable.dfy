// The packed FAT: three encodings of an array of cluster entries in the sectors of the first FAT copy.
module FatTable {
  import opened Words
  import opened Layout

  /** Number of distinct values an entry can hold. */
  function Width(t: FsType): nat
  {
    match t
    case Fat12 => 0x1000
    case Fat16 => 0x1_0000
    case Fat32 => 0x1000_0000
  }

  /** What the end-of-chain mark 0x0FFFFFFF becomes in the entry width. */
  function EndMark(t: FsType): nat
  {
    Width(t) - 1
  }

  /** What put_fat keeps of a value in the entry width. */
  function Stored(t: FsType, val: nat): nat
  {
    val % Width(t)
  }

  /** The end mark as put_fat stores it, and a cluster number as put_fat stores it. */
  lemma StoredValue(t: FsType, c: nat)
    ensures Stored(t, 0x0FFF_FFFF) == EndMark(t)
    ensures c <= EndMark(t) ==> Stored(t, c) == c
  {
  }

  /** Sector and offset of byte i of the FAT. */
  function FatSector(g: Geometry, i: nat): nat
  {
    g.fatbase + i / SECTOR_SIZE
  }

  /** Index of the first FAT byte that entry c occupies, and number of bytes the access touches. */
  function EntryPos(t: FsType, c: nat): nat
  {
    match t
    case Fat12 => c + c / 2
    case Fat16 => 2 * c
    case Fat32 => 4 * c
  }

  function EntryLen(t: FsType): nat
  {
    match t
    case Fat12 => 2
    case Fat16 => 2
    case Fat32 => 4
  }

  /** Every access stays inside the FAT, and the size formula leaves no byte unused. */
  lemma EntryInFat(g: Geometry, c: nat, n: nat)
    requires FatFits(g, n) && c < g.nFatent
    ensures var p := EntryPos(g.fsType, c) + EntryLen(g.fsType);
      && p <= FatBytes(g.fsType, g.nFatent)
      && (c == g.nFatent - 1 ==> p == FatBytes(g.fsType, g.nFatent))
    ensures ByteInFat(g, EntryPos(g.fsType, c), n)
    ensures ByteInFat(g, EntryPos(g.fsType, c) + 1, n)
    ensures g.fsType != Fat12 ==>
      EntryPos(g.fsType, c) % SECTOR_SIZE + EntryLen(g.fsType) <= SECTOR_SIZE
  {
    Aligned(c);
    assert g.nFatent * 3 / 2 == g.nFatent + g.nFatent / 2;
  }

  lemma Aligned(c: nat)
    ensures 2 * c % 512 <= 510 && 4 * c % 512 <= 508
  {
    assert c == 256 * (c / 256) + c % 256;
    assert c == 128 * (c / 128) + c % 128;
  }

  predicate ByteInFat(g: Geometry, i: nat, n: nat)
  {
    InFat(g, FatSector(g, i)) && FatSector(g, i) < n
  }

  function FatByte(g: Geometry, v: seq<Sector>, i: nat): Byte
    requires FatSector(g, i) < |v|
  {
    v[FatSector(g, i)][i % SECTOR_SIZE]
  }

  /** The twelve bits of a FAT12 entry: (lo | hi << 8), then >> 4 for odd clusters or & 0xFFF for even ones. */
  function Unpack12(c: nat, lo: Byte, hi: Byte): (r: nat)
    ensures r < 0x1000
  {
    var w := (lo as int) + 256 * (hi as int);
    if c % 2 == 1 then w / 16 else w % 0x1000
  }

  /** The value get_fat decodes from the bytes of entry c. */
  ghost function Entry(g: Geometry, v: seq<Sector>, c: nat): (r: nat)
    requires FatFits(g, |v|) && c < g.nFatent
    ensures r < Width(g.fsType)
  {
    EntryInFat(g, c, |v|);
    var i := EntryPos(g.fsType, c);
    var s, o := FatSector(g, i), i % SECTOR_SIZE;
    match g.fsType
    case Fat12 => Unpack12(c, FatByte(g, v, i), FatByte(g, v, i + 1))
    case Fat16 => LdWord(v[s], o)
    case Fat32 => LdDword(v[s], o) % 0x1000_0000
  }

  /** A FAT12 entry, in terms of the two bytes it occupies. */
  lemma Entry12(g: Geometry, v: seq<Sector>, c: nat)
    requires FatFits(g, |v|) && c < g.nFatent && g.fsType == Fat12
    ensures var i := EntryPos(Fat12, c);
      && ByteInFat(g, i, |v|) && ByteInFat(g, i + 1, |v|)
      && Entry(g, v, c) == Unpack12(c, FatByte(g, v, i), FatByte(g, v, i + 1))
  {
    EntryInFat(g, c, |v|);
  }

  /** A FAT16 or FAT32 entry lies within one sector. */
  lemma EntryWord(g: Geometry, v: seq<Sector>, c: nat)
    requires FatFits(g, |v|) && c < g.nFatent && g.fsType != Fat12
    ensures var i := EntryPos(g.fsType, c);
      && ByteInFat(g, i, |v|) && i % 512 + EntryLen(g.fsType) <= 512
      && Entry(g, v, c) ==
           if g.fsType == Fat16 then LdWord(v[FatSector(g, i)], i % 512)
           else LdDword(v[FatSector(g, i)], i % 512) % 0x1000_0000
  {
    EntryInFat(g, c, |v|);
  }

  /** The FAT as an array of entries. */
  ghost function FatOf(g: Geometry, v: seq<Sector>): (f: seq<nat>)
    requires FatFits(g, |v|)
    ensures |f| == g.nFatent
    ensures forall c :: 0 <= c < g.nFatent ==> f[c] == Entry(g, v, c)
  {
    seq(g.nFatent, c requires 0 <= c < g.nFatent => Entry(g, v, c))
  }

  /** v with byte i of the FAT replaced. */
  ghost function SetByte(g: Geometry, v: seq<Sector>, i: nat, b: Byte): (r: seq<Sector>)
    requires FatSector(g, i) < |v|
    ensures |r| == |v|
    ensures forall j: nat :: FatSector(g, j) < |v| ==>
      FatByte(g, r, j) == if j == i then b else FatByte(g, v, j)
  {
    var s := FatSector(g, i);
    v[s := v[s][i % SECTOR_SIZE := b]]
  }

  // ----- what the three branches of put_fat do to the table -----

  /** First byte of a FAT12 entry after the write; p is the byte before it. */
  function Low12(c: nat, p: Byte, val: nat): Byte
  {
    if c % 2 == 1 then p % 16 + val % 16 * 16 else val % 256
  }

  /** Second byte of a FAT12 entry after the write. */
  function High12(c: nat, p: Byte, val: nat): Byte
  {
    if c % 2 == 1 then val / 16 % 256 else p / 16 * 16 + val / 256 % 16
  }

  ghost function Put12(g: Geometry, v: seq<Sector>, c: nat, val: nat): (r: seq<Sector>)
    requires FatFits(g, |v|) && g.fsType == Fat12 && c < g.nFatent
    ensures |r| == |v|
  {
    EntryInFat(g, c, |v|);
    var i := EntryPos(Fat12, c);
    var v1 := SetByte(g, v, i, Low12(c, FatByte(g, v, i), val));
    SetByte(g, v1, i + 1, High12(c, FatByte(g, v, i + 1), val))
  }

  ghost function Put16(g: Geometry, v: seq<Sector>, c: nat, val: nat): (r: seq<Sector>)
    requires FatFits(g, |v|) && g.fsType == Fat16 && c < g.nFatent
    ensures |r| == |v|
  {
    EntryInFat(g, c, |v|);
    var i := EntryPos(Fat16, c);
    var s := FatSector(g, i);
    v[s := StWord(v[s], i % 512, val)]
  }

  /** The dword stored for val over the old dword: the old top four bits are or'ed in. */
  function Merge32(was: Dword, val: nat): nat
  {
    Or(val, And(was, 0xF000_0000))
  }

  ghost function Put32(g: Geometry, v: seq<Sector>, c: nat, val: nat): (r: seq<Sector>)
    requires FatFits(g, |v|) && g.fsType == Fat32 && c < g.nFatent
    ensures |r| == |v|
  {
    EntryInFat(g, c, |v|);
    var i := EntryPos(Fat32, c);
    var s := FatSector(g, i);
    v[s := StDword(v[s], i % 512, Merge32(LdDword(v[s], i % 512), val))]
  }

  ghost function PutEntry(g: Geometry, v: seq<Sector>, c: nat, val: nat): (r: seq<Sector>)
    requires FatFits(g, |v|) && c < g.nFatent
    ensures |r| == |v|
  {
    match g.fsType
    case Fat12 => Put12(g, v, c, val)
    case Fat16 => Put16(g, v, c, val)
    case Fat32 => Put32(g, v, c, val)
  }

  lemma Pack12(c: nat, lo: Byte, hi: Byte, val: nat)
    ensures Unpack12(c, Low12(c, lo, val), High12(c, hi, val)) == val % 0x1000
    // the nibble shared with the neighbouring entry keeps its value
    ensures c % 2 == 1 ==> Low12(c, lo, val) % 16 == lo % 16
    ensures c % 2 == 0 ==> High12(c, hi, val) / 16 == hi / 16
  {
    if c % 2 == 1 {
      Nibbles(lo % 16, val % 16);
      Split12(Low12(c, lo, val), High12(c, hi, val));
      Split12Odd(val);
    } else {
      Nibbles(val / 256 % 16, hi / 16);
      Split12(Low12(c, lo, val), High12(c, hi, val));
      Split12Even(val);
    }
  }

  lemma Nibbles(a: nat, b: nat)
    requires a < 16 && b < 16
    ensures (a + b * 16) % 16 == a && (a + b * 16) / 16 == b && a + b * 16 < 256
  {
  }

  lemma Split12Even(val: nat)
    ensures val % 0x1000 == val % 256 + 256 * (val / 256 % 16)
  {
    var q := val / 256;
    assert val == 0x1000 * (q / 16) + 256 * (q % 16) + val % 256;
  }

  lemma Split12Odd(val: nat)
    ensures val % 0x1000 == val % 16 + 16 * (val / 16 % 256)
  {
    var q := val / 16;
    assert val == 0x1000 * (q / 256) + 16 * (q % 256) + val % 16;
  }

  lemma Put12Byte(g: Geometry, v: seq<Sector>, c: nat, val: nat, j: nat)
    requires FatFits(g, |v|) && g.fsType == Fat12 && c < g.nFatent && ByteInFat(g, j, |v|)
    ensures var i := EntryPos(Fat12, c);
      ByteInFat(g, i, |v|) && ByteInFat(g, i + 1, |v|) &&
      FatByte(g, Put12(g, v, c, val), j) ==
        if j == i then Low12(c, FatByte(g, v, i), val)
        else if j == i + 1 then High12(c, FatByte(g, v, i + 1), val)
        else FatByte(g, v, j)
  {
    EntryInFat(g, c, |v|);
  }

  lemma Put12Entry(g: Geometry, v: seq<Sector>, c: nat, val: nat, d: nat)
    requires FatFits(g, |v|) && g.fsType == Fat12 && c < g.nFatent && d < g.nFatent
    ensures Entry(g, Put12(g, v, c, val), d) == if d == c then val % 0x1000 else Entry(g, v, d)
  {
    hide Put12, Low12, High12;
    EntryInFat(g, d, |v|);
    var r := Put12(g, v, c, val);
    var i, j := EntryPos(Fat12, c), EntryPos(Fat12, d);
    Put12Byte(g, v, c, val, j);
    Put12Byte(g, v, c, val, j + 1);
    var lo, hi := FatByte(g, r, j), FatByte(g, r, j + 1);
    var lo0, hi0 := FatByte(g, v, j), FatByte(g, v, j + 1);
    assert Entry(g, r, d) == Unpack12(d, lo, hi);
    assert Entry(g, v, d) == Unpack12(d, lo0, hi0);
    Neighbours12(c, d);
    if d == c {
      Pack12(c, lo0, hi0, val);
    } else if j == i + 1 {
      Pack12(c, FatByte(g, v, i), lo0, val);
      SharedNibbleHigh(lo, hi, lo0);
    } else if i == j + 1 {
      Pack12(c, hi0, FatByte(g, v, i + 1), val);
      SharedNibbleLow(lo, hi, hi0);
    }
  }

  /** Two FAT12 entries share a byte only when they are an even one and its odd successor. */
  lemma Neighbours12(c: nat, d: nat)
    ensures var i, j := EntryPos(Fat12, c), EntryPos(Fat12, d);
      || c == d
      || (j == i + 1 && c % 2 == 0 && d % 2 == 1)
      || (i == j + 1 && d % 2 == 0 && c % 2 == 1)
      || i + 2 <= j || j + 2 <= i
  {
  }

  lemma SharedNibbleHigh(lo: Byte, hi: Byte, was: Byte)
    requires lo / 16 == was / 16
    ensures ((lo as int) + 256 * (hi as int)) / 16 == ((was as int) + 256 * (hi as int)) / 16
  {
    Split12(lo, hi);
    Split12(was, hi);
  }

  lemma SharedNibbleLow(lo: Byte, hi: Byte, was: Byte)
    requires hi % 16 == was % 16
    ensures ((lo as int) + 256 * (hi as int)) % 0x1000 == ((lo as int) + 256 * (was as int)) % 0x1000
  {
    Split12(lo, hi);
    Split12(lo, was);
  }

  lemma Split12(lo: Byte, hi: Byte)
    ensures ((lo as int) + 256 * (hi as int)) % 0x1000 == lo + 256 * (hi % 16)
    ensures ((lo as int) + 256 * (hi as int)) / 16 == lo / 16 + 16 * (hi as int)
  {
    assert hi == 16 * (hi / 16) + hi % 16;
  }

  lemma Put16Entry(g: Geometry, v: seq<Sector>, c: nat, val: nat, d: nat)
    requires FatFits(g, |v|) && g.fsType == Fat16 && c < g.nFatent && d < g.nFatent
    ensures Entry(g, Put16(g, v, c, val), d) == if d == c then val % 0x1_0000 else Entry(g, v, d)
  {
    EntryInFat(g, c, |v|);
    EntryInFat(g, d, |v|);
  }

  // ----- FAT32: the top four bits survive -----

  lemma TopNibble(x: Dword)
    ensures And(x, 0xF000_0000) == x / 0x1000_0000 * 0x1000_0000
  {
    AndClear(x, 0x1000_0000) by { IsPow2Pow2(28); Pow2Of28(); }
  }

  lemma Pow2Of28()
    ensures Pow2(28) == 0x1000_0000
  {
    assert Pow2(8) == 0x100;
    assert Pow2(16) == 0x100 * Pow2(8);
    assert Pow2(24) == 0x100 * Pow2(16);
    assert Pow2(28) == 0x10 * Pow2(24);
  }

  /** Oring x = t * 2^k into v = q * 2^k + r leaves r alone and acts on the high parts. */
  lemma {:induction false} OrHigh(v: nat, x: nat, q: nat, r: nat, t: nat, k: nat)
    requires r < Pow2(k) && v == q * Pow2(k) + r && x == t * Pow2(k)
    ensures Or(v, x) == Or(q, t) * Pow2(k) + r
    decreases k
  {
    if k == 0 {
      assert v == q && x == t;
    } else {
      var h := Pow2(k - 1);
      Twice(q, h);
      Twice(t, h);
      OrHigh(v / 2, x / 2, q, r / 2, t, k - 1);
      OrStep(v, x);
      Twice(Or(q, t), h);
    }
  }

  lemma Twice(a: nat, h: nat)
    ensures a * (2 * h) == 2 * (a * h)
  {
  }

  lemma OrStep(v: nat, x: nat)
    ensures Or(v, x) == 2 * Or(v / 2, x / 2) + (if v % 2 == 1 || x % 2 == 1 then 1 else 0)
  {
  }

  /** The dword put_fat stores on FAT32: val's low 28 bits, and the old top nibble or'ed with val's. */
  lemma StoredDword(old32: Dword, val: Dword)
    ensures var x := Or(val, And(old32, 0xF000_0000));
      && x < 0x1_0000_0000
      && x % 0x1000_0000 == val % 0x1000_0000
      && x / 0x1000_0000 == Or(val / 0x1000_0000, old32 / 0x1000_0000)
      && (val < 0x1000_0000 ==> x / 0x1000_0000 == old32 / 0x1000_0000)
  {
    var a, b := val / 0x1000_0000, old32 / 0x1000_0000;
    TopNibble(old32);
    Pow2Of28();
    OrHigh(val, b * 0x1000_0000, a, val % 0x1000_0000, b, 28);
    OrNibble(a, b);
  }

  lemma OrNibble(a: nat, b: nat)
    requires a < 16 && b < 16
    ensures Or(a, b) < 16
    ensures a == 0 ==> Or(a, b) == b
  {
    assert Or(a / 8, b / 8) <= 1;
    assert Or(a / 4, b / 4) <= 3;
    assert Or(a / 2, b / 2) <= 7;
    OrZero(b);
  }

  lemma OrZero(b: nat)
    ensures Or(0, b) == b
  {
  }

  lemma Put32Entry(g: Geometry, v: seq<Sector>, c: nat, val: Dword, d: nat)
    requires FatFits(g, |v|) && g.fsType == Fat32 && c < g.nFatent && d < g.nFatent
    ensures Entry(g, Put32(g, v, c, val), d) == if d == c then val % 0x1000_0000 else Entry(g, v, d)
  {
    hide Or, And, LdDword, StDword;
    EntryInFat(g, c, |v|);
    EntryInFat(g, d, |v|);
    var s, o, p := FatSector(g, 4 * c), 4 * c % SECTOR_SIZE, 4 * d % SECTOR_SIZE;
    var x := Or(val, And(LdDword(v[s], o), 0xF000_0000));
    StoredDword(LdDword(v[s], o), val);
    SmallMod(x, 0x1_0000_0000);
    if d != c && FatSector(g, 4 * d) == s {
      DwordApart(v[s], o, x, p);
    }
  }

  lemma DwordApart(b: seq<Byte>, o: nat, x: nat, p: nat)
    requires o + 4 <= |b| && p + 4 <= |b| && (p + 4 <= o || o + 4 <= p)
    ensures LdDword(StDword(b, o, x), p) == LdDword(b, p)
  {
  }

  /** On FAT32 a value below 2^28 leaves the reserved top four bits of the entry as they were. */
  lemma Put32TopBits(g: Geometry, v: seq<Sector>, c: nat, val: nat)
    requires FatFits(g, |v|) && g.fsType == Fat32 && c < g.nFatent && val < 0x1000_0000
    ensures var s, o := FatSector(g, 4 * c), 4 * c % SECTOR_SIZE;
      ByteInFat(g, 4 * c, |v|) &&
      LdDword(Put32(g, v, c, val)[s], o) == LdDword(v[s], o) / 0x1000_0000 * 0x1000_0000 + val
  {
    hide Or, And, LdDword, StDword;
    EntryInFat(g, c, |v|);
    var s, o := FatSector(g, 4 * c), 4 * c % SECTOR_SIZE;
    var x := Or(val, And(LdDword(v[s], o), 0xF000_0000));
    StoredDword(LdDword(v[s], o), val);
    SmallMod(x, 0x1_0000_0000);
    SmallMod(val, 0x1000_0000);
  }

  /**
   * Writing one entry changes that entry, in the entry width, and no other; sectors outside the first
   * FAT copy keep their contents.
   */
  lemma PutGet(g: Geometry, v: seq<Sector>, c: nat, val: Dword)
    requires FatFits(g, |v|) && c < g.nFatent
    ensures FatOf(g, PutEntry(g, v, c, val)) == FatOf(g, v)[c := Stored(g.fsType, val)]
    ensures SameOutsideFat(g, v, PutEntry(g, v, c, val))
  {
    EntryInFat(g, c, |v|);
    forall d | 0 <= d < g.nFatent
      ensures Entry(g, PutEntry(g, v, c, val), d) ==
        if d == c then val % Width(g.fsType) else Entry(g, v, d)
    {
      match g.fsType
      case Fat12 => Put12Entry(g, v, c, val, d);
      case Fat16 => Put16Entry(g, v, c, val, d);
      case Fat32 => Put32Entry(g, v, c, val, d);
    }
  }

  /** The table depends on the sectors of the first FAT copy only. */
  lemma FatOfFrame(g: Geometry, v: seq<Sector>, v': seq<Sector>)
    requires FatFits(g, |v|) && |v'| == |v|
    requires forall s :: 0 <= s < |v| && InFat(g, s) ==> v'[s] == v[s]
    ensures FatOf(g, v') == FatOf(g, v)
  {
    forall c | 0 <= c < g.nFatent
      ensures Entry(g, v', c) == Entry(g, v, c)
    {
      EntryInFat(g, c, |v|);
    }
  }

  // ----- the bytes of an entry -----

  /** Byte i of the FAT, counted from its first sector on. */
  lemma ByteAt(g: Geometry, v: seq<Sector>, i: nat)
    requires g.fatbase + i / 512 < |v|
    ensures FatSector(g, i) < |v| && FatByte(g, v, i) == v[g.fatbase + i / 512][i % 512]
  {
  }

  /** Two FAT12 entries share three bytes: the first has the low and the second the high twelve of their 24 bits. */
  lemma Bytes12(g: Geometry, v: seq<Sector>, c: nat)
    requires FatFits(g, |v|) && c < g.nFatent && g.fsType == Fat12
    ensures var i := 3 * (c / 2) + c % 2;
      && g.fatbase + (i + 1) / 512 < |v|
      && var lo: nat, hi: nat := v[g.fatbase + i / 512][i % 512], v[g.fatbase + (i + 1) / 512][(i + 1) % 512];
         Entry(g, v, c) == if c % 2 == 0 then lo + 0x100 * (hi % 0x10) else lo / 0x10 + 0x10 * hi
  {
    hide FatBytes, Entry, FatByte, FatSector;
    EntryInFat(g, c, |v|);
    Entry12(g, v, c);
    assert c + c / 2 == 3 * (c / 2) + c % 2;
    Sector12(g, |v|, 3 * (c / 2) + c % 2);
    ByteAt(g, v, 3 * (c / 2) + c % 2);
    ByteAt(g, v, 3 * (c / 2) + c % 2 + 1);
  }

  lemma Sector12(g: Geometry, n: nat, i: nat)
    requires ByteInFat(g, i, n) && ByteInFat(g, i + 1, n)
    ensures g.fatbase + i / 512 < n && g.fatbase + (i + 1) / 512 < n
  {
  }

  /** A FAT16 entry is a word. */
  lemma Bytes16(g: Geometry, v: seq<Sector>, c: nat)
    requires FatFits(g, |v|) && c < g.nFatent && g.fsType == Fat16
    ensures var s, o := g.fatbase + c / 256, c % 256 * 2;
      s < |v| && o + 2 <= 512 && Entry(g, v, c) == v[s][o] as nat + 0x100 * v[s][o + 1] as nat
  {
    hide FatBytes, Entry, LdWord, LdDword;
    EntryWord(g, v, c);
    EntryPlace(c);
    WordAt(v[g.fatbase + c / 256], c % 256 * 2);
  }

  /** A FAT32 entry is a double word without its top four bits. */
  lemma Bytes32(g: Geometry, v: seq<Sector>, c: nat)
    requires FatFits(g, |v|) && c < g.nFatent && g.fsType == Fat32
    ensures var s, o := g.fatbase + c / 128, c % 128 * 4;
      && s < |v| && o + 4 <= 512
      && Entry(g, v, c) ==
        v[s][o] as nat + 0x100 * v[s][o + 1] as nat + 0x1_0000 * v[s][o + 2] as nat + 0x100_0000 * (v[s][o + 3] as nat % 0x10)
  {
    hide FatBytes, Entry, LdWord, LdDword;
    EntryWord(g, v, c);
    EntryPlace(c);
    DwordAt(v[g.fatbase + c / 128], c % 128 * 4);
  }

  lemma EntryPlace(c: nat)
    ensures 2 * c / 512 == c / 256 && 2 * c % 512 == c % 256 * 2
    ensures 4 * c / 512 == c / 128 && 4 * c % 512 == c % 128 * 4
  {
  }

  lemma WordAt(s: Sector, o: nat)
    requires o + 2 <= 512
    ensures LdWord(s, o) == s[o] as nat + 0x100 * s[o + 1] as nat
  {
  }

  lemma DwordAt(s: Sector, o: nat)
    requires o + 4 <= 512
    ensures LdDword(s, o) % 0x1000_0000 ==
      s[o] as nat + 0x100 * s[o + 1] as nat + 0x1_0000 * s[o + 2] as nat + 0x100_0000 * (s[o + 3] as nat % 0x10)
  {
    LittleEndian(s, o, 0);
  }

  /** The end marks are all ones in the width of an entry. */
  lemma EndMarks()
    ensures EndMark(Fat12) == 0xFFF && EndMark(Fat16) == 0xFFFF && EndMark(Fat32) == 0x0FFF_FFFF
  {
  }
}
