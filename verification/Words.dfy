// Bytes, sectors, the byte-by-byte word access macros, and the bitwise operators used for masking.
module Words {

  type Byte = x: int | 0 <= x < 256
  type Word = x: int | 0 <= x < 0x1_0000
  type Dword = x: int | 0 <= x < 0x1_0000_0000

  const SECTOR_SIZE: nat := 512

  type Sector = s: seq<Byte> | |s| == SECTOR_SIZE witness seq(512, i => 0)

  function ZeroSector(): (s: Sector)
    ensures forall i :: 0 <= i < 512 ==> s[i] == 0
  {
    seq(512, i => 0)
  }

  /** Little-endian 16-bit load. */
  function LdWord(b: seq<Byte>, o: nat): Word
    requires o + 2 <= |b|
  {
    (b[o] as int) + 256 * (b[o + 1] as int)
  }

  /** Little-endian 32-bit load. */
  function LdDword(b: seq<Byte>, o: nat): Dword
    requires o + 4 <= |b|
  {
    (LdWord(b, o) as int) + 0x1_0000 * (LdWord(b, o + 2) as int)
  }

  lemma Split32(v: nat)
    ensures v % 0x1_0000_0000 == v % 0x1_0000 + 0x1_0000 * (v / 0x1_0000 % 0x1_0000)
  {
    var h := v / 0x1_0000;
    assert v == 0x1_0000 * h + v % 0x1_0000;
    assert h == 0x1_0000 * (h / 0x1_0000) + h % 0x1_0000;
  }

  /** Little-endian 16-bit store of the low half of v. */
  function StWord(b: seq<Byte>, o: nat, v: nat): (r: seq<Byte>)
    requires o + 2 <= |b|
    ensures |r| == |b|
    ensures LdWord(r, o) == v % 0x1_0000
    ensures forall i :: 0 <= i < |b| && !(o <= i < o + 2) ==> r[i] == b[i]
  {
    b[o := v % 256][o + 1 := v / 256 % 256]
  }

  /** Little-endian 32-bit store. */
  function StDword(b: seq<Byte>, o: nat, v: nat): (r: seq<Byte>)
    requires o + 4 <= |b|
    ensures |r| == |b|
    ensures LdDword(r, o) == v % 0x1_0000_0000
    ensures forall i :: 0 <= i < |b| && !(o <= i < o + 4) ==> r[i] == b[i]
  {
    var lo := StWord(b, o, v);
    var r := StWord(lo, o + 2, v / 0x1_0000);
    assert LdWord(r, o) == LdWord(lo, o);
    Split32(v);
    r
  }

  /** The bytes of a word or double word, lowest first. */
  lemma LittleEndian(b: seq<Byte>, o: nat, v: nat)
    requires o + 4 <= |b|
    ensures LdWord(b, o) == b[o] as nat + 0x100 * b[o + 1] as nat
    ensures LdDword(b, o) ==
      b[o] as nat + 0x100 * b[o + 1] as nat + 0x1_0000 * b[o + 2] as nat + 0x100_0000 * b[o + 3] as nat
    ensures var r := StWord(b, o, v); r[o] == v % 0x100 && r[o + 1] == v / 0x100 % 0x100
    ensures var r := StDword(b, o, v);
      && r[o] == v % 0x100 && r[o + 1] == v / 0x100 % 0x100
      && r[o + 2] == v / 0x1_0000 % 0x100 && r[o + 3] == v / 0x100_0000 % 0x100
  {
    assert v / 0x1_0000 / 0x100 == v / 0x100_0000;
  }

  // ----- bitwise operators on non-negative integers -----

  function And(x: nat, y: nat): nat
  {
    if x == 0 || y == 0 then 0
    else 2 * And(x / 2, y / 2) + (if x % 2 == 1 && y % 2 == 1 then 1 else 0)
  }

  function Or(x: nat, y: nat): nat
  {
    if x == 0 && y == 0 then 0
    else 2 * Or(x / 2, y / 2) + (if x % 2 == 1 || y % 2 == 1 then 1 else 0)
  }

  /** 32-bit complement. */
  function Not32(x: Dword): Dword
  {
    0xFFFF_FFFF - x
  }

  /** 32-bit subtraction. */
  function Sub32(a: Dword, b: Dword): Dword
  {
    if a >= b then a - b else a + 0x1_0000_0000 - b
  }

  /** Whether a is one of the n values from b on, by one unsigned comparison. */
  lemma SubLess(a: Dword, b: Dword, n: nat)
    requires b + n <= 0x1_0000_0000
    ensures Sub32(a, b) < n <==> b <= a < b + n
    ensures b <= a ==> Sub32(a, b) == a - b
  {
  }

  predicate IsPow2(m: nat)
  {
    m == 1 || (m > 1 && m % 2 == 0 && IsPow2(m / 2))
  }

  // ----- division by a variable divisor -----

  lemma SmallMultiple(d: int, m: int)
    requires m > 0 && -m < d * m < m
    ensures d == 0
  {
  }

  /** Quotient and remainder are determined by x == q * m + r with 0 <= r < m. */
  lemma ModUnique(x: int, m: int, q: int, r: int)
    requires m > 0 && x == q * m + r && 0 <= r < m
    ensures x % m == r && x / m == q
  {
    var d := x / m - q;
    assert d * m == (x / m) * m - q * m;
    assert -m < d * m < m;
    SmallMultiple(d, m);
  }

  lemma SmallMod(x: nat, m: nat)
    requires x < m
    ensures x % m == x && x / m == 0
  {
    ModUnique(x, m, 0, x);
  }

  /** One step of long division by an even number. */
  lemma HalveMod(x: nat, h: nat)
    requires h > 0
    ensures x % (2 * h) == 2 * (x / 2 % h) + x % 2
  {
    var q, r := x / 2 / h, x / 2 % h;
    assert x / 2 == q * h + r;
    assert q * (2 * h) == 2 * (q * h);
    ModUnique(x, 2 * h, q, 2 * r + x % 2);
  }

  // ----- masking -----

  /** Masking with m - 1 is the remainder modulo a power of two. */
  lemma {:induction false} AndMask(x: nat, m: nat)
    requires IsPow2(m)
    ensures And(x, m - 1) == x % m
  {
    if m == 1 {
    } else if x == 0 {
      SmallMod(x, m);
    } else {
      var h := m / 2;
      AndMask(x / 2, h);
      assert (m - 1) / 2 == h - 1 && (m - 1) % 2 == 1;
      HalveMod(x, h);
    }
  }

  function Pow2(k: nat): (p: nat)
    ensures p > 0
  {
    if k == 0 then 1 else 2 * Pow2(k - 1)
  }

  lemma {:induction false} IsPow2Pow2(k: nat)
    ensures IsPow2(Pow2(k))
  {
    if k > 0 { IsPow2Pow2(k - 1); }
  }

  /** Masking with the complement of m - 1 in k bits rounds down to a multiple of m. */
  lemma {:induction false} AndComplement(x: nat, m: nat, k: nat)
    requires IsPow2(m) && m <= Pow2(k) && x < Pow2(k)
    ensures And(x, Pow2(k) - m) == x - x % m
  {
    if m == 1 {
      IsPow2Pow2(k);
      AndMask(x, Pow2(k));
      SmallMod(x, Pow2(k));
    } else if x == 0 {
      SmallMod(x, m);
    } else {
      var h, p := m / 2, Pow2(k - 1);
      AndComplement(x / 2, h, k - 1);
      HalveMod(x, h);
      var y := Pow2(k) - m;
      assert y / 2 == p - h && y % 2 == 0;
      if y == 0 { assert And(x / 2, 0) == 0; }
    }
  }

  /** x & ~(m - 1) in 32 bits. */
  lemma AndClear(x: Dword, m: nat)
    requires IsPow2(m) && m <= 0x8000_0000
    ensures And(x, Not32(m - 1)) == x - x % m
  {
    assert Pow2(8) == 0x100;
    assert Pow2(16) == 0x100 * Pow2(8);
    assert Pow2(24) == 0x100 * Pow2(16);
    assert Pow2(32) == 0x100 * Pow2(24);
    AndComplement(x, m, 32);
  }
}
