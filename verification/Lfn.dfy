// Long names: 13 characters per directory entry, written, picked up and compared segment by segment.
module Lfn {
  import opened Words

  /** Offsets of the characters in a directory entry. */
  const LFN_OFS: seq<nat> := [1, 3, 5, 7, 9, 14, 16, 18, 20, 22, 24, 28, 30]

  const AM_LFN: Byte := 0x0F

  type Entry = e: seq<Byte> | |e| == 32 witness seq(32, i => 0)

  /** Upper-casing: it keeps the terminator apart from the characters. */
  ghost predicate Upper(up: Word -> Word)
  {
    up(0) == 0 && forall c: Word :: c != 0 ==> up(c) != 0
  }

  function CharAt(e: Entry, s: nat): Word
    requires s < 13
  {
    LdWord(e, LFN_OFS[s])
  }

  /** The flag LLE: first entry of the sequence, last segment of the name. */
  predicate Last(e: Entry)
  {
    e[0] / 64 % 2 == 1
  }

  /** ord & ~LLE */
  function ClearLle(ord: Byte): Byte
  {
    if ord / 64 % 2 == 1 then ord - 64 else ord
  }

  /** (ord - 1) * 13 in 32 bits. */
  function StartOf(ord: Byte): nat
  {
    if ord == 0 then 0xFFFF_FFF3 else 13 * (ord - 1)
  }

  /** Number of characters before the terminator; 13 when there is none. */
  function TextLen(e: Entry, s: nat): (z: nat)
    requires s <= 13
    ensures s <= z <= 13 && (z < 13 ==> CharAt(e, z) == 0)
    ensures forall j :: s <= j < z ==> CharAt(e, j) != 0
    decreases 13 - s
  {
    if s == 13 || CharAt(e, s) == 0 then s else TextLen(e, s + 1)
  }

  /** Number of characters that are part of the name or its terminator. */
  function Taken(e: Entry): nat
  {
    var z := TextLen(e, 0);
    if z < 13 then z + 1 else 13
  }

  /** Behind the terminator there are fillers only. */
  predicate Filled(e: Entry)
  {
    forall s :: TextLen(e, 0) < s < 13 ==> CharAt(e, s) == 0xFFFF
  }

  /** What cmp_lfn accepts: the segment agrees with the searched name b, of at most max characters. */
  predicate Accepts(up: Word -> Word, max: nat, b: seq<Word>, e: Entry)
    requires |b| == max + 1
  {
    var i := StartOf(ClearLle(e[0]));
    && i + Taken(e) <= max
    && (forall s :: 0 <= s < Taken(e) ==> up(CharAt(e, s)) == up(b[i + s]))
    && Filled(e)
    && (Last(e) && TextLen(e, 0) == 13 ==> b[i + 13] == 0)
  }

  /** LD_WORD of character s of the entry at offset o. */
  method LoadChar(dir: array<Byte>, o: nat, s: nat) returns (c: Word)
    requires o + 32 <= dir.Length && s < 13
    ensures c == CharAt(dir[o..o + 32], s)
  {
    var p := o + LFN_OFS[s];
    c := (dir[p] as int) + 256 * (dir[p + 1] as int);
  }

  method CmpLfn(up: Word -> Word, lfnbuf: array<Word>, dir: array<Byte>, o: nat) returns (r: bool)
    requires Upper(up) && lfnbuf.Length > 0 && o + 32 <= dir.Length
    ensures r == Accepts(up, lfnbuf.Length - 1, lfnbuf[..], dir[o..o + 32])
  {
    hide CharAt, TextLen, StartOf, ClearLle;
    ghost var e: Entry := dir[o..o + 32];
    ghost var z := TextLen(e, 0);
    var max := lfnbuf.Length - 1;
    var i := StartOf(ClearLle(dir[o]));
    ghost var start := i;
    var s := 0;
    var wc: Word := 1;
    while s < 13
      invariant s <= 13 && (wc != 0 <==> s <= z)
      invariant i == start + (if s <= Taken(e) then s else Taken(e)) && (s > 0 ==> i <= max)
      invariant forall j :: 0 <= j < s && j < Taken(e) ==> start + j < max && up(CharAt(e, j)) == up(lfnbuf[start + j])
      invariant forall j :: z < j < s ==> CharAt(e, j) == 0xFFFF
    {
      var uc := LoadChar(dir, o, s);
      if wc != 0 {
        wc := up(uc);
        if i >= max || wc != up(lfnbuf[i]) { return false; }
        i := i + 1;
      } else {
        if uc != 0xFFFF { return false; }
      }
      s := s + 1;
    }
    if dir[o] / 64 % 2 == 1 && wc != 0 && lfnbuf[i] != 0 { return false; }
    return true;
  }

  /** What pick_lfn accepts: the segment fits into a buffer for names of at most max characters. */
  predicate Picks(max: nat, e: Entry)
  {
    var i := StartOf(e[0] % 64);
    i + Taken(e) <= max && Filled(e) && (Last(e) ==> i + Taken(e) < max)
  }

  /** The buffer with the segment put in. */
  function Picked(b: seq<Word>, e: Entry): (r: seq<Word>)
    ensures |r| == |b|
  {
    seq<Word>(|b|, (j: nat) requires j < |b| => PickedChar(b, e, j))
  }

  function PickedChar(b: seq<Word>, e: Entry, j: nat): Word
    requires j < |b|
  {
    var i := StartOf(e[0] % 64);
    if i <= j < i + Taken(e) then CharAt(e, j - i) else if j == i + Taken(e) && Last(e) then 0 else b[j]
  }

  method PickLfn(lfnbuf: array<Word>, dir: array<Byte>, o: nat) returns (ok: bool)
    requires lfnbuf.Length > 0 && o + 32 <= dir.Length
    modifies lfnbuf
    ensures ok == Picks(lfnbuf.Length - 1, dir[o..o + 32])
    ensures ok ==> lfnbuf[..] == Picked(old(lfnbuf[..]), dir[o..o + 32])
  {
    hide CharAt, TextLen, StartOf, ClearLle;
    ghost var e: Entry := dir[o..o + 32];
    ghost var z := TextLen(e, 0);
    var max := lfnbuf.Length - 1;
    var i := StartOf(dir[o] % 64);
    ghost var start := i;
    var s := 0;
    var wc: Word := 1;
    while s < 13
      invariant s <= 13 && (wc != 0 <==> s <= z)
      invariant i == start + (if s <= Taken(e) then s else Taken(e)) && (s > 0 ==> i <= max)
      invariant forall j :: z < j < s ==> CharAt(e, j) == 0xFFFF
      invariant forall j :: 0 <= j < lfnbuf.Length ==>
        lfnbuf[j] == if start <= j < i then CharAt(e, j - start) else old(lfnbuf[j])
    {
      var uc := LoadChar(dir, o, s);
      if wc != 0 {
        if i >= max { return false; }
        wc := uc;
        lfnbuf[i] := wc;
        i := i + 1;
      } else {
        if uc != 0xFFFF { return false; }
      }
      s := s + 1;
    }
    if dir[o] / 64 % 2 == 1 {
      if i >= max { return false; }
      lfnbuf[i] := 0;
    }
    return true;
  }

  // ----- writing a name -----

  /** Number of segments of a name. */
  function Segments(len: nat): nat
  {
    (len + 12) / 13
  }

  /** Character s of segment k. */
  function SegChar(n: seq<Word>, k: nat, s: nat): Word
    requires k > 0
  {
    var j := 13 * (k - 1) + s;
    if j < |n| then n[j] else if j == |n| then 0 else 0xFFFF
  }

  /** Number of the character that byte b of an entry belongs to; 13 for the order byte, -1 for the constant fields. */
  function Slot(b: nat): int
    requires b < 32
  {
    if b == 0 then 13
    else if b == 11 || b == 12 || b == 13 || b == 26 || b == 27 then -1
    else if b < 11 then (b - 1) / 2
    else if b < 26 then 5 + (b - 14) / 2
    else 11 + (b - 28) / 2
  }

  function OrderByte(len: nat, k: nat): Byte
    requires 0 < k <= Segments(len) && k < 64
  {
    if k == Segments(len) then k + 64 else k
  }

  function LfnByte(n: seq<Word>, k: nat, sum: Byte, b: nat): Byte
    requires 0 < k <= Segments(|n|) && k < 64 && b < 32
  {
    if b == 0 then OrderByte(|n|, k)
    else if b == 11 then AM_LFN
    else if b == 13 then sum
    else if Slot(b) < 0 then 0
    else
      var w := SegChar(n, k, Slot(b));
      if b == LFN_OFS[Slot(b)] then w % 256 else w / 256
  }

  /** The entry for segment k of name n. */
  function LfnEntry(n: seq<Word>, k: nat, sum: Byte): Entry
    requires 0 < k <= Segments(|n|) && k < 64
  {
    seq(32, b requires 0 <= b < 32 => LfnByte(n, k, sum, b))
  }

  /** A buffer holds a terminated name; what follows the terminator does not matter. */
  predicate Named(b: seq<Word>, n: seq<Word>)
  {
    |n| < |b| && b[..|n|] == n && b[|n|] == 0
  }

  /** The characters of a name. */
  predicate IsName(n: seq<Word>)
  {
    0 < |n| <= 255 && forall i :: 0 <= i < |n| ==> n[i] != 0 && n[i] != 0xFFFF
  }

  /** b with the bytes from o on replaced. */
  function Put(b: seq<Byte>, o: nat, e: Entry): (r: seq<Byte>)
    requires o + 32 <= |b|
    ensures |r| == |b| && r[o..o + 32] == e
    ensures forall i :: 0 <= i < |b| && !(o <= i < o + 32) ==> r[i] == b[i]
  {
    b[..o] + e + b[o + 32..]
  }

  lemma SlotBytes(s: nat, b: nat)
    requires s < 13 && b < 32
    ensures LFN_OFS[s] + 1 < 32
    ensures Slot(b) == s <==> b == LFN_OFS[s] || b == LFN_OFS[s] + 1
  {
  }

  /** ST_WORD of character s of the entry at offset o. */
  method StoreChar(dir: array<Byte>, o: nat, s: nat, w: Word)
    requires o + 32 <= dir.Length && s < 13
    modifies dir
    ensures forall b :: 0 <= b < 32 ==>
      dir[o + b] == if Slot(b) != s then old(dir[o + b]) else if b == LFN_OFS[s] then w % 256 else w / 256
    ensures forall b :: 0 <= b < dir.Length && !(o <= b < o + 32) ==> dir[b] == old(dir[b])
  {
    forall b | 0 <= b < 32
      ensures LFN_OFS[s] + 1 < 32 && (Slot(b) == s <==> b == LFN_OFS[s] || b == LFN_OFS[s] + 1)
    {
      SlotBytes(s, b);
    }
    hide Slot;
    var p := o + LFN_OFS[s];
    dir[p] := w % 256;
    dir[p + 1] := w / 256;
  }

  /** The constant fields of the entry. */
  method FixedFields(dir: array<Byte>, o: nat, ghost n: seq<Word>, ghost ord: Byte, sum: Byte)
    requires o + 32 <= dir.Length && 0 < ord <= Segments(|n|) && ord < 64
    modifies dir
    ensures forall b :: 0 <= b < 32 && Slot(b) < 0 ==> dir[o + b] == LfnByte(n, ord, sum, b)
    ensures forall b :: 0 <= b < dir.Length && !(o <= b < o + 32) ==> dir[b] == old(dir[b])
  {
    dir[o + 13] := sum;
    dir[o + 11] := AM_LFN;
    dir[o + 12] := 0;
    dir[o + 26], dir[o + 27] := 0, 0;
  }

  method FitLfn(lfnbuf: array<Word>, ghost n: seq<Word>, dir: array<Byte>, o: nat, ord: Byte, sum: Byte)
    requires o + 32 <= dir.Length && Named(lfnbuf[..], n) && IsName(n) && 0 < ord <= Segments(|n|)
    modifies dir
    ensures dir[..] == Put(old(dir[..]), o, LfnEntry(n, ord, sum))
  {
    hide Slot;
    FixedFields(dir, o, n, ord, sum);
    var i := (ord - 1) * 13;
    ghost var start := i;
    var s := 0;
    var wc: Word := 0;
    while s < 13
      invariant s <= 13
      invariant wc == 0xFFFF <==> start + s > |n|
      invariant wc != 0xFFFF ==> i == start + s
      invariant forall b :: 0 <= b < 32 && Slot(b) < s ==> dir[o + b] == LfnByte(n, ord, sum, b)
      invariant forall b :: 0 <= b < dir.Length && !(o <= b < o + 32) ==> dir[b] == old(dir[b])
    {
      if wc != 0xFFFF {
        assert lfnbuf[i] == lfnbuf[..][i];
        wc := lfnbuf[i];
        i := i + 1;
      }
      CharBytes(n, ord, sum, s);
      StoreChar(dir, o, s, wc);
      if wc == 0 { wc := 0xFFFF; }
      s := s + 1;
    }
    var b := ord;
    assert wc != 0xFFFF ==> lfnbuf[i] == lfnbuf[..][i];
    if wc == 0xFFFF || lfnbuf[i] == 0 { b := ord + 64; }
    dir[o] := b;
    PutEntry(old(dir[..]), dir[..], o, n, ord, sum);
  }

  lemma CharBytes(n: seq<Word>, k: nat, sum: Byte, s: nat)
    requires 0 < k <= Segments(|n|) && k < 64 && s < 13
    ensures forall b :: 0 <= b < 32 && Slot(b) == s ==>
      LfnByte(n, k, sum, b) == if b == LFN_OFS[s] then SegChar(n, k, s) % 256 else SegChar(n, k, s) / 256
  {
    hide SegChar;
  }

  lemma PutEntry(was: seq<Byte>, now: seq<Byte>, o: nat, n: seq<Word>, ord: Byte, sum: Byte)
    requires o + 32 <= |was| == |now| && 0 < ord <= Segments(|n|) && ord < 64
    requires now[o] == OrderByte(|n|, ord)
    requires forall b :: 0 < b < 32 && Slot(b) < 13 ==> now[o + b] == LfnByte(n, ord, sum, b)
    requires forall b :: 0 <= b < |was| && !(o <= b < o + 32) ==> now[b] == was[b]
    ensures now == Put(was, o, LfnEntry(n, ord, sum))
  {
    forall b | 0 < b < 32
      ensures Slot(b) < 13
    {
    }
    assert now[o..o + 32] == LfnEntry(n, ord, sum);
  }

  // ----- the checksum -----

  /** sum_sfn over the first k bytes: rotate right, add. */
  function SumOf(e: seq<Byte>, k: nat): Byte
    requires k <= |e|
  {
    if k == 0 then 0
    else
      var s := SumOf(e, k - 1);
      (s / 2 + s % 2 * 128 + e[k - 1]) % 256
  }

  lemma Rotate(sum: Byte, c: Byte)
    ensures (sum / 2 + sum * 128 + c) % 256 == (sum / 2 + sum % 2 * 128 + c) % 256
  {
    assert sum * 128 == sum / 2 * 256 + sum % 2 * 128;
  }

  method SumSfn(dir: array<Byte>, o: nat) returns (sum: Byte)
    requires o + 11 <= dir.Length
    ensures sum == SumOf(dir[o..o + 11], 11)
  {
    ghost var e := dir[o..o + 11];
    sum := 0;
    var n, i := 11, o;
    while n > 0
      invariant n <= 11 && i == o + (11 - n) && sum == SumOf(e, 11 - n)
    {
      Rotate(sum, dir[i]);
      sum := (sum / 2 + sum * 128 + dir[i]) % 256;
      i := i + 1;
      n := n - 1;
    }
  }

  /** A bit falls off the low end of the byte, comes in at the high end, and c is added modulo 256. */
  function RotateAdd(s: Byte, c: Byte): Byte
  {
    var turned := if s % 2 == 1 then 128 + (s - 1) / 2 else s / 2;
    if turned + c < 256 then turned + c else turned + c - 256
  }

  lemma SumStep(e: seq<Byte>, k: nat)
    requires k < |e|
    ensures SumOf(e, 0) == 0 && SumOf(e, k + 1) == RotateAdd(SumOf(e, k), e[k])
  {
  }

  /** The sum of eleven bytes, written out. */
  lemma SumEleven(e: seq<Byte>)
    requires |e| >= 11
    ensures
      var a := RotateAdd(RotateAdd(RotateAdd(RotateAdd(0, e[0]), e[1]), e[2]), e[3]);
      var b := RotateAdd(RotateAdd(RotateAdd(RotateAdd(a, e[4]), e[5]), e[6]), e[7]);
      SumOf(e, 11) == RotateAdd(RotateAdd(RotateAdd(b, e[8]), e[9]), e[10])
  {
    hide RotateAdd, SumOf;
    SumStep(e, 0);
    SumStep(e, 1);
    SumStep(e, 2);
    SumStep(e, 3);
    SumStep(e, 4);
    SumStep(e, 5);
    SumStep(e, 6);
    SumStep(e, 7);
    SumStep(e, 8);
    SumStep(e, 9);
    SumStep(e, 10);
  }

  /** The sum of the name README.TXT. */
  lemma SumExample(e: seq<Byte>)
    requires e == [0x52, 0x45, 0x41, 0x44, 0x4D, 0x45, 0x20, 0x20, 0x54, 0x58, 0x54]
    ensures SumOf(e, 11) == 115
  {
    hide SumOf;
    SumEleven(e);
    assert RotateAdd(0, 0x52) == 82;
    assert RotateAdd(82, 0x45) == 110;
    assert RotateAdd(110, 0x41) == 120;
    assert RotateAdd(120, 0x44) == 128;
    assert RotateAdd(128, 0x4D) == 141;
    assert RotateAdd(141, 0x45) == 11;
    assert RotateAdd(11, 0x20) == 165;
    assert RotateAdd(165, 0x20) == 242;
    assert RotateAdd(242, 0x54) == 205;
    assert RotateAdd(205, 0x58) == 62;
    assert RotateAdd(62, 0x54) == 115;
  }

  // ----- one segment -----

  /** Character j of a name, or its terminator. */
  function NameChar(n: seq<Word>, j: nat): Word
  {
    if j < |n| then n[j] else 0
  }

  lemma SegChars(n: seq<Word>, k: nat, sum: Byte, s: nat)
    requires 0 < k <= Segments(|n|) && k < 64 && s < 13
    ensures CharAt(LfnEntry(n, k, sum), s) == SegChar(n, k, s)
  {
    SlotBytes(s, LFN_OFS[s]);
    SlotBytes(s, LFN_OFS[s] + 1);
    CharBytes(n, k, sum, s);
    hide Slot, SegChar, LfnByte;
  }

  lemma TextLenIs(e: Entry, y: nat)
    requires y <= 13 && (y < 13 ==> CharAt(e, y) == 0)
    requires forall j :: 0 <= j < y ==> CharAt(e, j) != 0
    ensures TextLen(e, 0) == y
  {
    hide CharAt, TextLen;
  }

  /** What the readers make of the order byte. */
  lemma OrderFacts(n: seq<Word>, k: nat, sum: Byte)
    requires IsName(n) && 0 < k <= Segments(|n|)
    ensures var e := LfnEntry(n, k, sum);
      && e[0] % 64 == k && ClearLle(e[0]) == k && StartOf(k) == 13 * (k - 1)
      && (Last(e) <==> k == Segments(|n|))
  {
    assert LfnEntry(n, k, sum)[0] == OrderByte(|n|, k);
    assert k <= 20;
  }

  /** What the readers make of an entry written for segment k. */
  lemma SegFacts(n: seq<Word>, k: nat, sum: Byte)
    requires IsName(n) && 0 < k <= Segments(|n|)
    ensures var e := LfnEntry(n, k, sum);
      && e[0] % 64 == k && ClearLle(e[0]) == k && StartOf(k) == 13 * (k - 1)
      && (Last(e) <==> k == Segments(|n|))
      && TextLen(e, 0) == (if 13 * k <= |n| then 13 else |n| - 13 * (k - 1))
      && Taken(e) == (if 13 * k <= |n| then 13 else |n| - 13 * (k - 1) + 1)
      && Filled(e)
      && forall s :: 0 <= s < Taken(e) ==> CharAt(e, s) == NameChar(n, 13 * (k - 1) + s)
  {
    hide CharAt, LfnEntry, TextLen, Last, ClearLle, StartOf;
    OrderFacts(n, k, sum);
    var e := LfnEntry(n, k, sum);
    forall s | 0 <= s < 13
      ensures CharAt(e, s) == SegChar(n, k, s)
    {
      SegChars(n, k, sum, s);
    }
    TextLenIs(e, if 13 * k <= |n| then 13 else |n| - 13 * (k - 1));
  }

  // ----- the name read back -----

  /** Names that pick_lfn can take up: the terminator is stored once more behind the last segment taken. */
  predicate PickFits(max: nat, len: nat)
  {
    if len % 13 == 0 then len < max else len + 1 < max
  }

  /** The buffer after picking up the segments k, k - 1, ..., 1. */
  function PickedDown(b: seq<Word>, n: seq<Word>, sum: Byte, k: nat): (r: seq<Word>)
    requires k <= Segments(|n|) && k < 64
    ensures |r| == |b|
    decreases k
  {
    if k == 0 then b else PickedDown(Picked(b, LfnEntry(n, k, sum)), n, sum, k - 1)
  }

  /** Picking up segment k completes the name from its first character on. */
  lemma PickStep(max: nat, b: seq<Word>, n: seq<Word>, sum: Byte, k: nat)
    requires IsName(n) && PickFits(max, |n|) && |b| == max + 1 && 0 < k <= Segments(|n|)
    requires k < Segments(|n|) ==> forall j :: 13 * k <= j <= |n| ==> b[j] == NameChar(n, j)
    ensures Picks(max, LfnEntry(n, k, sum))
    ensures forall j :: 13 * (k - 1) <= j <= |n| ==> Picked(b, LfnEntry(n, k, sum))[j] == NameChar(n, j)
  {
    hide LfnEntry, TextLen, CharAt, Taken, Filled;
    SegFacts(n, k, sum);
    var e := LfnEntry(n, k, sum);
    forall j | 13 * (k - 1) <= j <= |n|
      ensures Picked(b, e)[j] == NameChar(n, j)
    {
      if j < 13 * (k - 1) + Taken(e) {
        assert CharAt(e, j - 13 * (k - 1)) == NameChar(n, j);
      }
    }
  }

  lemma {:induction false} PickDown(max: nat, b: seq<Word>, n: seq<Word>, sum: Byte, k: nat)
    requires IsName(n) && PickFits(max, |n|) && |b| == max + 1 && k <= Segments(|n|)
    requires k < Segments(|n|) ==> forall j :: 13 * k <= j <= |n| ==> b[j] == NameChar(n, j)
    ensures Named(PickedDown(b, n, sum, k), n)
    decreases k
  {
    hide Picked, LfnEntry;
    if k > 0 {
      PickStep(max, b, n, sum, k);
      PickDown(max, Picked(b, LfnEntry(n, k, sum)), n, sum, k - 1);
    }
  }

  /**
   * Long name round trip: the segments of a name, picked up in the order in which they lie in the directory,
   * rebuild the name, whatever the buffer held. They are all accepted exactly when the name fits.
   */
  lemma RoundTrip(max: nat, b: seq<Word>, n: seq<Word>, sum: Byte)
    requires IsName(n) && |b| == max + 1
    ensures (forall k :: 0 < k <= Segments(|n|) ==> Picks(max, LfnEntry(n, k, sum))) <==> PickFits(max, |n|)
    ensures PickFits(max, |n|) ==> Named(PickedDown(b, n, sum, Segments(|n|)), n)
  {
    hide LfnEntry, TextLen, CharAt, Taken, Filled;
    var m := Segments(|n|);
    SegFacts(n, m, sum);
    if PickFits(max, |n|) {
      PickDown(max, b, n, sum, m);
      forall k | 0 < k <= m
        ensures Picks(max, LfnEntry(n, k, sum))
      {
        SegFacts(n, k, sum);
      }
    }
  }

  /** The limit promised for every buffer size, and the one name length it falls short of. */
  lemma PickLimit(max: nat, len: nat)
    ensures len + 2 <= max ==> PickFits(max, len)
    ensures PickFits(max, len) && len + 2 > max ==> len + 1 == max && len % 13 == 0
  {
  }

  // ----- the name compared -----

  predicate SameName(up: Word -> Word, n: seq<Word>, m: seq<Word>)
  {
    |n| == |m| && forall i :: 0 <= i < |n| ==> up(n[i]) == up(m[i])
  }

  /** Names that cmp_lfn can find: the terminator, too, must lie below max unless it ends a segment. */
  predicate FindFits(max: nat, len: nat)
  {
    if len % 13 == 0 then len <= max else len < max
  }

  /** Segment k agrees with the search buffer. */
  lemma AcceptsSegment(up: Word -> Word, max: nat, b: seq<Word>, n: seq<Word>, k: nat, sum: Byte)
    requires IsName(n) && |b| == max + 1 && 0 < k <= Segments(|n|)
    ensures var end := if 13 * k <= |n| then 13 * k else |n| + 1;
      Accepts(up, max, b, LfnEntry(n, k, sum)) <==>
        && end <= max
        && (forall j :: 13 * (k - 1) <= j < end ==> up(NameChar(n, j)) == up(b[j]))
        && (|n| == 13 * k ==> b[13 * k] == 0)
  {
    hide LfnEntry, TextLen, CharAt, Taken, Filled, NameChar, Last;
    SegFacts(n, k, sum);
    var e := LfnEntry(n, k, sum);
    var i := 13 * (k - 1);
    assert |n| == 13 * k ==> k == Segments(|n|);
    if Accepts(up, max, b, e) {
      forall j | i <= j < i + Taken(e)
        ensures up(NameChar(n, j)) == up(b[j])
      {
        assert up(CharAt(e, j - i)) == up(b[i + (j - i)]);
      }
    }
  }

  /** Names that agree up to and including the terminator of the shorter one are equally long. */
  lemma LengthsAgree(up: Word -> Word, n: seq<Word>, m: seq<Word>)
    requires Upper(up) && IsName(n) && IsName(m)
    requires forall j :: 0 <= j <= |n| && j <= |m| ==> up(NameChar(n, j)) == up(NameChar(m, j))
    ensures |n| == |m|
  {
    var j := if |m| < |n| then |m| else |n|;
    assert up(NameChar(n, j)) == up(NameChar(m, j));
  }

  /**
   * A search finds exactly the names equal to the searched one up to upper-casing, whatever follows the
   * terminator in the search buffer, provided the name is short enough to be compared at all.
   */
  lemma MatchExact(up: Word -> Word, max: nat, b: seq<Word>, n: seq<Word>, m: seq<Word>, sum: Byte)
    requires Upper(up) && IsName(n) && IsName(m) && |b| == max + 1 && Named(b, m)
    ensures (forall k :: 0 < k <= Segments(|n|) ==> Accepts(up, max, b, LfnEntry(n, k, sum)))
      <==> SameName(up, n, m) && FindFits(max, |n|)
  {
    hide LfnEntry, Accepts;
    var last := Segments(|n|);
    assert forall j :: 0 <= j <= |m| ==> b[j] == NameChar(m, j);
    if forall k :: 0 < k <= last ==> Accepts(up, max, b, LfnEntry(n, k, sum)) {
      AcceptsSegment(up, max, b, n, last, sum);
      forall j | 0 <= j <= |n|
        ensures j <= max && up(NameChar(n, j)) == up(b[j])
      {
        var k := if j / 13 < last then j / 13 + 1 else last;
        AcceptsSegment(up, max, b, n, k, sum);
      }
      LengthsAgree(up, n, m);
      assert forall i :: 0 <= i < |n| ==> up(NameChar(n, i)) == up(b[i]);
    }
    if SameName(up, n, m) && FindFits(max, |n|) {
      forall k | 0 < k <= last
        ensures Accepts(up, max, b, LfnEntry(n, k, sum))
      {
        AcceptsSegment(up, max, b, n, k, sum);
      }
    }
  }

  /** The sum depends on the name field only. */
  lemma {:induction false} SumPrefix(e: seq<Byte>, f: seq<Byte>, k: nat)
    requires k <= |e| && k <= |f| && e[..k] == f[..k]
    ensures SumOf(e, k) == SumOf(f, k)
  {
    if k > 0 {
      assert e[k - 1] == e[..k][k - 1] == f[..k][k - 1] == f[k - 1];
      assert e[..k - 1] == e[..k][..k - 1] == f[..k][..k - 1] == f[..k - 1];
      SumPrefix(e, f, k - 1);
    }
  }

  lemma NamedAt(b: seq<Word>, n: seq<Word>, j: nat)
    requires Named(b, n) && j <= |n|
    ensures b[j] == NameChar(n, j)
  {
    if j < |n| { assert b[j] == b[..|n|][j]; }
  }

  /** A name of the greatest length a 255-character buffer holds: it is equal to itself, and a search for it fails. */
  lemma CriticalName(up: Word -> Word, b: seq<Word>, sum: Byte)
    requires Upper(up) && |b| == 256 && Named(b, seq(255, i => 0x41))
    ensures var n: seq<Word> := seq(255, i => 0x41);
      IsName(n) && SameName(up, n, n) && exists k :: 0 < k <= Segments(|n|) && !Accepts(up, 255, b, LfnEntry(n, k, sum))
  {
    var n: seq<Word> := seq(255, i => 0x41);
    MatchExact(up, 255, b, n, n, sum);
  }

  // ----- the bytes of a long-name entry -----

  /** Character s of an entry: five from byte 1 on, six from byte 14 on, two from byte 28 on, low byte first. */
  function RawChar(e: Entry, s: nat): Word
    requires s < 13
  {
    var o := if s < 5 then 1 + 2 * s else if s < 11 then 14 + 2 * (s - 5) else 28 + 2 * (s - 11);
    e[o] as nat + 256 * e[o + 1] as nat
  }

  lemma CharIs(e: Entry)
    ensures forall s :: 0 <= s < 13 ==> CharAt(e, s) == RawChar(e, s)
  {
  }

  /** The entry has z characters in front of its terminator, or thirteen without one, and only fillers behind it. */
  predicate Text(e: Entry, z: nat)
  {
    && z <= 13 && (forall s :: 0 <= s < z ==> RawChar(e, s) != 0) && (z < 13 ==> RawChar(e, z) == 0)
    && forall s :: z < s < 13 ==> RawChar(e, s) == 0xFFFF
  }

  lemma TextIs(e: Entry, z: nat)
    ensures Text(e, z) <==> z == TextLen(e, 0) && Filled(e)
    ensures Text(e, z) ==> Taken(e) == if z < 13 then z + 1 else 13
  {
    CharIs(e);
    hide RawChar;
    if Text(e, z) {
      TextLenIs(e, z);
    }
  }

  /**
   * The characters up to the terminator are, upper-cased, those of the searched name from thirteen times the order less
   * one on, below max; a last segment without terminator is followed by the end of the searched name.
   */
  predicate SegmentAgrees(up: Word -> Word, max: nat, b: seq<Word>, e: Entry, z: nat)
    requires |b| == max + 1 && e[0] != 0x00 && e[0] != 0x40
  {
    var order: nat := if e[0] / 64 % 2 == 1 then e[0] - 64 else e[0];
    var start := 13 * (order - 1);
    var n := if z < 13 then z + 1 else 13;
    && start + n <= max && (forall s :: 0 <= s < n && s < 13 ==> up(RawChar(e, s)) == up(b[start + s]))
    && (e[0] / 64 % 2 == 1 && z == 13 ==> b[start + 13] == 0)
  }

  lemma AcceptsAt(up: Word -> Word, max: nat, b: seq<Word>, e: Entry, z: nat)
    requires |b| == max + 1 <= 256 && e[0] != 0x00 && e[0] != 0x40 && Text(e, z)
    ensures Accepts(up, max, b, e) <==> SegmentAgrees(up, max, b, e, z)
  {
    CharIs(e);
    TextIs(e, z);
    hide RawChar, CharAt, TextLen, Text, Filled;
  }

  /** cmp_lfn accepts an entry whose text is well-formed and agrees with the searched name. */
  lemma AcceptsRaw(up: Word -> Word, max: nat, b: seq<Word>, e: Entry)
    requires |b| == max + 1 <= 256 && e[0] != 0x00 && e[0] != 0x40
    ensures Accepts(up, max, b, e) <==> exists z: nat :: Text(e, z) && SegmentAgrees(up, max, b, e, z)
  {
    hide RawChar, CharAt, TextLen, Text, Filled, SegmentAgrees, Taken;
    TextIs(e, TextLen(e, 0));
    forall z: nat | Text(e, z)
      ensures Accepts(up, max, b, e) <==> SegmentAgrees(up, max, b, e, z)
    {
      AcceptsAt(up, max, b, e, z);
    }
  }

  /** Where the characters of an entry go. */
  function PlaceOf(e: Entry): nat
    requires e[0] % 64 != 0
  {
    var order: nat := e[0] % 64;
    13 * (order - 1)
  }

  /** What pick_lfn accepts, and what it puts into the buffer, for an entry with z characters. */
  lemma PicksAt(max: nat, b: seq<Word>, e: Entry, z: nat)
    requires |b| == max + 1 <= 256 && e[0] % 64 != 0 && Text(e, z)
    ensures var start, n := PlaceOf(e), if z < 13 then z + 1 else 13;
      && (Picks(max, e) <==> if e[0] / 64 % 2 == 1 then start + n < max else start + n <= max)
      && forall j: nat :: j < |b| ==>
        Picked(b, e)[j] ==
          if start <= j < start + n then RawChar(e, j - start) else if e[0] / 64 % 2 == 1 && j == start + n then 0 else b[j]
  {
    CharIs(e);
    TextIs(e, z);
    hide RawChar, CharAt, TextLen, Text, Filled;
  }

  /** pick_lfn accepts no entry whose text is not well-formed. */
  lemma PicksRaw(max: nat, e: Entry)
    ensures Picks(max, e) ==> exists z: nat :: Text(e, z)
  {
    TextIs(e, TextLen(e, 0));
    hide RawChar, CharAt, TextLen, Text, Filled;
  }

  /** The 32 bytes of a segment: order, attribute, type, sum, cluster, and the characters with terminator and fillers. */
  lemma SegmentBytes(n: seq<Word>, k: nat, sum: Byte)
    requires IsName(n) && 0 < k <= Segments(|n|)
    ensures var e := LfnEntry(n, k, sum);
      && e[0] == (if |n| <= 13 * k then k + 0x40 else k)
      && e[11] == 0x0F && e[12] == 0x00 && e[13] == sum && e[26] == 0x00 && e[27] == 0x00
      && forall s :: 0 <= s < 13 ==>
        RawChar(e, s) == var j := 13 * (k - 1) + s; if j < |n| then n[j] else if j == |n| then 0 else 0xFFFF
  {
    var e := LfnEntry(n, k, sum);
    CharIs(e);
    assert e[0] == LfnByte(n, k, sum, 0) && e[11] == LfnByte(n, k, sum, 11) && e[12] == LfnByte(n, k, sum, 12);
    assert e[13] == LfnByte(n, k, sum, 13) && e[26] == LfnByte(n, k, sum, 26) && e[27] == LfnByte(n, k, sum, 27);
    forall s | 0 <= s < 13
      ensures RawChar(e, s) == SegChar(n, k, s)
    {
      SegChars(n, k, sum, s);
    }
  }
}
