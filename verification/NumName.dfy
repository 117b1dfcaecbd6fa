// Numbered short names: the body of a name cut short, a tilde, and a hexadecimal number.
module NumName {
  import opened Words

  /** One step of the 16-bit hash of a long name. */
  function Rotated(s: Word, c: Word): Word
  {
    (s / 2 + s * 0x8000 + c) % 0x1_0000
  }

  function HashOf(s: Word, n: seq<Word>): Word
    decreases |n|
  {
    if n == [] then s else Rotated(HashOf(s, n[..|n| - 1]), n[|n| - 1])
  }

  /** The number used: small ones as they are, larger ones mixed with the long name. */
  function NumberOf(n: seq<Word>, s: Word): Word
  {
    if s > 5 then HashOf(s, n) else s
  }

  function HexDigit(d: nat): Byte
    requires d < 16
  {
    if d < 10 then 0x30 + d else 0x37 + d
  }

  function Hex(v: nat): (r: seq<Byte>)
    ensures 0 < |r|
    ensures v < 16 ==> |r| == 1
    ensures v < 0x100 ==> |r| <= 2
    ensures v < 0x1000 ==> |r| <= 3
    ensures v < 0x1_0000 ==> |r| <= 4
  {
    if v < 16 then [HexDigit(v)] else Hex(v / 16) + [HexDigit(v % 16)]
  }

  const TILDE: Byte := 0x7E
  const SPACE: Byte := 0x20

  /** Length of the name body up to the first space, at most k. */
  function BodyLen(src: seq<Byte>, k: nat): (j: nat)
    requires k <= |src|
    ensures j <= k && (j < k ==> src[j] == SPACE)
    ensures forall i :: 0 <= i < j ==> src[i] != SPACE
  {
    if k == 0 then 0
    else
      var j := BodyLen(src, k - 1);
      if j < k - 1 || src[k - 1] == SPACE then j else k
  }

  /** The eleven bytes of the numbered name: body, tilde, number, padding, extension. */
  function Numbered(src: seq<Byte>, v: Word): (r: seq<Byte>)
    requires |src| == 11
    ensures |r| == 11 && r[8..] == src[8..]
    ensures r[0] == src[0] || r[0] == TILDE
  {
    var tail := [TILDE] + Hex(v);
    var j := BodyLen(src, 8 - |tail|);
    src[..j] + tail + seq(8 - j - |tail|, i => SPACE) + src[8..]
  }

  /** The hash loop over the terminated name in the buffer. */
  method Hash(lfn: array<Word>, ghost n: seq<Word>, s: Word) returns (h: Word)
    requires 0 < |n| < lfn.Length && lfn[..|n|] == n && lfn[|n|] == 0 && forall i :: 0 <= i < |n| ==> n[i] != 0
    ensures h == HashOf(s, n)
  {
    h := s;
    var k := 0;
    while true
      invariant k < |n| && h == HashOf(s, n[..k])
      decreases |n| - k
    {
      assert lfn[k] == lfn[..|n|][k] == n[k] && n[..k + 1][..k] == n[..k];
      h := (h / 2 + h * 0x8000 + lfn[k]) % 0x1_0000;
      k := k + 1;
      assert k < |n| ==> lfn[k] == lfn[..|n|][k];
      if lfn[k] == 0 { break; }
    }
    assert n[..|n|] == n;
  }

  /** itoa: the digits end at index 7, behind the tilde. */
  method Digits(v: Word) returns (ns: array<Byte>, i: nat)
    ensures fresh(ns) && ns.Length == 8 && 3 <= i < 8
    ensures ns[i..] == [TILDE] + Hex(v)
  {
    ns := new Byte[8](_ => 0);
    var k, x: nat := 7, v;
    ghost var done: seq<Byte> := [];
    while true
      invariant k <= 7 && ns[k + 1..] == done && Hex(v) == Hex(x) + done && x < 0x1_0000
      invariant |done| == 7 - k
      decreases x
    {
      var c := x % 16 + 0x30;
      if c > 0x39 { c := c + 7; }
      ns[k] := c;
      done := [HexDigit(x % 16)] + done;
      assert ns[k..] == done;
      if x < 16 { assert Hex(v) == done; }
      assert x >= 16 ==> Hex(x) + done[1..] == Hex(x / 16) + done;
      k := k - 1;
      x := x / 16;
      if x == 0 { break; }
    }
    ns[k] := TILDE;
    i := k;
  }

  /** The numbered name, byte by byte. */
  lemma NumberedAt(src: seq<Byte>, v: Word, r: seq<Byte>, body: nat)
    requires |src| == 11 == |r|
    requires body == BodyLen(src, 7 - |Hex(v)|)
    requires forall k :: 0 <= k < body || 8 <= k < 11 ==> r[k] == src[k]
    requires forall k :: body <= k < 8 ==>
      r[k] == if k == body then TILDE else if k - body - 1 < |Hex(v)| then Hex(v)[k - body - 1] else SPACE
    ensures r == Numbered(src, v)
  {
    hide BodyLen, Hex;
    var tail := [TILDE] + Hex(v);
    var name := src[..body] + tail + seq(8 - body - |tail|, i => SPACE);
    assert r[..8] == name;
    assert r == r[..8] + r[8..] && r[8..] == src[8..];
  }

  /** The first space among the first k bytes. */
  lemma BodyIs(src: seq<Byte>, k: nat, j: nat)
    requires j <= k <= |src| && (j < k ==> src[j] == SPACE)
    requires forall i :: 0 <= i < j ==> src[i] != SPACE
    ensures BodyLen(src, k) == j
  {
    var b := BodyLen(src, k);
  }

  /** Append the number behind the body, and pad. */
  method AppendNumber(dst: array<Byte>, ns: array<Byte>, body: nat, i0: nat)
    requires dst.Length == 12 && ns.Length == 8 && dst != ns && body <= i0 < 8
    modifies dst
    ensures forall k :: 0 <= k < body || 8 <= k < 12 ==> dst[k] == old(dst[k])
    ensures forall k :: body <= k < 8 ==> dst[k] == if i0 + (k - body) < 8 then ns[i0 + (k - body)] else SPACE
  {
    var j, i := body, i0;
    while true
      invariant body <= j < 8 && i == (if i0 + (j - body) <= 8 then i0 + (j - body) else 8)
      invariant forall k :: 0 <= k < body || 8 <= k < 12 ==> dst[k] == old(dst[k])
      invariant forall k :: body <= k < j ==> dst[k] == if i0 + (k - body) < 8 then ns[i0 + (k - body)] else SPACE
      decreases 8 - j
    {
      if i < 8 {
        dst[j] := ns[i];
        i := i + 1;
      } else {
        dst[j] := SPACE;
      }
      j := j + 1;
      if j >= 8 { break; }
    }
  }

  /** gen_numname. */
  method GenNumName(dst: array<Byte>, src: seq<Byte>, lfn: array<Word>, ghost n: seq<Word>, s: Word)
    requires dst.Length == 12 && |src| >= 11
    requires 0 < |n| < lfn.Length && lfn[..|n|] == n && lfn[|n|] == 0 && forall i :: 0 <= i < |n| ==> n[i] != 0
    modifies dst
    ensures dst[..11] == Numbered(src[..11], NumberOf(n, s)) && dst[11] == old(dst[11])
  {
    hide BodyLen, Hex, Numbered;
    forall k | 0 <= k < 11 { dst[k] := src[k]; }
    var v := s;
    if v > 5 { v := Hash(lfn, n, v); }
    var ns, i := Digits(v);
    var j := 0;
    while j < i && dst[j] != SPACE
      invariant j <= i && dst[11] == old(dst[11])
      invariant forall k :: 0 <= k < 11 ==> dst[k] == src[k]
      invariant forall k :: 0 <= k < j ==> src[k] != SPACE
    {
      j := j + 1;
    }
    BodyIs(src[..11], i, j);
    AppendNumber(dst, ns, j, i);
    forall k | i < k < 8
      ensures ns[k] == Hex(v)[k - i - 1]
    {
      assert ns[k] == ns[i..][k - i];
    }
    NumberedAt(src[..11], v, dst[..11], j);
  }

  /** Small numbers are used as they are. */
  lemma SmallNumber(n: seq<Word>, s: Word)
    ensures s <= 5 ==> NumberOf(n, s) == s
    ensures s > 5 ==> NumberOf(n, s) == HashOf(s, n)
  {
  }

  lemma RotatedIs(h: Word, c: Word)
    ensures var turned := if h % 2 == 1 then 0x8000 + (h - 1) / 2 else h / 2;
      Rotated(h, c) == if turned + c < 0x1_0000 then turned + c else turned + c - 0x1_0000
  {
    var q, r := h / 2, h % 2;
    assert h / 2 + h * 0x8000 + c == q * 0x1_0000 + (q + r * 0x8000 + c);
  }

  /** Each character is added, modulo 2^16, to the hash so far rotated right by one bit. */
  lemma HashStep(s: Word, n: seq<Word>, c: Word)
    ensures HashOf(s, []) == s
    ensures var h := HashOf(s, n);
      var turned := if h % 2 == 1 then 0x8000 + (h - 1) / 2 else h / 2;
      HashOf(s, n + [c]) == if turned + c < 0x1_0000 then turned + c else turned + c - 0x1_0000
  {
    hide Rotated;
    assert (n + [c])[..|n|] == n && (n + [c])[|n|] == c;
    RotatedIs(HashOf(s, n), c);
  }

  /** Number 7 of the name AB. */
  lemma HashExample()
    ensures NumberOf([0x41, 0x42], 7) == 0x4064
  {
    assert [0x41] == [] + [0x41] && [0x41, 0x42] == [0x41] + [0x42];
    HashStep(7, [], 0x41);
    HashStep(7, [0x41], 0x42);
  }

  /** Where the bytes of a numbered name come from: the name to its first space, a tilde, the digits, spaces, the extension. */
  lemma NumberedBytes(src: seq<Byte>, v: Word, body: nat)
    requires |src| == 11 && body <= 7 - |Hex(v)| && (forall i :: 0 <= i < body ==> src[i] != 0x20)
    requires body < 7 - |Hex(v)| ==> src[body] == 0x20
    ensures var r := Numbered(src, v);
      && r[..body] == src[..body] && r[body] == 0x7E && r[body + 1..body + 1 + |Hex(v)|] == Hex(v)
      && (forall i :: body + 1 + |Hex(v)| <= i < 8 ==> r[i] == 0x20) && r[8..] == src[8..]
  {
    hide Hex;
    BodyIs(src, 7 - |Hex(v)|, body);
  }

  /** The hexadecimal digits, capitals, highest first. */
  lemma HexDigits(v: nat)
    ensures v < 10 ==> Hex(v) == [0x30 + v]
    ensures 10 <= v < 16 ==> Hex(v) == [0x41 + (v - 10)]
    ensures v >= 16 ==> Hex(v) == Hex(v / 16) + Hex(v % 16)
  {
  }
}
