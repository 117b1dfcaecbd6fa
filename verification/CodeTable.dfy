// Conversion between an OEM code and Unicode: the binary search over a table of pairs, bounded by 16 rounds.
module CodeTable {
  import opened Words

  /** A table: pairs of a key and its value, in the order of the keys, with a pair of zeros at the end. */
  ghost predicate Pairs(t: seq<Word>)
  {
    && |t| % 2 == 0 && |t| >= 4 && t[|t| - 2] == 0 && t[|t| - 1] == 0
    && forall i, j :: 0 <= i < j < |t| / 2 - 1 ==> t[2 * i] < t[2 * j]
  }

  /** The number of keys. */
  function Keys(t: seq<Word>): int { |t| / 2 - 1 }

  /** The value paired with a key; 0 when the key is not in the table. */
  function Lookup(t: seq<Word>, src: Word, i: nat): (w: Word)
    requires |t| % 2 == 0
    ensures (forall k :: i <= k < Keys(t) ==> t[2 * k] != src) ==> w == 0
    decreases |t| - i
  {
    if i >= Keys(t) then 0 else if t[2 * i] == src then t[2 * i + 1] else Lookup(t, src, i + 1)
  }

  /** Keys are different, so a key that is found is the one. */
  lemma {:induction false} LookupAt(t: seq<Word>, src: Word, i: nat, k: nat)
    requires Pairs(t) && i <= k < Keys(t) && t[2 * k] == src
    ensures Lookup(t, src, i) == t[2 * k + 1]
    decreases k - i
  {
    if i < k { LookupAt(t, src, i + 1, k); }
  }

  /** The keys left to look at after n more rounds fit in 2^(n-1) entries. */
  predicate Enough(d: int, n: nat) { 0 <= d <= if n == 0 then d else Pow2(n - 1) }

  lemma HalfEnough(d: int, n: nat)
    requires n > 1 && Enough(d, n)
    ensures Enough(d - d / 2, n - 1) && Enough(d / 2, n - 1)
  {
  }

  /** The key, if it is in the table, is between lo and hi. */
  ghost predicate Between(t: seq<Word>, src: Word, lo: int, hi: int)
  {
    |t| % 2 == 0 && forall k :: 0 <= k < Keys(t) && t[2 * k] == src ==> lo <= k < hi
  }

  /** One look cuts the range. */
  lemma Cut(t: seq<Word>, src: Word, lo: int, hi: int, i: nat)
    requires Pairs(t) && Between(t, src, lo, hi) && i < Keys(t) && t[2 * i] != src
    ensures if src > t[2 * i] then Between(t, src, i, hi) && Between(t, src, i + 1, hi) else Between(t, src, lo, i)
  {
    forall k | 0 <= k < Keys(t) && t[2 * k] == src ensures if src > t[2 * i] then i < k else k < i { }
  }

  /** The range starts with the whole table. */
  lemma Whole(t: seq<Word>, src: Word)
    requires Pairs(t)
    ensures Between(t, src, 0, Keys(t))
  {
  }

  /** With one entry left, that was looked at, the key is not there. */
  lemma Last(t: seq<Word>, src: Word, lo: nat, hi: int)
    requires Pairs(t) && Between(t, src, lo, hi) && Enough(hi - lo, 1) && lo < Keys(t) && t[2 * lo] != src
    ensures Lookup(t, src, 0) == 0
  {
    Cut(t, src, lo, hi, lo);
    Nowhere(t, src, if src > t[2 * lo] then lo + 1 else lo, if src > t[2 * lo] then hi else lo);
  }

  /** With the range empty, the key is not there. */
  lemma Nowhere(t: seq<Word>, src: Word, lo: int, hi: int)
    requires Pairs(t) && Between(t, src, lo, hi) && hi <= lo
    ensures Lookup(t, src, 0) == 0
  {
  }

  /**
   * ff_convert: codes up to 0x80 are the same; any other code is searched for. The sentinel is never looked at,
   * and 16 rounds find every key of a table of at most 2^15 keys.
   */
  method Convert(sjis2uni: array<Word>, uni2sjis: array<Word>, src: Word, dir: bool) returns (c: Word, ghost probes: seq<nat>)
    requires Pairs(sjis2uni[..]) && Pairs(uni2sjis[..])
    ensures src <= 0x80 ==> c == src
    ensures var t := if dir then sjis2uni[..] else uni2sjis[..];
      && (forall k :: 0 <= k < |probes| ==> probes[k] < Keys(t))
      && |probes| <= 16
      && (src > 0x80 && Keys(t) <= 0x8000 ==> c == Lookup(t, src, 0))
  {
    hide Between, Lookup, Pow2;
    Whole(if dir then sjis2uni[..] else uni2sjis[..], src);
    probes := [];
    if src <= 0x80 { return src, probes; }
    var p := if dir then sjis2uni else uni2sjis;
    ghost var t := p[..];
    var li, hi, n := 0, p.Length / 2 - 1, 16;
    var i := 0;
    ghost var small := Keys(t) <= 0x8000;
    Pow15();
    while n > 0
      invariant 0 <= li <= hi <= Keys(t) && li < Keys(t) && 0 <= n <= 16 && |probes| == 16 - n
      invariant forall k :: 0 <= k < |probes| ==> probes[k] < Keys(t)
      invariant Between(t, src, li, hi)
      invariant small && n > 0 ==> Enough(hi - li, n)
      invariant small && n == 0 ==> Lookup(t, src, 0) == 0
      invariant i < Keys(t)
      decreases n
    {
      i := li + (hi - li) / 2;
      probes := probes + [i];
      if src == p[i * 2] {
        LookupAt(t, src, 0, i);
        break;
      }
      Cut(t, src, li, hi, i);
      if small && n > 1 { HalfEnough(hi - li, n); }
      if small && n == 1 { Last(t, src, li, hi); }
      if src > p[i * 2] {
        li := i;
      } else {
        hi := i;
      }
      n := n - 1;
    }
    c := if n > 0 then p[i * 2 + 1] else 0;
  }

  lemma Pow15()
    ensures Pow2(15) == 0x8000 && Pow2(0) == 1
  {
    assert Pow2(8) == 0x100;
    assert Pow2(15) == 0x80 * Pow2(8);
  }
}
