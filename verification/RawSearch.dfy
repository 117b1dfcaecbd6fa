// What the search of a directory finds in any table, well-formed or not, in terms of the bytes of its entries.
module RawSearch {
  import opened Words
  import opened Lfn
  import opened DirTable

  /**
   * The entries from i on are long-name entries with orders k - i down to 1, the first one alone marked as the last
   * segment; all agree with the searched name and carry the sum that their first one has.
   */
  ghost predicate Run(q: Query, t: seq<Entry>, i: nat, p: nat, left: nat)
    requires |q.b| > 0
  {
    && q.long && i < p <= |t| && t[i][0] / 64 % 2 == 1 && t[i][0] - 64 == left + (p - i)
    && (forall j :: i < j < p ==> t[j][0] / 64 % 2 == 0 && t[j][0] == left + (p - j))
    && forall j :: i <= j < p ==> IsPart(t[j]) && t[j][13] == t[i][13] && Accepts(q.up, |q.b| - 1, q.b, t[j])
  }

  /** A complete run, whose sum is that of the short name behind it. */
  ghost predicate LongHit(q: Query, t: seq<Entry>, i: nat, k: nat)
    requires |q.b| > 0
  {
    k < |t| && IsFile(t[k]) && Run(q, t, i, k, 0) && t[i][13] == SumOf(t[k], 11)
  }

  predicate ShortHit(q: Query, t: seq<Entry>, k: nat)
  {
    k < |t| && IsFile(t[k]) && !q.loss && t[k][..11] == q.short
  }

  ghost predicate Hit(q: Query, t: seq<Entry>, k: nat)
    requires |q.b| > 0
  {
    ShortHit(q, t, k) || exists i :: LongHit(q, t, i, k)
  }

  /** The entries up to k are in front of the end mark. */
  predicate Reached(t: seq<Entry>, k: nat)
  {
    forall j :: 0 <= j <= k && j < |t| ==> t[j][0] != 0x00
  }

  /** The first hit in front of the end mark, with the start of the long name if it is one. */
  ghost predicate FirstHit(q: Query, t: seq<Entry>, r: Result)
    requires |q.b| > 0
  {
    match r
    case Missing => forall k :: 0 <= k < |t| && Reached(t, k) ==> !Hit(q, t, k)
    case Found(k, i) =>
      && k < |t| && Reached(t, k) && Hit(q, t, k) && (forall j :: 0 <= j < k ==> !Hit(q, t, j))
      && if exists m :: LongHit(q, t, m, k) then LongHit(q, t, i, k) else i == 0xFFFF
  }

  /** What the state of the search tells at entry p: the run that leads there, if there is one. */
  ghost predicate Tells(q: Query, t: seq<Entry>, p: nat, s: Track)
    requires |q.b| > 0
  {
    && (s.ord != 0xFF ==> Run(q, t, s.idx, p, s.ord) && s.sum == t[s.idx][13])
    && forall i: nat, left: nat :: Run(q, t, i, p, left) ==> s.ord == left && s.idx == i
  }

  /** An order byte that is marked as the last segment is below 192 without the mark. */
  lemma OrderBelow(q: Query, t: seq<Entry>, i: nat, p: nat, left: nat)
    requires |q.b| > 0 && Run(q, t, i, p, left)
    ensures left < 0xBF
  {
  }

  /** Without an order nothing is accepted. */
  lemma NoOrder(q: Query, e: Entry)
    requires 0 < |q.b| <= 256 && ClearLle(e[0]) == 0
    ensures !Accepts(q.up, |q.b| - 1, q.b, e)
  {
  }

  lemma Longer(q: Query, t: seq<Entry>, i: nat, p: nat, left: nat)
    requires |q.b| > 0 && p < |t| && Run(q, t, i, p, left + 1)
    requires IsPart(t[p]) && t[p][0] / 64 % 2 == 0 && t[p][0] == left + 1 && t[p][13] == t[i][13]
    requires Accepts(q.up, |q.b| - 1, q.b, t[p])
    ensures Run(q, t, i, p + 1, left)
  {
    hide Accepts, IsPart;
  }

  lemma Shorter(q: Query, t: seq<Entry>, i: nat, p: nat, left: nat)
    requires |q.b| > 0 && p < |t| && Run(q, t, i, p + 1, left) && i < p
    ensures Run(q, t, i, p, left + 1)
    ensures IsPart(t[p]) && t[p][0] / 64 % 2 == 0 && t[p][0] == left + 1 && t[p][13] == t[i][13]
    ensures Accepts(q.up, |q.b| - 1, q.b, t[p])
  {
    hide Accepts, IsPart;
  }

  /** Reading a long-name entry. */
  lemma PartTells(q: Query, t: seq<Entry>, p: nat, s: Track)
    requires 0 < |q.b| <= 256 && p < |t| && Tells(q, t, p, s) && IsPart(t[p])
    ensures Tells(q, t, p + 1, PartStep(q, t[p], p, s))
  {
    hide Accepts, IsPart;
    var e, s' := t[p], PartStep(q, t[p], p, s);
    if ClearLle(e[0]) == 0 { NoOrder(q, e); }
    if s'.ord != 0xFF && !Last(e) {
      OrderBelow(q, t, s.idx, p, s.ord);
      Longer(q, t, s.idx, p, s'.ord);
    }
    var next := p + 1;
    forall i: nat, left: nat | Run(q, t, i, next, left)
      ensures s'.ord == left && s'.idx == i
    {
      if i < p { Shorter(q, t, i, p, left); }
    }
  }

  /** An entry that is no long-name entry ends every run. */
  lemma OtherTells(q: Query, t: seq<Entry>, p: nat, s: Track)
    requires 0 < |q.b| && p < |t| && !IsPart(t[p]) && s.ord == 0xFF
    ensures Tells(q, t, p + 1, s)
  {
  }

  /** The search from entry p on. */
  lemma {:induction false} ScanRaw(q: Query, t: seq<Entry>, p: nat, s: Track)
    requires 0 < |q.b| <= 256 && p <= |t| <= 0x1_0000 && Tells(q, t, p, s)
    requires forall j :: 0 <= j < p ==> t[j][0] != 0x00 && !Hit(q, t, j)
    ensures FirstHit(q, t, Scan(q, t, p, s))
    decreases |t| - p
  {
    hide Accepts, SumOf, KindOf, Run, PartStep, IsFile, IsPart, IsLabel;
    if p < |t| {
      KindIs(t[p]);
      FileOnly(q, t, p);
      match KindOf(t[p]) {
        case End =>
        case Junk =>
          OtherTells(q, t, p, s.(ord := 0xFF));
          ScanRaw(q, t, p + 1, s.(ord := 0xFF));
        case Part =>
          PartTells(q, t, p, s);
          ScanRaw(q, t, p + 1, PartStep(q, t[p], p, s));
        case Short =>
          LongTells(q, t, p, s);
          OtherTells(q, t, p, Track(0xFF, s.sum, 0xFFFF));
          if !Hit(q, t, p) { ScanRaw(q, t, p + 1, Track(0xFF, s.sum, 0xFFFF)); }
      }
    }
  }

  /** Only an entry of a file or directory is a hit. */
  lemma FileOnly(q: Query, t: seq<Entry>, k: nat)
    requires |q.b| > 0 && k < |t|
    ensures Hit(q, t, k) ==> IsFile(t[k])
    ensures IsFile(t[k]) ==> !IsPart(t[k]) && !IsLabel(t[k])
    ensures IsLabel(t[k]) ==> !IsPart(t[k])
  {
  }

  /** At the entry of a file, the state tells whether its long name was matched. */
  lemma LongTells(q: Query, t: seq<Entry>, p: nat, s: Track)
    requires |q.b| > 0 && p < |t| <= 0x1_0000 && Tells(q, t, p, s) && IsFile(t[p])
    ensures s.ord == 0 && s.sum == SumOf(t[p], 11) ==> LongHit(q, t, s.idx, p)
    ensures (exists i :: LongHit(q, t, i, p)) ==> s.ord == 0 && s.sum == SumOf(t[p], 11)
  {
    hide Accepts, SumOf, IsFile, IsPart;
  }

  /**
   * dir_find in any table: it finds the first entry of a file or directory, in front of the end mark, whose long-name
   * entries match completely or whose short name is the one searched for; volume labels and deleted entries are passed
   * over, and end a run of long-name entries.
   */
  lemma SearchRaw(q: Query, t: seq<Entry>, idx: nat)
    requires 0 < |q.b| <= 256 && |t| <= 0x1_0000
    ensures FirstHit(q, t, Search(q, t, idx))
  {
    ScanRaw(q, t, 0, Track(0xFF, 0xFF, idx));
  }

  /** The label of the volume and a directory of the same name: the label is passed over. */
  lemma LabelExample(q: Query, vol: Entry, dir: Entry)
    requires 0 < |q.b| <= 256 && !q.long && !q.loss && q.short == [0x42, 0x41, 0x43, 0x4B, 0x55, 0x50] + seq(5, i => 0x20)
    requires vol[..11] == dir[..11] == q.short && vol[11] == 0x08 && dir[11] == 0x10
    ensures Search(q, [vol], 0) == Missing && Search(q, [vol, dir], 0) == Found(1, 0xFFFF)
  {
    hide Search;
    assert vol[0] == vol[..11][0] == 0x42 && dir[0] == dir[..11][0] == 0x42;
    SearchRaw(q, [vol], 0);
    SearchRaw(q, [vol, dir], 0);
    assert !Hit(q, [vol], 0) && !Hit(q, [vol, dir], 0) && ShortHit(q, [vol, dir], 1);
    assert Reached([vol, dir], 1) && Hit(q, [vol, dir], 1);
  }
}
