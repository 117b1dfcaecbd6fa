// A directory as a table of 32-byte entries, and as a list of items: what a name search makes of it, and
// what entering and removing a name does to all searches.
module DirTable {
  import opened Words
  import opened Lfn

  // ----- the search, entry by entry -----

  const DDE: Byte := 0xE5

  /** What dir_find looks for: a long name in a buffer, if any, and a short name unless that is lossy. */
  datatype Query = Query(up: Word -> Word, long: bool, b: seq<Word>, short: seq<Byte>, loss: bool)

  datatype Result = Found(at: nat, lfnIdx: nat) | Missing

  /** The state of the search within a sequence of long-name entries. */
  datatype Track = Track(ord: Byte, sum: Byte, idx: nat)

  datatype Kind = End | Junk | Part | Short

  function KindOf(e: Entry): Kind
  {
    var a := e[11] % 64;
    if e[0] == 0 then End
    else if e[0] == DDE || (a / 8 % 2 == 1 && a != AM_LFN) then Junk
    else if a == AM_LFN then Part
    else Short
  }

  // ----- the bytes of an entry -----

  /** In use: neither the end of the table nor deleted. */
  predicate Live(e: Entry)
  {
    e[0] != 0x00 && e[0] != 0xE5
  }

  /** A file or directory: the volume bit of the attribute byte is clear. */
  predicate IsFile(e: Entry)
  {
    Live(e) && e[11] / 8 % 2 == 0
  }

  /** The volume bit is set, and the six attribute bits are not those of a long-name entry. */
  predicate IsLabel(e: Entry)
  {
    Live(e) && e[11] / 8 % 2 == 1 && e[11] % 64 != 0x0F
  }

  predicate IsPart(e: Entry)
  {
    Live(e) && e[11] % 64 == 0x0F
  }

  /** How the search tells them apart. */
  lemma KindIs(e: Entry)
    ensures KindOf(e) == End <==> e[0] == 0x00
    ensures KindOf(e) == Short <==> IsFile(e)
    ensures KindOf(e) == Part <==> IsPart(e)
    ensures KindOf(e) == Junk <==> e[0] == 0xE5 || IsLabel(e)
  {
  }

  /** A long-name entry continues the match, begins a new one, or ends it. */
  function PartStep(q: Query, e: Entry, k: nat, s: Track): Track
    requires |q.b| > 0
  {
    if !q.long then s
    else
      var c := ClearLle(e[0]);
      var s1 := if Last(e) then Track(c, e[13], k) else s;
      var ok := c == s1.ord && s1.sum == e[13] && Accepts(q.up, |q.b| - 1, q.b, e);
      s1.(ord := if ok then (s1.ord + 255) % 256 else 0xFF)
  }

  function Scan(q: Query, t: seq<Entry>, k: nat, s: Track): Result
    requires |q.b| > 0
    decreases |t| - k
  {
    if k >= |t| then Missing
    else
      match KindOf(t[k])
      case End => Missing
      case Junk => Scan(q, t, k + 1, s.(ord := 0xFF))
      case Part => Scan(q, t, k + 1, PartStep(q, t[k], k, s))
      case Short =>
        if s.ord == 0 && s.sum == SumOf(t[k], 11) then Found(k, s.idx)
        else if !q.loss && t[k][..11] == q.short then Found(k, 0xFFFF)
        else Scan(q, t, k + 1, Track(0xFF, s.sum, 0xFFFF))
  }

  /** dir_find from the first entry on; idx is what lfn_idx held before. */
  function Search(q: Query, t: seq<Entry>, idx: nat): Result
    requires |q.b| > 0
  {
    Scan(q, t, 0, Track(0xFF, 0xFF, idx))
  }

  /** An entry from k on, in front of the end mark, has the eleven bytes as its short name. */
  ghost predicate Occupied(t: seq<Entry>, k: nat, sfn: seq<Byte>)
  {
    exists i :: k <= i < |t| && IsFile(t[i]) && t[i][..11] == sfn && forall j :: k <= j < i ==> t[j][0] != 0x00
  }

  /** A search by the short name alone finds one exactly if it is there. */
  lemma {:induction false} ScanOccupied(q: Query, t: seq<Entry>, k: nat, s: Track)
    requires |q.b| > 0 && !q.long && !q.loss && s.ord == 0xFF
    ensures Scan(q, t, k, s).Found? <==> Occupied(t, k, q.short)
    decreases |t| - k
  {
    hide KindOf, SumOf;
    if k < |t| {
      ScanOccupied(q, t, k + 1, s);
      ScanOccupied(q, t, k + 1, Track(0xFF, s.sum, 0xFFFF));
      OccupiedNext(t, k, q.short);
      KindIs(t[k]);
    }
  }

  lemma OccupiedNext(t: seq<Entry>, k: nat, sfn: seq<Byte>)
    requires k < |t|
    ensures Occupied(t, k, sfn) <==>
      t[k][0] != 0x00 && ((IsFile(t[k]) && t[k][..11] == sfn) || Occupied(t, k + 1, sfn))
  {
    if t[k][0] != 0x00 && Occupied(t, k + 1, sfn) {
      var i :| k + 1 <= i < |t| && IsFile(t[i]) && t[i][..11] == sfn && forall j :: k + 1 <= j < i ==> t[j][0] != 0x00;
      assert forall j :: k <= j < i ==> t[j][0] != 0x00;
    }
    if Occupied(t, k, sfn) && !(IsFile(t[k]) && t[k][..11] == sfn) {
      var i :| k <= i < |t| && IsFile(t[i]) && t[i][..11] == sfn && forall j :: k <= j < i ==> t[j][0] != 0x00;
      assert i != k;
    }
  }

  lemma ShortOccupied(q: Query, t: seq<Entry>, idx: nat)
    requires |q.b| > 0 && !q.long && !q.loss
    ensures Search(q, t, idx).Found? <==> Occupied(t, 0, q.short)
  {
    ScanOccupied(q, t, 0, Track(0xFF, 0xFF, idx));
  }

  /** In any table, a search that reports long-name entries reports some at or before the short one. */
  lemma {:induction false} ScanOrder(q: Query, t: seq<Entry>, k: nat, s: Track)
    requires |q.b| > 0 && (s.ord == 0xFF || s.idx <= k)
    ensures var r := Scan(q, t, k, s); r.Found? ==> r.lfnIdx == 0xFFFF || r.lfnIdx <= r.at
    decreases |t| - k
  {
    hide Accepts, SumOf;
    if k < |t| {
      ScanOrder(q, t, k + 1, s.(ord := 0xFF));
      ScanOrder(q, t, k + 1, PartStep(q, t[k], k, s));
      ScanOrder(q, t, k + 1, Track(0xFF, s.sum, 0xFFFF));
    }
  }

  lemma FoundOrder(q: Query, t: seq<Entry>, idx: nat)
    requires |q.b| > 0
    ensures var r := Search(q, t, idx); r.Found? ==> r.lfnIdx == 0xFFFF || r.lfnIdx <= r.at
  {
    ScanOrder(q, t, 0, Track(0xFF, 0xFF, idx));
  }

  // ----- the directory as a list of items -----

  datatype Item = Blank(e: Entry) | Label(e: Entry) | Plain(e: Entry) | Long(n: seq<Word>, e: Entry)

  predicate IsBlank(e: Entry)
  {
    e[0] == 0 || e[0] == DDE
  }

  predicate ItemOk(it: Item)
  {
    match it
    case Blank(e) => IsBlank(e)
    case Label(e) => IsLabel(e)
    case Plain(e) => IsFile(e)
    case Long(n, e) => IsFile(e) && IsName(n)
  }

  /** The long-name entries of segments k, k - 1, ..., 1. */
  function Parts(n: seq<Word>, k: nat, sum: Byte): (r: seq<Entry>)
    requires k <= Segments(|n|) && k < 64
    ensures |r| == k
    ensures forall i :: 0 <= i < k ==> r[i] == LfnEntry(n, k - i, sum)
    decreases k
  {
    if k == 0 then [] else [LfnEntry(n, k, sum)] + Parts(n, k - 1, sum)
  }

  function Entries(it: Item): (r: seq<Entry>)
    requires ItemOk(it)
    ensures |r| > 0 && r[|r| - 1] == it.e
  {
    if it.Long? then Parts(it.n, Segments(|it.n|), SumOf(it.e, 11)) + [it.e] else [it.e]
  }

  predicate AllOk(items: seq<Item>)
  {
    forall i :: 0 <= i < |items| ==> ItemOk(items[i])
  }

  function Flat(items: seq<Item>): seq<Entry>
    requires AllOk(items)
  {
    if items == [] then [] else Entries(items[0]) + Flat(items[1..])
  }

  predicate IsEnd(it: Item)
  {
    it.Blank? && it.e[0] == 0
  }

  /** Behind the first entry that marks the end there are only such entries. */
  predicate Settled(items: seq<Item>)
  {
    forall i, j :: 0 <= i < j < |items| && IsEnd(items[i]) ==> IsEnd(items[j])
  }

  /** A searched name is in the buffer. */
  ghost predicate Proper(q: Query, name: seq<Word>)
  {
    Upper(q.up) && IsName(name) && 0 < |q.b| <= 256 && Named(q.b, name)
  }

  /** The item carries the searched long name. */
  predicate LongMatch(q: Query, name: seq<Word>, it: Item)
    requires |q.b| > 0
  {
    it.Long? && q.long && SameName(q.up, it.n, name) && FindFits(|q.b| - 1, |it.n|)
  }

  predicate ShortMatch(q: Query, it: Item)
  {
    (it.Plain? || it.Long?) && !q.loss && it.e[..11] == q.short
  }

  predicate Matches(q: Query, name: seq<Word>, it: Item)
    requires |q.b| > 0
  {
    LongMatch(q, name, it) || ShortMatch(q, it)
  }

  /** The first item that matches, where the items start at index at. */
  function Locate(q: Query, name: seq<Word>, items: seq<Item>, at: nat): Result
    requires |q.b| > 0 && AllOk(items)
    decreases |items|
  {
    if items == [] || IsEnd(items[0]) then Missing
    else
      var next := at + |Entries(items[0])|;
      if LongMatch(q, name, items[0]) then Found(next - 1, at)
      else if ShortMatch(q, items[0]) then Found(next - 1, 0xFFFF)
      else Locate(q, name, items[1..], next)
  }

  // ----- the search by entries is the search by items -----

  /** Whether all segments of the name from number j + 1 on were accepted. */
  ghost predicate AcceptedFrom(q: Query, n: seq<Word>, j: nat, sum: Byte)
    requires |q.b| > 0
  {
    forall k :: j < k <= Segments(|n|) && k < 64 ==> Accepts(q.up, |q.b| - 1, q.b, LfnEntry(n, k, sum))
  }

  /** The state after the segments down to number j + 1 have been read. */
  ghost predicate Tracking(q: Query, n: seq<Word>, j: nat, sum: Byte, at: nat, s: Track)
    requires |q.b| > 0 && j < 64
  {
    if q.long && AcceptedFrom(q, n, j, sum) then s == Track(j, sum, at)
    else s.ord == 0xFF
  }

  lemma PartKind(n: seq<Word>, k: nat, sum: Byte)
    requires IsName(n) && 0 < k <= Segments(|n|)
    ensures KindOf(LfnEntry(n, k, sum)) == Part && LfnEntry(n, k, sum)[13] == sum && !IsBlank(LfnEntry(n, k, sum))
  {
    var e := LfnEntry(n, k, sum);
    OrderFacts(n, k, sum);
    assert e[0] == LfnByte(n, k, sum, 0) && e[11] == LfnByte(n, k, sum, 11);
  }

  /** Reading segment k. */
  lemma TrackStep(q: Query, n: seq<Word>, k: nat, sum: Byte, at: nat, s: Track, here: nat)
    requires 0 < |q.b| <= 256 && IsName(n) && 0 < k <= Segments(|n|)
    requires if k == Segments(|n|) then here == at && s.ord == 0xFF else Tracking(q, n, k, sum, at, s)
    ensures Tracking(q, n, k - 1, sum, at, PartStep(q, LfnEntry(n, k, sum), here, s))
  {
    hide LfnEntry, Accepts, Last, ClearLle, KindOf;
    OrderFacts(n, k, sum);
    PartKind(n, k, sum);
    assert k <= 20;
    assert AcceptedFrom(q, n, k - 1, sum) <==>
      AcceptedFrom(q, n, k, sum) && Accepts(q.up, |q.b| - 1, q.b, LfnEntry(n, k, sum));
  }

  /** The search passes over the remaining segments of a long name. */
  lemma {:induction false} ScanParts(q: Query, t: seq<Entry>, p: nat, n: seq<Word>, k: nat, sum: Byte, at: nat, s: Track)
    returns (s': Track)
    requires 0 < |q.b| <= 256 && IsName(n) && k <= Segments(|n|)
    requires p + k <= |t| && t[p..p + k] == Parts(n, k, sum)
    requires if k == Segments(|n|) then p == at && s.ord == 0xFF else Tracking(q, n, k, sum, at, s)
    ensures Tracking(q, n, 0, sum, at, s')
    ensures Scan(q, t, p, s) == Scan(q, t, p + k, s')
    decreases k
  {
    hide LfnEntry, Accepts, Tracking, PartStep, KindOf, SumOf;
    if k == 0 {
      s' := s;
    } else {
      var e := LfnEntry(n, k, sum);
      assert t[p] == t[p..p + k][0] == e;
      PartKind(n, k, sum);
      TrackStep(q, n, k, sum, at, s, p);
      assert t[p + 1..p + k] == t[p..p + k][1..] == Parts(n, k - 1, sum);
      s' := ScanParts(q, t, p + 1, n, k - 1, sum, at, PartStep(q, e, p, s));
    }
  }

  /** All segments are accepted exactly when the long name matches. */
  lemma AcceptedAll(q: Query, name: seq<Word>, it: Item, sum: Byte)
    requires Proper(q, name) && it.Long? && ItemOk(it) && q.long
    ensures AcceptedFrom(q, it.n, 0, sum) <==> LongMatch(q, name, it)
  {
    hide LfnEntry, Accepts;
    MatchExact(q.up, |q.b| - 1, q.b, it.n, name, sum);
    assert Segments(|it.n|) <= 20;
  }

  /** The search passes over one item, or stops at its short entry. */
  lemma ScanItem(q: Query, name: seq<Word>, t: seq<Entry>, p: nat, it: Item, s: Track) returns (s': Track)
    requires Proper(q, name) && ItemOk(it) && !IsEnd(it) && s.ord == 0xFF
    requires var n := |Entries(it)|; p + n <= |t| && t[p..p + n] == Entries(it)
    ensures s'.ord == 0xFF
    ensures var next := p + |Entries(it)|;
      Scan(q, t, p, s) ==
        if LongMatch(q, name, it) then Found(next - 1, p)
        else if ShortMatch(q, it) then Found(next - 1, 0xFFFF)
        else Scan(q, t, next, s')
  {
    hide KindOf, IsFile, IsLabel, IsPart, LfnEntry, Accepts, FindFits, SameName, SumOf;
    var r := Entries(it);
    var last := p + |r| - 1;
    KindIs(it.e);
    assert t[last] == t[p..p + |r|][|r| - 1] == it.e;
    var s1 := s;
    if it.Long? {
      var m, sum := Segments(|it.n|), SumOf(it.e, 11);
      assert t[p..p + m] == t[p..p + |r|][..m] == Parts(it.n, m, sum);
      s1 := ScanParts(q, t, p, it.n, m, sum, p, s);
      if q.long { AcceptedAll(q, name, it, sum); }
    }
    s' := if KindOf(it.e) == Junk then s1.(ord := 0xFF) else Track(0xFF, s1.sum, 0xFFFF);
  }

  /** On a well-formed directory, dir_find finds the first item that matches. */
  lemma {:induction false} ScanItems(q: Query, name: seq<Word>, t: seq<Entry>, p: nat, items: seq<Item>, s: Track)
    requires Proper(q, name) && AllOk(items) && s.ord == 0xFF
    requires p <= |t| && t[p..] == Flat(items)
    ensures Scan(q, t, p, s) == Locate(q, name, items, p)
    decreases |items|
  {
    hide LongMatch, ShortMatch, Scan, Entries;
    if items == [] || IsEnd(items[0]) {
      ScanStop(q, t, p, s, items);
    } else {
      var r := Entries(items[0]);
      assert t[p..p + |r|] == t[p..][..|r|] == r;
      assert t[p + |r|..] == t[p..][|r|..] == Flat(items[1..]);
      var s' := ScanItem(q, name, t, p, items[0], s);
      ScanItems(q, name, t, p + |r|, items[1..], s');
    }
  }

  lemma ScanStop(q: Query, t: seq<Entry>, p: nat, s: Track, items: seq<Item>)
    requires |q.b| > 0 && AllOk(items) && (items == [] || IsEnd(items[0]))
    requires p <= |t| && t[p..] == Flat(items)
    ensures Scan(q, t, p, s) == Missing
  {
    assert items != [] ==> t[p] == t[p..][0] == items[0].e;
  }

  lemma FindsFirst(q: Query, name: seq<Word>, items: seq<Item>, idx: nat)
    requires Proper(q, name) && AllOk(items)
    ensures Search(q, Flat(items), idx) == Locate(q, name, items, 0)
  {
    ScanItems(q, name, Flat(items), 0, items, Track(0xFF, 0xFF, idx));
  }

  /** What lies behind the name in the search buffer does not matter. */
  lemma {:induction false} LocateBuffer(q: Query, b: seq<Word>, name: seq<Word>, items: seq<Item>, at: nat)
    requires |b| == |q.b| > 0 && AllOk(items)
    ensures Locate(q.(b := b), name, items, at) == Locate(q, name, items, at)
    decreases |items|
  {
    hide Entries, SameName, FindFits;
    if items != [] { LocateBuffer(q, b, name, items[1..], at + |Entries(items[0])|); }
  }

  // ----- searches in a changed directory -----

  predicate NoEnd(items: seq<Item>)
  {
    forall i :: 0 <= i < |items| ==> !IsEnd(items[i])
  }

  lemma {:induction false} FlatAppend(a: seq<Item>, b: seq<Item>)
    requires AllOk(a) && AllOk(b)
    ensures AllOk(a + b) && Flat(a + b) == Flat(a) + Flat(b)
    decreases |a|
  {
    hide Entries, ItemOk;
    if a == [] {
      assert a + b == b;
    } else {
      assert (a + b)[1..] == a[1..] + b;
      FlatAppend(a[1..], b);
    }
  }

  /** The first match lies in the front part if there is one there. */
  lemma {:induction false} LocateAppend(q: Query, name: seq<Word>, a: seq<Item>, b: seq<Item>, at: nat)
    requires |q.b| > 0 && AllOk(a) && AllOk(b) && NoEnd(a)
    ensures AllOk(a + b)
    ensures var r := Locate(q, name, a, at);
      Locate(q, name, a + b, at) == if r.Found? then r else Locate(q, name, b, at + |Flat(a)|)
    decreases |a|
  {
    hide LongMatch, ShortMatch, Entries, ItemOk;
    if a == [] {
      assert a + b == b;
    } else {
      assert (a + b)[1..] == a[1..] + b;
      LocateAppend(q, name, a[1..], b, at + |Entries(a[0])|);
    }
  }

  /** Items that do not match are passed over. */
  lemma {:induction false} LocateNone(q: Query, name: seq<Word>, a: seq<Item>, at: nat)
    requires |q.b| > 0 && AllOk(a)
    requires forall i :: 0 <= i < |a| ==> !Matches(q, name, a[i])
    ensures Locate(q, name, a, at) == Missing
    decreases |a|
  {
    hide LongMatch, ShortMatch;
    if a != [] && !IsEnd(a[0]) {
      LocateNone(q, name, a[1..], at + |Entries(a[0])|);
    }
  }

  /** A result points at a matching item. */
  lemma {:induction false} LocateSound(q: Query, name: seq<Word>, items: seq<Item>, at: nat) returns (i: nat)
    requires |q.b| > 0 && AllOk(items) && Locate(q, name, items, at).Found?
    ensures i < |items| && Matches(q, name, items[i]) && !IsEnd(items[i])
    ensures NoEnd(items[..i]) && forall j :: 0 <= j < i ==> !Matches(q, name, items[j])
    ensures Locate(q, name, items, at) ==
      Found(at + |Flat(items[..i])| + |Entries(items[i])| - 1,
        if LongMatch(q, name, items[i]) then at + |Flat(items[..i])| else 0xFFFF)
    decreases |items|
  {
    hide LongMatch, ShortMatch;
    if LongMatch(q, name, items[0]) || ShortMatch(q, items[0]) {
      i := 0;
    } else {
      var j := LocateSound(q, name, items[1..], at + |Entries(items[0])|);
      i := j + 1;
      assert items[..i][1..] == items[1..][..j];
    }
  }

  // ----- blank entries -----

  predicate AllBlank(bl: seq<Item>)
  {
    forall i :: 0 <= i < |bl| ==> bl[i].Blank?
  }

  lemma {:induction false} FlatBlanks(bl: seq<Item>)
    requires AllOk(bl) && AllBlank(bl)
    ensures |Flat(bl)| == |bl| && forall i :: 0 <= i < |bl| ==> Flat(bl)[i] == bl[i].e
    decreases |bl|
  {
    if bl != [] {
      FlatBlanks(bl[1..]);
      forall i | 0 <= i < |bl|
        ensures Flat(bl)[i] == bl[i].e
      {
        if i > 0 { assert Flat(bl)[i] == Flat(bl[1..])[i - 1]; }
      }
    }
  }

  /** A search passes over blank entries unless they mark the end. */
  lemma LocateBlanks(q: Query, name: seq<Word>, bl: seq<Item>, b: seq<Item>, at: nat)
    requires |q.b| > 0 && AllOk(bl) && AllOk(b) && AllBlank(bl)
    ensures AllOk(bl + b)
    ensures NoEnd(bl) ==> Locate(q, name, bl + b, at) == Locate(q, name, b, at + |bl|)
    ensures !NoEnd(bl) ==> Locate(q, name, bl + b, at) == Missing
    decreases |bl|
  {
    hide LongMatch, ShortMatch;
    if bl == [] {
      assert bl + b == b;
    } else {
      assert (bl + b)[1..] == bl[1..] + b;
      BlankItem(q, name, bl[0]);
      LocateBlanks(q, name, bl[1..], b, at + 1);
      if !NoEnd(bl) && !IsEnd(bl[0]) {
        var i :| 0 <= i < |bl| && IsEnd(bl[i]);
        assert IsEnd(bl[1..][i - 1]);
      }
    }
  }

  lemma BlankItem(q: Query, name: seq<Word>, it: Item)
    requires |q.b| > 0 && it.Blank? && ItemOk(it)
    ensures !Matches(q, name, it) && |Entries(it)| == 1
  {
  }

  /** Blank entries are items of their own: entry i starts an item. */
  lemma {:induction false} Aligned(items: seq<Item>, i: nat) returns (j: nat)
    requires AllOk(items) && i <= |Flat(items)|
    requires i < |Flat(items)| ==> IsBlank(Flat(items)[i])
    ensures j <= |items| && |Flat(items[..j])| == i && Flat(items[j..]) == Flat(items)[i..]
    decreases |items|
  {
    hide Entries, ItemOk, IsBlank;
    if i == 0 {
      j := 0;
      assert items[0..] == items && items[..0] == [];
    } else {
      var n := |Entries(items[0])|;
      if i < n { NoBlankInside(items[0], i); }
      assert Flat(items)[n..] == Flat(items[1..]);
      var k := Aligned(items[1..], i - n);
      j := k + 1;
      assert items[..j][0] == items[0] && items[..j][1..] == items[1..][..k] && items[j..] == items[1..][k..];
      assert Flat(items)[i..] == Flat(items)[n..][i - n..];
    }
  }

  lemma PartsOccupied(n: seq<Word>, k: nat, sum: Byte, i: nat)
    requires IsName(n) && i < k <= Segments(|n|)
    ensures k < 64 && !IsBlank(Parts(n, k, sum)[i])
  {
    hide LfnEntry, IsBlank;
    assert k <= 20;
    PartKind(n, k - i, sum);
  }

  lemma KindOccupied(e: Entry)
    ensures IsFile(e) || IsLabel(e) ==> !IsBlank(e)
  {
  }

  /** Only a blank item holds a blank entry, and it holds no other. */
  lemma NoBlankInside(it: Item, i: nat)
    requires ItemOk(it) && i < |Entries(it)|
    ensures IsBlank(Entries(it)[i]) ==> it.Blank? && i == 0
  {
    hide LfnEntry, SumOf, Parts, KindOf, IsBlank;
    KindOccupied(it.e);
    if it.Long? && i < Segments(|it.n|) {
      PartsOccupied(it.n, Segments(|it.n|), SumOf(it.e, 11), i);
    }
  }

  /** ne blank entries in front are ne blank items. */
  lemma {:induction false} BlankFront(items: seq<Item>, ne: nat)
    requires AllOk(items) && ne <= |Flat(items)|
    requires forall k :: 0 <= k < ne ==> IsBlank(Flat(items)[k])
    ensures ne <= |items| && AllBlank(items[..ne])
    decreases ne
  {
    if ne > 0 {
      assert Entries(items[0])[0] == Flat(items)[0];
      NoBlankInside(items[0], 0);
      assert forall k :: 0 <= k < ne - 1 ==> Flat(items[1..])[k] == Flat(items)[k + 1];
      BlankFront(items[1..], ne - 1);
      assert items[..ne] == [items[0]] + items[1..][..ne - 1];
    }
  }

  /** In front of an occupied entry there is no end mark. */
  lemma NoEndBefore(items: seq<Item>, j: nat)
    requires AllOk(items) && Settled(items) && 0 < j <= |items|
    requires !IsBlank(items[j - 1].e)
    ensures NoEnd(items[..j])
  {
    NotEnd(items[j - 1]);
  }

  /** The free slots dir_register takes are whole items, behind an occupied one. */
  lemma SplitFree(items: seq<Item>, i: nat, ne: nat) returns (a: seq<Item>, bl: seq<Item>, b: seq<Item>)
    requires AllOk(items) && Settled(items) && 0 < ne && i + ne <= |Flat(items)|
    requires BlankRun(Flat(items), i, ne)
    requires i > 0 ==> !IsBlank(Flat(items)[i - 1])
    ensures items == a + bl + b && AllOk(a) && AllOk(bl) && AllOk(b)
    ensures |Flat(a)| == i && |bl| == ne && AllBlank(bl) && NoEnd(a)
  {
    hide Entries, ItemOk, IsBlank, Settled, Flat, NoEnd, AllBlank;
    var j := Aligned(items, i);
    a := items[..j];
    var rest := items[j..];
    assert forall k :: 0 <= k < ne ==> Flat(rest)[k] == Flat(items)[i + k];
    BlankFront(rest, ne);
    bl, b := rest[..ne], rest[ne..];
    assert items == a + rest;
    FlatAppend(a, rest);
    if j > 0 {
      LastEntry(a);
      NoEndBefore(items, j);
    } else {
      NoneEnd(a);
    }
  }

  lemma NoneEnd(a: seq<Item>)
    requires a == []
    ensures NoEnd(a)
  {
  }

  lemma NotEnd(it: Item)
    ensures !IsBlank(it.e) ==> !IsEnd(it)
  {
  }

  lemma {:induction false} LastEntry(a: seq<Item>)
    requires AllOk(a) && a != []
    ensures Flat(a) != [] && Flat(a)[|Flat(a)| - 1] == a[|a| - 1].e
    decreases |a|
  {
    if |a| > 1 {
      LastEntry(a[1..]);
    } else {
      assert Flat(a[1..]) == [];
    }
  }

  // ----- entering a name -----

  /** The directory with the item entered in place of blank ones. */
  function Entered(a: seq<Item>, it: Item, b: seq<Item>): seq<Item>
  {
    a + [it] + b
  }

  /** How a search runs in the directory before and after. */
  lemma EnteredLocate(q: Query, name: seq<Word>, a: seq<Item>, bl: seq<Item>, it: Item, b: seq<Item>)
    requires |q.b| > 0 && AllOk(a) && AllOk(bl) && AllOk(b) && ItemOk(it) && NoEnd(a) && AllBlank(bl)
    requires |bl| == |Entries(it)| && !IsEnd(it)
    ensures AllOk(a + bl + b) && AllOk(Entered(a, it, b))
    ensures var n := |Flat(a)|; var r := Locate(q, name, a, 0); var r' := Locate(q, name, b, n + |bl|);
      && Locate(q, name, a + bl + b, 0) == (if r.Found? then r else if NoEnd(bl) then r' else Missing)
      && Locate(q, name, Entered(a, it, b), 0) ==
           (if r.Found? then r
            else if LongMatch(q, name, it) then Found(n + |bl| - 1, n)
            else if ShortMatch(q, it) then Found(n + |bl| - 1, 0xFFFF)
            else r')
  {
    hide LongMatch, ShortMatch, Entries;
    assert a + bl + b == a + (bl + b) && Entered(a, it, b) == a + ([it] + b);
    LocateBlanks(q, name, bl, b, |Flat(a)|);
    LocateAppend(q, name, a, bl + b, 0);
    LocateAppend(q, name, a, [it] + b, 0);
    assert ([it] + b)[1..] == b;
  }

  /** A search that found nothing before finds the item entered, at its long-name entries if it matches by these. */
  lemma EnteredFound(q: Query, name: seq<Word>, a: seq<Item>, bl: seq<Item>, it: Item, b: seq<Item>)
    requires |q.b| > 0 && AllOk(a) && AllOk(bl) && AllOk(b) && ItemOk(it) && NoEnd(a) && AllBlank(bl)
    requires |bl| == |Entries(it)| && !IsEnd(it)
    requires AllOk(a + bl + b) && Locate(q, name, a + bl + b, 0) == Missing && Matches(q, name, it)
    ensures AllOk(Entered(a, it, b))
    ensures Locate(q, name, Entered(a, it, b), 0) ==
      Found(|Flat(a)| + |bl| - 1, if LongMatch(q, name, it) then |Flat(a)| else 0xFFFF)
  {
    EnteredLocate(q, name, a, bl, it, b);
  }

  lemma {:induction false} LocateBound(q: Query, name: seq<Word>, items: seq<Item>, at: nat)
    requires |q.b| > 0 && AllOk(items)
    ensures var r := Locate(q, name, items, at); r.Found? ==> at <= r.at < at + |Flat(items)|
    decreases |items|
  {
    hide LongMatch, ShortMatch, Entries;
    if items != [] {
      LocateBound(q, name, items[1..], at + |Entries(items[0])|);
    }
  }

  /** A search that does not name the new item resolves as before. */
  lemma EnteredSame(q: Query, name: seq<Word>, a: seq<Item>, bl: seq<Item>, it: Item, b: seq<Item>)
    requires |q.b| > 0 && AllOk(a) && AllOk(bl) && AllOk(b) && ItemOk(it) && NoEnd(a) && AllBlank(bl)
    requires |bl| == |Entries(it)| && !IsEnd(it) && Settled(a + bl + b) && !Matches(q, name, it)
    ensures AllOk(a + bl + b) && AllOk(Entered(a, it, b))
    ensures Locate(q, name, Entered(a, it, b), 0) == Locate(q, name, a + bl + b, 0)
  {
    hide LongMatch, ShortMatch, Entries, Flat;
    EnteredLocate(q, name, a, bl, it, b);
    if !NoEnd(bl) && b != [] {
      var i :| 0 <= i < |bl| && IsEnd(bl[i]);
      assert (a + bl + b)[|a| + i] == bl[i] && (a + bl + b)[|a| + |bl|] == b[0];
    }
  }

  // ----- names that belong together -----

  /** The short name a long name stands for by itself, if it is of the 8.3 form. */
  datatype Alias = Lossy | Exact(sfn: seq<Byte>)

  /** Long names that differ in case only stand for the same short name. */
  ghost predicate Folded(up: Word -> Word, alias: seq<Word> -> Alias)
  {
    forall n, m :: SameName(up, n, m) ==> alias(n) == alias(m)
  }

  /** The two forms in which a path segment is searched are derived from it. */
  predicate Coherent(alias: seq<Word> -> Alias, q: Query, name: seq<Word>)
  {
    q.long && (q.loss <==> alias(name).Lossy?) && (!q.loss ==> q.short == alias(name).sfn)
  }

  /** A long name of the 8.3 form is stored with the short name it stands for. */
  predicate Tidy(alias: seq<Word> -> Alias, it: Item)
  {
    it.Long? && alias(it.n).Exact? ==> it.e[..11] == alias(it.n).sfn
  }

  /** The item occupies its short name. */
  predicate SameShort(it: Item, sfn: seq<Byte>)
  {
    (it.Plain? || it.Long?) && it.e[..11] == sfn
  }

  /** When nothing is found, no item matches. */
  lemma {:induction false} MissingAll(q: Query, name: seq<Word>, items: seq<Item>, at: nat, i: nat)
    requires |q.b| > 0 && AllOk(items) && Settled(items) && Locate(q, name, items, at) == Missing && i < |items|
    ensures !Matches(q, name, items[i])
    decreases |items|
  {
    hide LongMatch, ShortMatch, Entries;
    if IsEnd(items[0]) {
      BlankItem(q, name, items[i]);
    } else if i > 0 {
      assert forall k :: 0 <= k < |items| - 1 ==> items[1..][k] == items[k + 1];
      MissingAll(q, name, items[1..], at + |Entries(items[0])|, i - 1);
    }
  }

  /**
   * A name that was not found can be entered without catching the search for any name present: if the search
   * for q2 finds an old item, the new item does not match q2. The new short name is unused.
   */
  lemma NoCapture(alias: seq<Word> -> Alias, q: Query, name: seq<Word>, q2: Query, name2: seq<Word>, items: seq<Item>,
      it: Item, i: nat)
    requires Proper(q, name) && Proper(q2, name2) && q2.up == q.up && |q2.b| == |q.b|
    requires Folded(q.up, alias) && Coherent(alias, q, name) && Coherent(alias, q2, name2)
    requires AllOk(items) && Settled(items) && Locate(q, name, items, 0) == Missing
    requires i < |items| && Matches(q2, name2, items[i]) && Tidy(alias, items[i]) && !SameShort(items[i], it.e[..11])
    requires it.Plain? || (it.Long? && it.n == name)
    requires !q.loss ==> it.e[..11] == q.short
    requires it.Plain? ==> !q.loss
    ensures !Matches(q2, name2, it)
  {
    hide Settled, AllOk, Locate, FindFits, Upper;
    var was := items[i];
    MissingAll(q, name, items, 0, i);
    if LongMatch(q2, name2, it) && LongMatch(q2, name2, was) {
      SameChain(q.up, was.n, name2, name);
    }
  }

  /** Equality up to upper-casing is symmetric and transitive. */
  lemma SameChain(up: Word -> Word, a: seq<Word>, b: seq<Word>, c: seq<Word>)
    ensures SameName(up, a, b) ==> SameName(up, b, a)
    ensures SameName(up, a, b) && SameName(up, c, b) ==> SameName(up, a, c)
  {
  }

  // ----- removing a name -----

  /** The blank items dir_remove leaves of an item. */
  function Erased(it: Item): (bl: seq<Item>)
    requires ItemOk(it)
    ensures |bl| == |Entries(it)| && AllBlank(bl) && AllOk(bl) && NoEnd(bl)
  {
    seq(|Entries(it)|, i requires 0 <= i < |Entries(it)| => Blank(Entries(it)[i][0 := DDE]))
  }

  /**
   * Removing an item: a search resolves as before, except that it passes over the item. Searches that did not
   * match the item are not affected.
   */
  lemma RemovedLocate(q: Query, name: seq<Word>, a: seq<Item>, it: Item, b: seq<Item>)
    requires |q.b| > 0 && AllOk(a) && AllOk(b) && ItemOk(it) && NoEnd(a) && !IsEnd(it)
    ensures AllOk(Entered(a, it, b)) && AllOk(a + Erased(it) + b)
    ensures var r := Locate(q, name, a, 0); var r' := Locate(q, name, b, |Flat(a)| + |Entries(it)|);
      Locate(q, name, a + Erased(it) + b, 0) == if r.Found? then r else r'
    ensures !Matches(q, name, it) ==>
      Locate(q, name, a + Erased(it) + b, 0) == Locate(q, name, Entered(a, it, b), 0)
  {
    hide LongMatch, ShortMatch, Locate, Entries, Flat, Erased;
    EnteredLocate(q, name, a, Erased(it), it, b);
  }

  /** With no other match, the name is gone. */
  lemma RemovedGone(q: Query, name: seq<Word>, a: seq<Item>, it: Item, b: seq<Item>)
    requires |q.b| > 0 && AllOk(a) && AllOk(b) && ItemOk(it) && NoEnd(a) && !IsEnd(it)
    requires forall i :: 0 <= i < |a| ==> !Matches(q, name, a[i])
    requires forall i :: 0 <= i < |b| ==> !Matches(q, name, b[i])
    ensures AllOk(a + Erased(it) + b) && Locate(q, name, a + Erased(it) + b, 0) == Missing
  {
    hide LongMatch, ShortMatch, Locate, Entries, Flat, Erased;
    RemovedLocate(q, name, a, it, b);
    LocateNone(q, name, a, 0);
    LocateNone(q, name, b, |Flat(a)| + |Entries(it)|);
  }

  /** What the item holds after dir_remove has marked its entries. */
  lemma ErasedFlat(it: Item)
    requires ItemOk(it)
    ensures |Flat(Erased(it))| == |Entries(it)|
    ensures forall i :: 0 <= i < |Entries(it)| ==> Flat(Erased(it))[i] == Entries(it)[i][0 := DDE]
  {
    FlatBlanks(Erased(it));
  }

  lemma ScanEnd(q: Query, t: seq<Entry>, k: nat, s: Track)
    requires |q.b| > 0 && k >= |t|
    ensures Scan(q, t, k, s) == Missing
  {
  }

  // ----- looking for free entries -----

  /** Entries j .. j + n - 1 are blank. */
  predicate BlankRun(t: seq<Entry>, j: nat, n: nat)
  {
    j + n <= |t| && forall k :: j <= k < j + n ==> IsBlank(t[k])
  }

  /** No n blank entries lie in a row among the first k. */
  ghost predicate NoRun(t: seq<Entry>, n: nat, k: nat)
  {
    forall j: nat :: j + n <= k ==> !BlankRun(t, j, n)
  }

  /** A table without a blank entry, such as a root of 512 short names, has no room for any object. */
  lemma FullTable(t: seq<Entry>, n: nat)
    requires n > 0 && forall k :: 0 <= k < |t| ==> !IsBlank(t[k])
    ensures NoRun(t, n, |t|)
  {
    forall j: nat | j + n <= |t|
      ensures !BlankRun(t, j, n)
    {
      assert !IsBlank(t[j]);
    }
  }

  lemma FullExample(n: nat)
    requires n > 0
    ensures var t := seq(512, i => SfnEntry([0x41] + seq(11, j => 0x20))); NoRun(t, n, |t|)
  {
    hide NoRun;
    FullTable(seq(512, i => SfnEntry([0x41] + seq(11, j => 0x20))), n);
  }

  /** The last m of the first k entries are blank, and the one before them is not. */
  predicate Trailing(t: seq<Entry>, k: nat, m: nat)
  {
    m <= k && BlankRun(t, k - m, m) && (k > m ==> k - m - 1 < |t| && !IsBlank(t[k - m - 1]))
  }

  /** Looking at one more entry. */
  lemma TrailingStep(t: seq<Entry>, k: nat, m: nat, n: nat)
    requires Trailing(t, k, m) && k < |t| && m < n && NoRun(t, n, k)
    ensures IsBlank(t[k]) ==> Trailing(t, k + 1, m + 1)
    ensures !IsBlank(t[k]) ==> Trailing(t, k + 1, 0)
    ensures !IsBlank(t[k]) || m + 1 < n ==> NoRun(t, n, k + 1)
  {
    if !IsBlank(t[k]) || m + 1 < n {
      forall j: nat | j + n <= k + 1
        ensures !BlankRun(t, j, n)
      {
        if j + n == k + 1 {
          var p := if IsBlank(t[k]) then k - m - 1 else k;
          assert j <= p < j + n && !IsBlank(t[p]);
        }
      }
    }
  }

  lemma TrailingStart(t: seq<Entry>, n: nat)
    requires n > 0
    ensures Trailing(t, 0, 0) && NoRun(t, n, 0)
  {
  }

  /** Entries added at the end do not matter. */
  lemma TrailingGrown(t: seq<Entry>, t': seq<Entry>, k: nat, m: nat, n: nat)
    requires k <= |t| <= |t'| && t == t'[..|t|] && Trailing(t, k, m) && NoRun(t, n, k)
    ensures Trailing(t', k, m) && NoRun(t', n, k)
  {
    forall j: nat | j + n <= k
      ensures !BlankRun(t', j, n)
    {
      assert !BlankRun(t, j, n);
      assert forall i :: j <= i < j + n ==> t'[i] == t[i];
    }
  }

  // ----- writing an object -----

  /** t with the entries from i on replaced by r. */
  function Overwrite(t: seq<Entry>, i: nat, r: seq<Entry>): (u: seq<Entry>)
    requires i + |r| <= |t|
    ensures |u| == |t|
    ensures forall k :: 0 <= k < |t| ==> u[k] == if i <= k < i + |r| then r[k - i] else t[k]
  {
    t[..i] + r + t[i + |r|..]
  }

  lemma OverwriteNext(t: seq<Entry>, i: nat, r: seq<Entry>, m: nat)
    requires m < |r| && i + |r| <= |t|
    ensures Overwrite(t, i, r[..m])[i + m := r[m]] == Overwrite(t, i, r[..m + 1])
    ensures Overwrite(t, i, r[..0]) == t && r[..|r|] == r
  {
  }

  /** The short entry that dir_register writes for a name and its status byte. */
  function SfnEntry(f: seq<Byte>): Entry
    requires |f| == 12
  {
    seq(32, b requires 0 <= b < 32 => if b < 11 then f[b] else if b == 12 then f[11] / 8 % 4 * 8 else 0)
  }

  /** An occupied name makes a short entry. */
  lemma SfnKind(f: seq<Byte>)
    requires |f| == 12 && f[0] != 0 && f[0] != DDE
    ensures IsFile(SfnEntry(f)) && SfnEntry(f)[..11] == f[..11]
  {
  }

  /** What dir_register writes for an object: the long name if there is to be one, and the short entry. */
  function Written(n: seq<Word>, withLfn: bool, f: seq<Byte>): (r: seq<Entry>)
    requires |f| == 12 && IsName(n)
  {
    (if withLfn then Parts(n, Segments(|n|), SumOf(f, 11)) else []) + [SfnEntry(f)]
  }

  function NewItem(n: seq<Word>, withLfn: bool, f: seq<Byte>): Item
    requires |f| == 12
  {
    if withLfn then Long(n, SfnEntry(f)) else Plain(SfnEntry(f))
  }

  /** The entries written are those of one item. */
  lemma WrittenItem(n: seq<Word>, withLfn: bool, f: seq<Byte>)
    requires |f| == 12 && IsName(n) && f[0] != 0 && f[0] != DDE
    ensures ItemOk(NewItem(n, withLfn, f)) && !IsEnd(NewItem(n, withLfn, f))
    ensures Entries(NewItem(n, withLfn, f)) == Written(n, withLfn, f)
    ensures NewItem(n, withLfn, f).e[..11] == f[..11]
  {
    hide KindOf, IsFile, IsLabel, SumOf, SfnEntry, LfnEntry;
    SfnKind(f);
    SumPrefix(SfnEntry(f), f, 11);
  }

  /** Overwriting with one more entry at the end. */
  lemma OverwriteSplit(t: seq<Entry>, i: nat, r: seq<Entry>, e: Entry)
    requires i + |r| + 1 <= |t|
    ensures Overwrite(t, i, r)[i + |r| := e] == Overwrite(t, i, r + [e])
    ensures r == [] ==> Overwrite(t, i, r) == t
  {
  }

  function ZeroEntry(): Entry
  {
    seq(32, i => 0)
  }

  function EmptyRows(n: nat): (z: seq<Entry>)
    ensures |z| == n && forall i :: 0 <= i < n ==> z[i] == ZeroEntry()
  {
    seq(n, i => ZeroEntry())
  }

  /** t1 is t0, with zero entries behind it, and r in place of the first run of blank entries that has room for it. */
  ghost predicate EnteredIn(t0: seq<Entry>, t1: seq<Entry>, first: nat, r: seq<Entry>)
  {
    |t0| <= |t1| &&
    var p := t0 + EmptyRows(|t1| - |t0|);
    && first + |r| <= |p| && Trailing(p, first + |r|, |r|) && t1 == Overwrite(p, first, r)
    && (first + |r| > 0 ==> NoRun(p, |r|, first + |r| - 1))
  }

  lemma EnteredIntro(t0: seq<Entry>, p: seq<Entry>, t1: seq<Entry>, first: nat, r: seq<Entry>)
    requires |t0| <= |p| && p == t0 + EmptyRows(|p| - |t0|) && first + |r| <= |p| && Trailing(p, first + |r|, |r|)
    requires t1 == Overwrite(p, first, r) && (first + |r| > 0 ==> NoRun(p, |r|, first + |r| - 1))
    ensures EnteredIn(t0, t1, first, r)
  {
  }

  lemma WrittenSize(n: seq<Word>, withLfn: bool, f: seq<Byte>)
    requires |f| == 12 && IsName(n)
    ensures |Written(n, withLfn, f)| == if withLfn then Segments(|n|) + 1 else 1
  {
  }

  // ----- dir_register and dir_find together -----

  /** Zero entries, as items. */
  function EndItems(m: nat): (r: seq<Item>)
    ensures |r| == m && AllOk(r) && AllBlank(r) && forall i :: 0 <= i < m ==> IsEnd(r[i]) && r[i].e == ZeroEntry()
  {
    seq(m, i => Blank(ZeroEntry()))
  }

  /** Zero entries behind the table are end marks behind the items. */
  lemma PaddedItems(items: seq<Item>, m: nat)
    requires AllOk(items) && Settled(items)
    ensures AllOk(items + EndItems(m)) && Settled(items + EndItems(m))
    ensures Flat(items + EndItems(m)) == Flat(items) + EmptyRows(m)
  {
    FlatAppend(items, EndItems(m));
    FlatBlanks(EndItems(m));
    assert Flat(EndItems(m)) == EmptyRows(m);
  }

  /** They do not change what a search finds. */
  lemma {:induction false} PaddedLocate(q: Query, name: seq<Word>, items: seq<Item>, m: nat, at: nat)
    requires |q.b| > 0 && AllOk(items)
    ensures AllOk(items + EndItems(m)) && Locate(q, name, items + EndItems(m), at) == Locate(q, name, items, at)
    decreases |items|
  {
    hide LongMatch, ShortMatch, Entries;
    if items == [] {
      assert items + EndItems(m) == EndItems(m);
    } else {
      assert (items + EndItems(m))[1..] == items[1..] + EndItems(m);
      PaddedLocate(q, name, items[1..], m, at + |Entries(items[0])|);
    }
  }

  /** The table that dir_register leaves, as items: the new item took the place of blank ones. */
  lemma RegisteredItems(items: seq<Item>, t1: seq<Entry>, first: nat, it: Item)
    returns (a: seq<Item>, bl: seq<Item>, b: seq<Item>)
    requires AllOk(items) && Settled(items) && ItemOk(it) && EnteredIn(Flat(items), t1, first, Entries(it))
    ensures AllOk(a) && AllOk(bl) && AllOk(b) && NoEnd(a) && AllBlank(bl) && |bl| == |Entries(it)| && |Flat(a)| == first
    ensures AllOk(Entered(a, it, b)) && Flat(Entered(a, it, b)) == t1
    ensures a + bl + b == items + EndItems(|t1| - |Flat(items)|) && Settled(a + bl + b)
  {
    hide Entries, ItemOk, IsBlank, Settled;
    var m := |t1| - |Flat(items)|;
    var all := items + EndItems(m);
    PaddedItems(items, m);
    a, bl, b := SplitFree(all, first, |Entries(it)|);
    FlatAppend(a, bl + b);
    FlatAppend(bl, b);
    FlatBlanks(bl);
    assert all == a + (bl + b);
    FlatAppend(a, [it] + b);
    FlatAppend([it], b);
    FlatOne(it);
    assert Entered(a, it, b) == a + ([it] + b);
    OverwriteParts(Flat(a), Flat(bl), Flat(b), Entries(it));
  }

  lemma FlatOne(it: Item)
    requires ItemOk(it)
    ensures AllOk([it]) && Flat([it]) == Entries(it)
  {
    assert Flat([it][1..]) == [];
  }

  lemma OverwriteParts(x: seq<Entry>, y: seq<Entry>, z: seq<Entry>, r: seq<Entry>)
    requires |y| == |r|
    ensures Overwrite(x + (y + z), |x|, r) == x + (r + z)
  {
  }

  /** Whether dir_find will find a name that has just been registered: all but lossy names of one critical length. */
  lemma NewItemMatches(q: Query, n: seq<Word>, withLfn: bool, f: seq<Byte>)
    requires |f| == 12 && f[0] != 0 && f[0] != DDE && Proper(q, n) && q.long && q.short == f[..11]
    ensures Matches(q, n, NewItem(n, withLfn, f)) <==> (withLfn && FindFits(|q.b| - 1, |n|)) || !q.loss
    ensures LongMatch(q, n, NewItem(n, withLfn, f)) <==> withLfn && FindFits(|q.b| - 1, |n|)
  {
    hide SfnEntry;
    SfnKind(f);
  }

  /**
   * In a well-formed directory, a name that was not found before dir_register is found afterwards, at the entry
   * just written, with the index of its first long-name entry, if it has long-name entries that can be found.
   */
  lemma RegisterFound(q: Query, name: seq<Word>, items: seq<Item>, t1: seq<Entry>, first: nat, it: Item, idx: nat, idx': nat)
    requires Proper(q, name) && AllOk(items) && Settled(items) && ItemOk(it) && !IsEnd(it)
    requires EnteredIn(Flat(items), t1, first, Entries(it))
    requires Search(q, Flat(items), idx) == Missing && Matches(q, name, it)
    ensures Search(q, t1, idx') == Found(first + |Entries(it)| - 1, if LongMatch(q, name, it) then first else 0xFFFF)
  {
    hide Search, Locate, Matches, LongMatch, Flat, Entries, EnteredIn, Settled, AllBlank, NoEnd;
    var a, bl, b := RegisteredItems(items, t1, first, it);
    FindsFirst(q, name, items, idx);
    PaddedLocate(q, name, items, |t1| - |Flat(items)|, 0);
    EnteredFound(q, name, a, bl, it, b);
    FindsFirst(q, name, Entered(a, it, b), idx');
  }

  /** The search for the name just entered: it finds the new entry exactly when the new item matches. */
  lemma RegisteredSearch(q: Query, name: seq<Word>, items: seq<Item>, t1: seq<Entry>, first: nat, it: Item, idx: nat, idx': nat)
    requires Proper(q, name) && AllOk(items) && Settled(items) && ItemOk(it) && !IsEnd(it)
    requires EnteredIn(Flat(items), t1, first, Entries(it)) && Search(q, Flat(items), idx) == Missing
    ensures Search(q, t1, idx') ==
      if Matches(q, name, it) then Found(first + |Entries(it)| - 1, if LongMatch(q, name, it) then first else 0xFFFF)
      else Missing
  {
    hide Search, Matches, LongMatch, EnteredIn, Flat, Settled, Entries, ItemOk;
    if Matches(q, name, it) {
      RegisterFound(q, name, items, t1, first, it, idx, idx');
    } else {
      RegisterKeeps(q, name, items, t1, first, it, idx, idx');
    }
  }

  /** Every other name resolves to the same entry as before, or to none as before, unless it names the new object. */
  lemma RegisterKeeps(q: Query, name: seq<Word>, items: seq<Item>, t1: seq<Entry>, first: nat, it: Item, idx: nat, idx': nat)
    requires Proper(q, name) && AllOk(items) && Settled(items) && ItemOk(it) && !IsEnd(it)
    requires EnteredIn(Flat(items), t1, first, Entries(it))
    requires !Matches(q, name, it)
    ensures Search(q, t1, idx') == Search(q, Flat(items), idx)
  {
    hide Search, Locate, Matches, LongMatch, Flat, Entries, EnteredIn, Settled, AllBlank, NoEnd;
    var a, bl, b := RegisteredItems(items, t1, first, it);
    FindsFirst(q, name, items, idx);
    PaddedLocate(q, name, items, |t1| - |Flat(items)|, 0);
    EnteredSame(q, name, a, bl, it, b);
    FindsFirst(q, name, Entered(a, it, b), idx');
  }

  // ----- dir_find and dir_remove together -----

  /** Entries a .. b - 1 marked as deleted. */
  ghost function Deleted(t: seq<Entry>, a: nat, b: nat): (r: seq<Entry>)
    ensures |r| == |t|
    ensures forall k :: 0 <= k < |t| ==> r[k] == if a <= k < b then t[k][0 := DDE] else t[k]
  {
    seq(|t|, k requires 0 <= k < |t| => if a <= k < b then t[k][0 := DDE] else t[k])
  }

  lemma DeletedStep(t: seq<Entry>, a: nat, b: nat)
    requires a <= b < |t|
    ensures Deleted(t, a, a) == t
    ensures Deleted(Deleted(t, a, b), b, b + 1) == Deleted(t, a, b + 1)
  {
  }

  /** Marking the entries of one item makes them blank items. */
  lemma DeletedItem(a: seq<Item>, it: Item, b: seq<Item>)
    requires AllOk(a) && AllOk(b) && ItemOk(it)
    ensures AllOk(Entered(a, it, b)) && AllOk(a + Erased(it) + b)
    ensures Deleted(Flat(Entered(a, it, b)), |Flat(a)|, |Flat(a)| + |Entries(it)|) == Flat(a + Erased(it) + b)
  {
    hide Entries, ItemOk, Flat, Erased;
    FlatAppend(a, [it] + b);
    FlatAppend([it], b);
    FlatOne(it);
    assert Entered(a, it, b) == a + ([it] + b);
    FlatAppend(a, Erased(it) + b);
    FlatAppend(Erased(it), b);
    assert a + Erased(it) + b == a + (Erased(it) + b);
    ErasedFlat(it);
    var x, y, z := Flat(a), Entries(it), Flat(b);
    assert Deleted(x + (y + z), |x|, |x| + |y|) == x + (Flat(Erased(it)) + z);
  }

  /**
   * In a well-formed directory, dir_remove of what dir_find found turns that item into blank ones and touches no
   * other, provided it was found through its long name or has none.
   */
  lemma RemovedItems(q: Query, name: seq<Word>, items: seq<Item>, idx: nat) returns (i: nat)
    requires Proper(q, name) && AllOk(items) && Search(q, Flat(items), idx).Found? && |Flat(items)| <= 0x1_0000
    ensures i < |items| && Matches(q, name, items[i]) && NoEnd(items[..i]) && !IsEnd(items[i])
    ensures forall j :: 0 <= j < i ==> !Matches(q, name, items[j])
    ensures AllOk(items[..i]) && AllOk(items[i + 1..]) && AllOk(items[..i] + Erased(items[i]) + items[i + 1..])
    ensures items == Entered(items[..i], items[i], items[i + 1..])
    ensures var r := Search(q, Flat(items), idx);
      LongMatch(q, name, items[i]) || items[i].Plain? ==>
        Deleted(Flat(items), if r.lfnIdx == 0xFFFF then r.at else r.lfnIdx, r.at + 1) ==
          Flat(items[..i] + Erased(items[i]) + items[i + 1..])
  {
    hide Search, Locate, LongMatch, ShortMatch, Flat, Erased, Deleted;
    FindsFirst(q, name, items, idx);
    i := LocateSound(q, name, items, 0);
    DeletedItem(items[..i], items[i], items[i + 1..]);
    assert items == Entered(items[..i], items[i], items[i + 1..]);
    LocateBound(q, name, items, 0);
  }

  /** Searches after the removal: the others as before, the one for the removed name as if it had never been there. */
  lemma RemoveKeeps(q: Query, name: seq<Word>, a: seq<Item>, it: Item, b: seq<Item>, idx: nat, idx': nat)
    requires Proper(q, name) && AllOk(a) && AllOk(b) && ItemOk(it) && NoEnd(a) && !IsEnd(it)
    ensures AllOk(Entered(a, it, b)) && AllOk(a + Erased(it) + b)
    ensures !Matches(q, name, it) ==>
      Search(q, Flat(a + Erased(it) + b), idx') == Search(q, Flat(Entered(a, it, b)), idx)
    ensures (forall i :: 0 <= i < |a| ==> !Matches(q, name, a[i])) && (forall i :: 0 <= i < |b| ==> !Matches(q, name, b[i])) ==>
      Search(q, Flat(a + Erased(it) + b), idx') == Missing
  {
    hide Search, Locate, Matches, Flat, Erased, Entries;
    RemovedLocate(q, name, a, it, b);
    FindsFirst(q, name, Entered(a, it, b), idx);
    FindsFirst(q, name, a + Erased(it) + b, idx');
    if (forall i :: 0 <= i < |a| ==> !Matches(q, name, a[i])) && forall i :: 0 <= i < |b| ==> !Matches(q, name, b[i]) {
      RemovedGone(q, name, a, it, b);
    }
  }

  /** A lossy search does not look at the short name. */
  lemma {:induction false} LossySearch(q: Query, q': Query, name: seq<Word>, items: seq<Item>, at: nat)
    requires |q.b| > 0 && AllOk(items) && q.loss && q' == q.(short := q'.short)
    ensures Locate(q', name, items, at) == Locate(q, name, items, at)
    decreases |items|
  {
    hide FindFits, SameName, Entries, ItemOk;
    if items != [] {
      LossySearch(q, q', name, items[1..], at + |Entries(items[0])|);
    }
  }

  /** The last entry written is the short one. */
  lemma EnteredShort(t0: seq<Entry>, t1: seq<Entry>, first: nat, n: seq<Word>, withLfn: bool, f: seq<Byte>)
    requires |f| == 12 && IsName(n) && EnteredIn(t0, t1, first, Written(n, withLfn, f))
    ensures var k := first + |Written(n, withLfn, f)| - 1; 0 <= k < |t1| && t1[k] == SfnEntry(f)
  {
    hide SfnEntry, LfnEntry, Trailing;
  }

  /** What the search for a name just entered answers; q is the search that found nothing before, q' the one after. */
  lemma NewSearch(q: Query, q': Query, name: seq<Word>, items: seq<Item>, t1: seq<Entry>, first: nat, f: seq<Byte>, idx: nat)
    requires |f| == 12 && f[0] != 0 && f[0] != DDE && (f[11] % 2 == 1 ==> f[11] / 2 % 2 == 1)
    requires Proper(q', name) && q'.long && q'.short == f[..11] && q'.loss == (f[11] % 2 == 1)
    requires |q.b| > 0 && q' == (if q'.loss then q.(short := f[..11]) else q)
    requires AllOk(items) && Settled(items) && EnteredIn(Flat(items), t1, first, Written(name, f[11] / 2 % 2 == 1, f))
    requires Locate(q, name, items, 0) == Missing
    ensures var withLfn := f[11] / 2 % 2 == 1;
      var byLong := withLfn && FindFits(|q.b| - 1, |name|);
      var k := first + if withLfn then Segments(|name|) else 0;
      && k < |t1| && t1[k] == SfnEntry(f)
      && Search(q', t1, idx) == if byLong || f[11] % 2 == 0 then Found(k, if byLong then first else 0xFFFF) else Missing
  {
    hide Search, Flat, Locate, Settled, SfnEntry, LfnEntry, Overwrite, EnteredIn, AllOk, Matches, LongMatch, FindFits,
      Segments, Parts, Entries, Named;
    var withLfn := f[11] / 2 % 2 == 1;
    WrittenItem(name, withLfn, f);
    WrittenSize(name, withLfn, f);
    NewItemMatches(q', name, withLfn, f);
    if q'.loss { LossySearch(q, q', name, items, 0); }
    EnteredShort(Flat(items), t1, first, name, withLfn, f);
    FindsFirst(q', name, items, 0);
    RegisteredSearch(q', name, items, t1, first, NewItem(name, withLfn, f), 0, idx);
  }

  /** The short entry, written out: the name, the two flags of the letter cases, and zeros. */
  lemma SfnBytes(f: seq<Byte>)
    requires |f| == 12
    ensures var e := SfnEntry(f);
      && (forall i :: 0 <= i < 11 ==> e[i] == f[i]) && e[11] == 0
      && e[12] == (if f[11] / 0x08 % 2 == 1 then 0x08 else 0) + (if f[11] / 0x10 % 2 == 1 then 0x10 else 0)
      && forall i :: 13 <= i < 32 ==> e[i] == 0
  {
  }
}
