// A directory as a map: what entering and removing objects does to all searches at once, and over whole runs.
module DirMap {
  import opened Words
  import opened Lfn
  import opened DirTable

  /** What the searches of one volume have in common: upper-casing, short forms, length of the name buffer. */
  datatype Habit = Habit(up: Word -> Word, alias: seq<Word> -> Alias, max: nat)

  ghost predicate Fair(c: Habit)
  {
    Upper(c.up) && Folded(c.up, c.alias) && c.max < 256
  }

  /** A search for name, by its long form and by the short form that is derived from it. */
  ghost predicate Asks(c: Habit, q: Query, name: seq<Word>)
  {
    Proper(q, name) && q.up == c.up && |q.b| == c.max + 1 && Coherent(c.alias, q, name)
  }

  predicate IsObject(it: Item)
  {
    it.Plain? || it.Long?
  }

  /** The items occupy the same short name, or long names that searches cannot tell apart. */
  predicate Clash(c: Habit, a: Item, b: Item)
  {
    || (IsObject(a) && IsObject(b) && a.e[..11] == b.e[..11])
    || (a.Long? && b.Long? && SameName(c.up, a.n, b.n) && FindFits(c.max, |a.n|))
  }

  /** A directory as dir_register keeps it: short names go with their long names, and no two objects clash. */
  ghost predicate Neat(c: Habit, items: seq<Item>)
  {
    && AllOk(items) && Settled(items)
    && (forall i :: 0 <= i < |items| ==> Tidy(c.alias, items[i]))
    && (forall i, j :: 0 <= i < j < |items| ==> !Clash(c, items[i], items[j]))
  }

  lemma ClashBack(c: Habit, a: Item, b: Item)
    ensures Clash(c, a, b) <==> Clash(c, b, a)
  {
    if Clash(c, a, b) || Clash(c, b, a) {
      if a.Long? && b.Long? { SameChain(c.up, a.n, b.n, a.n); SameChain(c.up, b.n, a.n, b.n); }
    }
  }

  /** Two items that match the same search clash. */
  lemma MatchClash(c: Habit, q: Query, name: seq<Word>, a: Item, b: Item)
    requires Fair(c) && Asks(c, q, name) && Tidy(c.alias, a) && Tidy(c.alias, b)
    requires Matches(q, name, a) && Matches(q, name, b)
    ensures Clash(c, a, b)
  {
    hide Upper;
    if LongMatch(q, name, a) && LongMatch(q, name, b) {
      SameChain(c.up, a.n, name, b.n);
    }
  }

  /** In a neat directory a search matches one item at most. */
  lemma OneMatch(c: Habit, q: Query, name: seq<Word>, items: seq<Item>, i: nat, j: nat)
    requires Fair(c) && Asks(c, q, name) && Neat(c, items) && i < |items| && j < |items|
    requires Matches(q, name, items[i]) && Matches(q, name, items[j])
    ensures i == j
  {
    hide Clash, Matches, Fair, Asks, Tidy;
    if i != j {
      MatchClash(c, q, name, items[i], items[j]);
      ClashBack(c, items[i], items[j]);
    }
  }

  // ----- entering an object -----

  /** The item is what dir_register makes of name, whose search q found nothing. */
  ghost predicate Newcomer(q: Query, name: seq<Word>, items: seq<Item>, it: Item)
    requires |q.b| > 0
  {
    && ItemOk(it) && !IsEnd(it) && (it.Plain? || (it.Long? && it.n == name))
    && (!q.loss ==> it.e[..11] == q.short) && (it.Plain? ==> !q.loss)
    && (forall i :: 0 <= i < |items| ==> !SameShort(items[i], it.e[..11]))
    && AllOk(items) && Locate(q, name, items, 0) == Missing
  }

  /** The new item fits in. */
  lemma NewcomerFits(c: Habit, q: Query, name: seq<Word>, items: seq<Item>, it: Item, i: nat)
    requires Fair(c) && Asks(c, q, name) && Neat(c, items) && Newcomer(q, name, items, it) && i < |items|
    ensures Tidy(c.alias, it) && !Clash(c, items[i], it)
  {
    hide Upper, Settled, AllOk, Locate, FindFits;
    MissingAll(q, name, items, 0, i);
  }

  lemma NewcomerTidy(c: Habit, q: Query, name: seq<Word>, items: seq<Item>, it: Item)
    requires Fair(c) && Asks(c, q, name) && Newcomer(q, name, items, it)
    ensures Tidy(c.alias, it)
  {
    hide Upper, AllOk, Locate;
  }

  /** Zero entries behind the table change nothing. */
  lemma PaddedNeat(c: Habit, items: seq<Item>, m: nat)
    requires Neat(c, items)
    ensures Neat(c, items + EndItems(m))
  {
    hide Settled, AllOk, SameName, FindFits;
    PaddedItems(items, m);
    var all := items + EndItems(m);
    forall i, j | 0 <= i < j < |all|
      ensures !Clash(c, all[i], all[j])
    {
      if j < |items| { assert !Clash(c, items[i], items[j]); }
    }
  }

  /** A neat directory stays neat when a newcomer takes the place of blank items. */
  lemma EnteredNeat(c: Habit, q: Query, name: seq<Word>, a: seq<Item>, bl: seq<Item>, it: Item, b: seq<Item>)
    requires Fair(c) && Asks(c, q, name) && Neat(c, a + bl + b) && AllOk(a + bl + b) && Newcomer(q, name, a + bl + b, it)
    requires NoEnd(a)
    ensures Neat(c, Entered(a, it, b))
  {
    hide Asks, Fair, Newcomer, Tidy, Clash, ItemOk;
    var was, now := a + bl + b, Entered(a, it, b);
    ghost var k := |a|;
    NewcomerTidy(c, q, name, was, it);
    AsksSize(c, q, name);
    NewcomerOk(q, name, was, it);
    assert now[k] == it;
    forall i | 0 <= i < |now|
      ensures ItemOk(now[i]) && Tidy(c.alias, now[i]) && (i != k ==> !Clash(c, now[i], it))
      ensures i < k ==> now[i] == was[i]
      ensures i > k ==> now[i] == was[i - 1 + |bl|]
    {
      if i != k { NewcomerFits(c, q, name, was, it, if i < k then i else i - 1 + |bl|); }
    }
    forall i, j | 0 <= i < j < |now|
      ensures !Clash(c, now[i], now[j]) && (IsEnd(now[i]) ==> IsEnd(now[j]))
    {
      if i == k {
        ClashBack(c, now[j], it);
      } else if j != k {
        var i', j' := if i < k then i else i - 1 + |bl|, if j < k then j else j - 1 + |bl|;
        assert now[i] == was[i'] && now[j] == was[j'];
      }
      if i < k { assert now[i] == a[i]; }
    }
  }

  lemma NewcomerOk(q: Query, name: seq<Word>, items: seq<Item>, it: Item)
    requires |q.b| > 0 && Newcomer(q, name, items, it)
    ensures ItemOk(it) && !IsEnd(it) && AllOk(items) && Locate(q, name, items, 0) == Missing
  {
  }

  /** What happened to the directory: an object got entries first to at, or the object whose last entry is at went. */
  datatype Change = Add(it: Item, first: nat, at: nat) | Drop(at: nat) | None

  /** The map of names to entries: what was found is found until it is dropped, and only unbound names get bound. */
  function Answer(q: Query, name: seq<Word>, ch: Change, r: Result): Result
    requires |q.b| > 0
  {
    match ch
    case None => r
    case Drop(at) => if r.Found? && r.at == at then Missing else r
    case Add(it, first, at) =>
      if r.Found? then r
      else if LongMatch(q, name, it) then Found(at, first)
      else if ShortMatch(q, it) then Found(at, 0xFFFF)
      else Missing
  }

  /** The change turned every search in t0 into that in t1. */
  ghost predicate Turned(c: Habit, t0: seq<Entry>, t1: seq<Entry>, ch: Change)
  {
    forall q: Query, name: seq<Word>, i: nat, j: nat {:trigger Asks(c, q, name), Search(q, t0, i), Search(q, t1, j)} ::
      Asks(c, q, name) ==> Search(q, t1, j) == Answer(q, name, ch, Search(q, t0, i))
  }

  lemma TurnedOne(c: Habit, t0: seq<Entry>, t1: seq<Entry>, ch: Change, q: Query, name: seq<Word>, i: nat, j: nat)
    requires Turned(c, t0, t1, ch) && Asks(c, q, name)
    ensures |q.b| > 0 && Search(q, t1, j) == Answer(q, name, ch, Search(q, t0, i))
  {
    hide Search, Answer;
  }

  lemma EnteredAnswer(c: Habit, q: Query, name: seq<Word>, items: seq<Item>, t1: seq<Entry>, first: nat, it: Item,
      q2: Query, name2: seq<Word>, i: nat, j: nat)
    requires Fair(c) && Asks(c, q, name) && Neat(c, items) && Newcomer(q, name, items, it)
    requires EnteredIn(Flat(items), t1, first, Entries(it))
    requires Asks(c, q2, name2)
    ensures Search(q2, t1, j) == Answer(q2, name2, Add(it, first, first + |Entries(it)| - 1), Search(q2, Flat(items), i))
  {
    hide Search, Locate, LongMatch, ShortMatch, Flat, Entries, EnteredIn, Settled, Tidy, SameShort, Clash, ItemOk;
    FindsFirst(q2, name2, items, i);
    if Locate(q2, name2, items, 0).Found? {
      var k := LocateSound(q2, name2, items, 0);
      NoCapture(c.alias, q, name, q2, name2, items, it, k);
      RegisterKeeps(q2, name2, items, t1, first, it, i, j);
    } else {
      RegisteredSearch(q2, name2, items, t1, first, it, i, j);
    }
  }

  /** dir_register in a neat directory, as a whole: it stays neat, and the new name is bound. */
  lemma EnteredWhole(c: Habit, q: Query, name: seq<Word>, items: seq<Item>, t1: seq<Entry>, first: nat, it: Item)
    returns (items': seq<Item>)
    requires AllOk(items) && Settled(items) && ItemOk(it) && !IsEnd(it) && EnteredIn(Flat(items), t1, first, Entries(it))
    ensures AllOk(items') && Settled(items') && Flat(items') == t1
    ensures Fair(c) && Asks(c, q, name) && Neat(c, items) && Newcomer(q, name, items, it) ==>
      Neat(c, items') && Turned(c, Flat(items), t1, Add(it, first, first + |Entries(it)| - 1))
  {
    hide Search, Locate, Flat, Entries, EnteredIn, Settled, Tidy, SameShort, Clash, ItemOk, Newcomer, Fair, Matches,
      LongMatch, ShortMatch, Answer, Neat, Proper, Coherent;
    var a, bl, b := RegisteredItems(items, t1, first, it);
    items' := Entered(a, it, b);
    EnteredSettled(a, bl, it, b);
    if Fair(c) && Asks(c, q, name) && Neat(c, items) && Newcomer(q, name, items, it) {
      var m := |t1| - |Flat(items)|;
      PaddedNeat(c, items, m);
      PaddedNewcomer(q, name, items, it, m);
      EnteredNeat(c, q, name, a, bl, it, b);
      forall q2: Query, name2: seq<Word>, i: nat, j: nat | Asks(c, q2, name2)
        ensures |q2.b| > 0
        ensures Search(q2, t1, j) == Answer(q2, name2, Add(it, first, first + |Entries(it)| - 1), Search(q2, Flat(items), i))
      {
        AsksSize(c, q2, name2);
        EnteredAnswer(c, q, name, items, t1, first, it, q2, name2, i, j);
      }
    }
  }

  lemma EnteredSettled(a: seq<Item>, bl: seq<Item>, it: Item, b: seq<Item>)
    requires Settled(a + bl + b) && NoEnd(a) && !IsEnd(it)
    ensures Settled(Entered(a, it, b))
  {
    hide IsEnd;
    var was, now, k := a + bl + b, Entered(a, it, b), |a|;
    forall i, j | 0 <= i < j < |now|
      ensures IsEnd(now[i]) ==> IsEnd(now[j])
    {
      if i < k {
        assert now[i] == a[i];
      } else if i > k {
        assert now[i] == was[i - 1 + |bl|] && now[j] == was[j - 1 + |bl|];
      }
    }
  }

  /** What dir_register writes for a name that was not found, under a short name that is unused, is a newcomer. */
  lemma NewcomerIs(q: Query, s: Query, name: seq<Word>, items: seq<Item>, withLfn: bool, f: seq<Byte>)
    requires |f| == 12 && f[0] != 0 && f[0] != DDE && Proper(q, name) && Proper(s, name) && !s.long && !s.loss
    requires s.short == f[..11] && (!q.loss ==> q.short == f[..11]) && (q.loss ==> withLfn)
    requires AllOk(items) && Settled(items) && Locate(q, name, items, 0) == Missing
    requires q.loss ==> Search(s, Flat(items), 0) == Missing
    ensures Newcomer(q, name, items, NewItem(name, withLfn, f))
  {
    hide Search, Locate, LongMatch, SfnEntry, Flat, AllOk, Settled, Upper;
    WrittenItem(name, withLfn, f);
    FindsFirst(s, name, items, 0);
    var it := NewItem(name, withLfn, f);
    forall i | 0 <= i < |items|
      ensures !SameShort(items[i], it.e[..11])
    {
      MissingAll(if q.loss then s else q, name, items, 0, i);
    }
  }

  lemma AsksSize(c: Habit, q: Query, name: seq<Word>)
    requires Asks(c, q, name)
    ensures |q.b| > 0
  {
  }
  /** A table that has merely grown answers as before. */
  lemma PaddedWhole(c: Habit, items: seq<Item>, m: nat)
    requires AllOk(items) && Settled(items)
    ensures AllOk(items + EndItems(m)) && Settled(items + EndItems(m))
    ensures Flat(items + EndItems(m)) == Flat(items) + EmptyRows(m)
    ensures Turned(c, Flat(items), Flat(items + EndItems(m)), None)
    ensures Neat(c, items) ==> Neat(c, items + EndItems(m))
  {
    hide Search, Flat, Settled, Proper, Coherent, Clash, Tidy, Locate, Neat;
    PaddedItems(items, m);
    if Neat(c, items) { PaddedNeat(c, items, m); }
    forall q: Query, name: seq<Word>, i: nat, j: nat | Asks(c, q, name)
      ensures |q.b| > 0 && Search(q, Flat(items + EndItems(m)), j) == Answer(q, name, None, Search(q, Flat(items), i))
    {
      FindsFirst(q, name, items, i);
      FindsFirst(q, name, items + EndItems(m), j);
      PaddedLocate(q, name, items, m, 0);
    }
  }

  lemma PaddedNewcomer(q: Query, name: seq<Word>, items: seq<Item>, it: Item, m: nat)
    requires |q.b| > 0 && Newcomer(q, name, items, it)
    ensures Newcomer(q, name, items + EndItems(m), it)
  {
    hide Locate, ItemOk, AllOk;
    PaddedLocate(q, name, items, m, 0);
  }

  // ----- names that get caught -----

  /**
   * In any well-formed directory, neat or not: the new item catches exactly the searches that match it and found
   * nothing before, or something behind it.
   */
  lemma Captured(q: Query, name: seq<Word>, items: seq<Item>, t1: seq<Entry>, first: nat, it: Item, i: nat, j: nat)
    requires Proper(q, name) && AllOk(items) && Settled(items) && ItemOk(it) && !IsEnd(it)
    requires EnteredIn(Flat(items), t1, first, Entries(it))
    ensures var r := Search(q, Flat(items), i);
      Search(q, t1, j) ==
        if Matches(q, name, it) && (r.Missing? || r.at >= first) then
          Found(first + |Entries(it)| - 1, if LongMatch(q, name, it) then first else 0xFFFF)
        else r
  {
    hide Search, Locate, Matches, LongMatch, ShortMatch, Flat, Entries, EnteredIn, Settled, NoEnd, ItemOk;
    if Matches(q, name, it) {
      var a, bl, b := RegisteredItems(items, t1, first, it);
      FindsFirst(q, name, items, i);
      PaddedLocate(q, name, items, |t1| - |Flat(items)|, 0);
      FindsFirst(q, name, Entered(a, it, b), j);
      EnteredLocate(q, name, a, bl, it, b);
      MatchesEither(q, name, it);
      LocateBound(q, name, a, 0);
      LocateBound(q, name, b, |Flat(a)| + |bl|);
    } else {
      RegisterKeeps(q, name, items, t1, first, it, i, j);
    }
  }

  lemma MatchesEither(q: Query, name: seq<Word>, it: Item)
    requires |q.b| > 0
    ensures Matches(q, name, it) <==> LongMatch(q, name, it) || ShortMatch(q, it)
  {
  }

  /** The short entry of a name of one letter. */
  function Letter(c: Byte): (e: Entry)
  {
    SfnEntry([c] + seq(11, i => 0x20))
  }

  function Ask(c: Byte): Query
  {
    Query((w: Word) => w, true, [c, 0, 0], [c] + seq(10, i => 0x20), false)
  }

  lemma OtherLetter(it: Item)
    requires it == Long([0x43], Letter(0x41))
    ensures !LongMatch(Ask(0x41), [0x41], it)
  {
    assert Ask(0x41).up(it.n[0]) != Ask(0x41).up(([0x41])[0]);
  }

  lemma TwoEntries(it: Item)
    requires ItemOk(it) && it.Long? && |it.n| == 1
    ensures |Entries(it)| == 2
  {
  }

  lemma ExampleTable(items: seq<Item>)
    requires items == [Blank(ZeroEntry()[0 := DDE]), Blank(ZeroEntry()[0 := DDE]), Long([0x41], Letter(0x42))]
    ensures AllOk(items) && Settled(items) && |Flat(items)| == 4
    ensures BlankRun(Flat(items), 0, 2)
    ensures Search(Ask(0x43), Flat(items), 0) == Missing && Search(Ask(0x41), Flat(items), 0) == Found(3, 2)
  {
    hide Search, Entries, SfnEntry;
    LetterKind(0x42);
    var bl, was := items[..2], items[2];
    assert items == bl + [was];
    TwoEntries(was);
    FlatBlanks(bl);
    FlatOne(was);
    FlatAppend(bl, [was]);
    AskProper(0x41);
    AskProper(0x43);
    FindsFirst(Ask(0x43), [0x43], items, 0);
    FindsFirst(Ask(0x41), [0x41], items, 0);
    LocateBlanks(Ask(0x41), [0x41], bl, [was], 0);
    LocateBlanks(Ask(0x43), [0x43], bl, [was], 0);
    assert forall k :: 0 <= k < 2 ==> Flat(items)[k] == bl[k].e;
  }

  /**
   * A name that is found can get caught where short names do not go with their long names: the object A, stored
   * with the short name B, and then a new object with the long name C and the short name A, in front of it.
   */
  lemma CaptureExample()
    ensures var items := [Blank(ZeroEntry()[0 := DDE]), Blank(ZeroEntry()[0 := DDE]), Long([0x41], Letter(0x42))];
      var it := Long([0x43], Letter(0x41));
      && AllOk(items) && Settled(items) && ItemOk(it) && |Entries(it)| == 2 && |Flat(items)| == 4
      && Search(Ask(0x43), Flat(items), 0) == Missing
      && Search(Ask(0x41), Flat(items), 0) == Found(3, 2)
      && EnteredIn(Flat(items), Overwrite(Flat(items), 0, Entries(it)), 0, Entries(it))
      && Search(Ask(0x41), Overwrite(Flat(items), 0, Entries(it)), 0) == Found(1, 0xFFFF)
  {
    hide Search, Entries, SfnEntry, Flat, AllOk, Settled;
    LetterKind(0x41);
    var items := [Blank(ZeroEntry()[0 := DDE]), Blank(ZeroEntry()[0 := DDE]), Long([0x41], Letter(0x42))];
    var it := Long([0x43], Letter(0x41));
    ExampleTable(items);
    TwoEntries(it);
    AskProper(0x41);
    OtherLetter(it);
    Captured(Ask(0x41), [0x41], items, Overwrite(Flat(items), 0, Entries(it)), 0, it, 0, 0);
  }

  lemma LetterKind(c: Byte)
    requires c in [0x41, 0x42, 0x43]
    ensures KindOf(Letter(c)) == Short && Letter(c)[..11] == [c] + seq(10, i => 0x20)
  {
    var f := [c] + seq(11, i => 0x20);
    SfnKind(f);
    assert f[..11] == [c] + seq(10, i => 0x20);
  }

  lemma AskProper(c: Byte)
    requires c in [0x41, 0x42, 0x43]
    ensures Proper(Ask(c), [c])
  {
    assert [c, 0, 0][..1] == [c as Word];
  }

  // ----- removing an object -----

  /** Items end at different entries. */
  lemma {:induction false} EndsApart(items: seq<Item>, i: nat, j: nat)
    requires AllOk(items) && i < j < |items|
    ensures |Flat(items[..i])| + |Entries(items[i])| < |Flat(items[..j])| + |Entries(items[j])|
  {
    hide Entries, ItemOk, Flat;
    assert items[..j] == items[..i] + [items[i]] + items[i + 1..j];
    FlatAppend(items[..i] + [items[i]], items[i + 1..j]);
    FlatAppend(items[..i], [items[i]]);
    FlatOne(items[i]);
  }

  /** Erasing item k: where it was found before, and what becomes of any other search. */
  lemma ErasedAnswer(c: Habit, items: seq<Item>, k: nat, q: Query, name: seq<Word>, i: nat, j: nat)
    requires Fair(c) && Neat(c, items) && k < |items| && NoEnd(items[..k]) && !IsEnd(items[k]) && Asks(c, q, name)
    ensures AllOk(items[..k] + Erased(items[k]) + items[k + 1..])
    ensures Search(q, Flat(items[..k] + Erased(items[k]) + items[k + 1..]), j) ==
      Answer(q, name, Drop(|Flat(items[..k])| + |Entries(items[k])| - 1), Search(q, Flat(items), i))
  {
    hide Search, Locate, LongMatch, ShortMatch, Flat, Entries, Settled, Tidy, Clash, ItemOk, Erased;
    var a, it, b := items[..k], items[k], items[k + 1..];
    assert items == Entered(a, it, b);
    RemoveKeeps(q, name, a, it, b, i, j);
    FindsFirst(q, name, items, i);
    if Locate(q, name, items, 0).Found? {
      var m := LocateSound(q, name, items, 0);
      if m < k { EndsApart(items, m, k); } else if k < m { EndsApart(items, k, m); }
    }
    if Matches(q, name, it) {
      forall m | 0 <= m < |a| ensures !Matches(q, name, a[m]) {
        if Matches(q, name, a[m]) { OneMatch(c, q, name, items, m, k); }
      }
      forall m | 0 <= m < |b| ensures !Matches(q, name, b[m]) {
        if Matches(q, name, b[m]) { OneMatch(c, q, name, items, k + 1 + m, k); }
      }
      if Locate(q, name, items, 0).Missing? {
        MissingAll(q, name, items, 0, k);
      } else {
        var m := LocateSound(q, name, items, 0);
        OneMatch(c, q, name, items, m, k);
      }
    }
  }

  /** A neat directory stays neat when an item is erased. */
  lemma ErasedNeat(c: Habit, items: seq<Item>, k: nat)
    requires Neat(c, items) && k < |items| && NoEnd(items[..k]) && !IsEnd(items[k])
    ensures Neat(c, items[..k] + Erased(items[k]) + items[k + 1..])
  {
    hide SameName, FindFits, ItemOk, Entries;
    var bl := Erased(items[k]);
    var now := items[..k] + bl + items[k + 1..];
    forall i | 0 <= i < |now|
      ensures i < k ==> now[i] == items[i]
      ensures k <= i < k + |bl| ==> now[i] == bl[i - k]
      ensures i >= k + |bl| ==> now[i] == items[i - |bl| + 1]
    {
    }
    forall i, j | 0 <= i < j < |now|
      ensures !Clash(c, now[i], now[j]) && (IsEnd(now[i]) ==> IsEnd(now[j]))
    {
      if i < k { assert items[i] == items[..k][i]; }
    }
  }

  /** The long-name entries of an object that has them are occupied. */
  lemma PartsStay(items: seq<Item>, k: nat)
    requires AllOk(items) && k < |items| && items[k].Long?
    ensures var at := |Flat(items[..k])| + |Entries(items[k])| - 1;
      0 < at < |Flat(items)| && !IsBlank(Flat(items)[at - 1])
  {
    hide Entries, ItemOk, Flat, IsBlank;
    var a, it, b := items[..k], items[k], items[k + 1..];
    assert items == a + ([it] + b);
    FlatAppend(a, [it] + b);
    FlatAppend([it], b);
    FlatOne(it);
    LongTail(it);
  }

  lemma LongTail(it: Item)
    requires ItemOk(it) && it.Long?
    ensures |Entries(it)| >= 2 && !IsBlank(Entries(it)[|Entries(it)| - 2])
  {
    hide LfnEntry, SumOf, IsBlank;
    PartsOccupied(it.n, Segments(|it.n|), SumOf(it.e, 11), Segments(|it.n|) - 1);
  }

  /** What dir_remove marks as deleted after a search answered r. */
  ghost function Marked(t: seq<Entry>, r: Result): seq<Entry>
    requires r.Found?
  {
    Deleted(t, if r.lfnIdx == 0xFFFF then r.at else r.lfnIdx, r.at + 1)
  }

  lemma ErasedSettled(items: seq<Item>, k: nat)
    requires AllOk(items) && Settled(items) && k < |items| && NoEnd(items[..k]) && !IsEnd(items[k])
    ensures Settled(items[..k] + Erased(items[k]) + items[k + 1..])
  {
    hide IsEnd, Entries;
    var bl := Erased(items[k]);
    var now := items[..k] + bl + items[k + 1..];
    forall i, j | 0 <= i < j < |now|
      ensures IsEnd(now[i]) ==> IsEnd(now[j])
    {
      if i < k {
        assert now[i] == items[..k][i];
      } else if i < k + |bl| {
        assert now[i] == bl[i - k];
      } else {
        assert now[i] == items[i - |bl| + 1] && now[j] == items[j - |bl| + 1];
      }
    }
  }

  /** The search finds item k: its last entry, and its first one if the long name matches. */
  ghost predicate FoundAs(q: Query, name: seq<Word>, items: seq<Item>, k: nat, r: Result)
  {
    && |q.b| > 0 && k < |items| && AllOk(items) && Matches(q, name, items[k])
    && r == Found(|Flat(items[..k])| + |Entries(items[k])| - 1,
                  if LongMatch(q, name, items[k]) then |Flat(items[..k])| else 0xFFFF)
  }

  /**
   * dir_remove of what a search found, as a whole: the directory stays neat, and exactly the names of the object
   * are unbound. That is so if and only if the object was found by its long name or has none; otherwise its
   * long-name entries stay behind.
   */
  lemma RemovedWhole(c: Habit, q: Query, name: seq<Word>, items: seq<Item>, idx: nat) returns (k: nat, items': seq<Item>)
    requires Proper(q, name) && AllOk(items) && Settled(items) && |Flat(items)| <= 0x1_0000
    requires Search(q, Flat(items), idx).Found?
    ensures k < |items| && FoundAs(q, name, items, k, Search(q, Flat(items), idx))
    ensures var r := Search(q, Flat(items), idx);
      var t1 := Marked(Flat(items), r);
      if LongMatch(q, name, items[k]) || items[k].Plain? then
        && AllOk(items') && Settled(items') && Flat(items') == t1
        && (Fair(c) && Asks(c, q, name) && Neat(c, items) ==> Neat(c, items') && Turned(c, Flat(items), t1, Drop(r.at)))
      else
        items[k].Long? && 0 < r.at < |t1| && !IsBlank(t1[r.at - 1])
  {
    hide Search, Locate, LongMatch, ShortMatch, Flat, Erased, Deleted, Entries, Fair, Asks, Tidy, Clash, ItemOk,
      Settled;
    FindsFirst(q, name, items, idx);
    k := LocateSound(q, name, items, 0);
    var a, it, b := items[..k], items[k], items[k + 1..];
    items' := a + Erased(it) + b;
    assert items == Entered(a, it, b);
    DeletedItem(a, it, b);
    LocateBound(q, name, items, 0);
    EntriesSize(items, k);
    ErasedSettled(items, k);
    if (LongMatch(q, name, it) || it.Plain?) && Fair(c) && Asks(c, q, name) && Neat(c, items) {
      ErasedNeat(c, items, k);
      forall q2: Query, name2: seq<Word>, i: nat, j: nat | Asks(c, q2, name2)
        ensures |q2.b| > 0
        ensures Search(q2, Flat(items'), j) == Answer(q2, name2, Drop(Search(q, Flat(items), idx).at), Search(q2, Flat(items), i))
      {
        AsksSize(c, q2, name2);
        ErasedAnswer(c, items, k, q2, name2, i, j);
      }
    } else if !LongMatch(q, name, it) && !it.Plain? {
      ShortOnly(q, it);
      PartsStay(items, k);
    }
  }

  lemma ShortOnly(q: Query, it: Item)
    requires ShortMatch(q, it)
    ensures it.Plain? || it.Long?
  {
  }

  /** A plain object has one entry, and an index below the last entry's fits in 16 bits. */
  lemma EntriesSize(items: seq<Item>, k: nat)
    requires AllOk(items) && k < |items| && |Flat(items)| <= 0x1_0000
    ensures items[k].Plain? ==> |Entries(items[k])| == 1
    ensures items[k].Long? ==> |Flat(items[..k])| < 0xFFFF
  {
    hide Entries, ItemOk, Flat;
    var a, it, b := items[..k], items[k], items[k + 1..];
    assert items == a + ([it] + b);
    FlatAppend(a, [it] + b);
    FlatAppend([it], b);
    FlatOne(it);
    if it.Long? { LongTail(it); }
    if it.Plain? { PlainOne(it); }
  }

  lemma PlainOne(it: Item)
    requires ItemOk(it) && it.Plain?
    ensures |Entries(it)| == 1
  {
  }

  // ----- runs -----

  function AnswerAll(q: Query, name: seq<Word>, run: seq<Change>, r: Result): Result
    requires |q.b| > 0
    decreases |run|
  {
    if run == [] then r else Answer(q, name, run[|run| - 1], AnswerAll(q, name, run[..|run| - 1], r))
  }

  /** The changes, one after the other, turned every search in t0 into that in t1. */
  ghost predicate Ran(c: Habit, t0: seq<Entry>, t1: seq<Entry>, run: seq<Change>)
  {
    forall q: Query, name: seq<Word>, i: nat, j: nat {:trigger Asks(c, q, name), Search(q, t0, i), Search(q, t1, j)} ::
      Asks(c, q, name) ==> Search(q, t1, j) == AnswerAll(q, name, run, Search(q, t0, i))
  }

  /** Searches in one table do not depend on what lfn_idx held before. */
  lemma RanNothing(c: Habit, items: seq<Item>)
    requires AllOk(items)
    ensures Ran(c, Flat(items), Flat(items), [])
  {
    hide Search, Flat;
    forall q: Query, name: seq<Word>, i: nat, j: nat | Asks(c, q, name)
      ensures |q.b| > 0 && Search(q, Flat(items), j) == AnswerAll(q, name, [], Search(q, Flat(items), i))
    {
      FindsFirst(q, name, items, i);
      FindsFirst(q, name, items, j);
    }
  }

  lemma RanStep(c: Habit, t0: seq<Entry>, t1: seq<Entry>, t2: seq<Entry>, run: seq<Change>, ch: Change)
    requires Ran(c, t0, t1, run) && Turned(c, t1, t2, ch)
    ensures Ran(c, t0, t2, run + [ch])
  {
    hide Search, Answer;
    forall q: Query, name: seq<Word>, i: nat, j: nat | Asks(c, q, name)
      ensures |q.b| > 0 && Search(q, t2, j) == AnswerAll(q, name, run + [ch], Search(q, t0, i))
    {
      AsksSize(c, q, name);
      var r := Search(q, t1, 0);
      assert (run + [ch])[..|run|] == run;
    }
  }

  /** What a name is bound to, it stays bound to until that object is dropped. */
  lemma {:induction false} StaysBound(q: Query, name: seq<Word>, run: seq<Change>, r: Result)
    requires |q.b| > 0 && r.Found? && Drop(r.at) !in run
    ensures AnswerAll(q, name, run, r) == r
    decreases |run|
  {
    if run != [] { StaysBound(q, name, run[..|run| - 1], r); }
  }

  /** An unbound name stays so until an object is added that matches it. */
  lemma {:induction false} StaysFree(q: Query, name: seq<Word>, run: seq<Change>)
    requires |q.b| > 0 && forall i :: 0 <= i < |run| && run[i].Add? ==> !Matches(q, name, run[i].it)
    ensures AnswerAll(q, name, run, Missing) == Missing
    decreases |run|
  {
    if run != [] { StaysFree(q, name, run[..|run| - 1]); }
  }
}
