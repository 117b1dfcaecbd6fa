// Whole runs of creating and removing objects in a directory, seen as changes of a map from names to entries.
module DirSession {
  import opened Words
  import opened Lfn
  import opened DirTable
  import opened DirMap
  import opened FileSystem
  import opened Directory
  import opened Names
  import opened Create
  import Clusters
  import Layout
  import opened FileImage

  /** Create or unlink the object that the first segment of a path names. */
  datatype Act = Make(path: seq<Byte>) | Unlink(path: seq<Byte>)

  /**
   * What does not change during a run: code page, upper-casing, size of the name buffer, whether the table is a static
   * root, the number of entries it can reach, and whether the reserved value 1 occurs in the FAT.
   */
  datatype Setting = Setting(cp: CodePage, up: Word -> Word, size: nat, fixed: bool, room: nat, ones: bool)

  ghost function Habits(s: Setting): Habit
    requires s.size > 0
  {
    HabitOf(s.cp, s.up, s.size - 1)
  }

  /** A directory on a drive that does not fail, with a code page that goes together with its upper-casing. */
  ghost predicate Working(d: Dir, cp: CodePage)
    reads d, d.fs, d.fs.win, d.fs.dev
  {
    && d.Buffers() && d.lfnbuf as object != d.fs.win && d.fs.dev.reliable && Sane(cp) && Folds(cp, d.up)
    && d.Base()
  }

  /** The entries a table has when its chain has taken all clusters that are free now; a static table does not grow. */
  ghost function Room(d: Dir): nat
    reads d, d.fs, d.fs.win, d.fs.dev
    requires d.fs.Valid()
  {
    16 * if d.Static() then |d.Sects()| else Layout.Span(d.fs.geo, |d.chain| + Clusters.FreeCount(d.fs.Table()))
  }

  /** The directory, with a code page, is in the setting s. */
  ghost predicate In(d: Dir, s: Setting)
    reads d, d.fs, d.fs.win, d.fs.dev
  {
    && Working(d, s.cp)
    && d.up == s.up && d.lfnbuf.Length == s.size && d.Static() == s.fixed && Room(d) == s.room
    && (Clusters.HasOne(d.fs.Table()) ==> s.ones)
  }

  // ----- what each operation means -----

  /** The search that an operation makes. */
  function Wanted(s: Setting, a: Act): (q: Query)
    requires Terminated(a.path)
    ensures |q.b| > 0
  {
    Asked(s.cp, s.up, s.size, a.path)
  }

  /** Why n blank entries in a row were not found in a table that has grown to t. */
  ghost predicate Refused(s: Setting, res: FResult, n: nat, t: seq<Entry>)
  {
    match res
    case FR_NO_FILE => NoRun(t, n, |t|) && (s.fixed || |t| == 0x1_0000)
    case FR_DENIED => NoRun(t, n, |t|) && !s.fixed && |t| == s.room
    case FR_INT_ERR => !s.fixed && s.ones
    case _ => false
  }

  /** An object is entered for a name that is not in the table t, which becomes t1. */
  ghost predicate Made(s: Setting, name: seq<Word>, res: FResult, t: seq<Entry>, t1: seq<Entry>, ch: Change)
  {
    if NoNumber(s.cp, name, t) then res == FR_DENIED && ch == None && t1 == t
    else
      && (s.fixed ==> (res == FR_NO_FILE <==> NoRun(t, Need(name), |t|)))
      && if res == FR_OK then
           && ch.Add? && NewObject(s.cp, name, ch.it, t) && ch.at + 1 == ch.first + Need(name)
           && EnteredIn(t, t1, ch.first, Entries(ch.it))
         else
           ch == None && |t| <= |t1| && t1 == t + EmptyRows(|t1| - |t|) && Refused(s, res, Need(name), t1)
  }

  /** The table fits in what an index and the volume can reach. */
  predicate Bounded(s: Setting, t: seq<Entry>)
  {
    |t| <= 0x1_0000 && |t| <= s.room && (s.fixed ==> |t| == s.room)
  }

  /**
   * What an operation answers when the search for its name finds r in the table t, what becomes of that table, and
   * what changes in the map of names to entries.
   */
  ghost predicate Explained(s: Setting, a: Act, r: Result, t: seq<Entry>, res: FResult, t1: seq<Entry>, ch: Change)
  {
    && Terminated(a.path) && Bounded(s, t) && Bounded(s, t1)
    && if !Valid(a.path, s.cp, s.size) then res == FR_INVALID_NAME && ch == None && t1 == t
       else
         match a
         case Make(path) =>
           if r.Found? then res == FR_EXIST && ch == None && t1 == t else Made(s, NameOf(path, s.cp), res, t, t1, ch)
         case Unlink(path) =>
           if r.Found? then res == FR_OK && ch == Drop(r.at) && t1 == Marked(t, r)
           else res == FR_NO_FILE && ch == None && t1 == t
  }

  /** The object found has a long name, but was found by its short one; k is its place in the list. */
  ghost predicate ByAlias(s: Setting, a: Act, r: Result, items: seq<Item>, k: nat)
  {
    && Terminated(a.path) && a.Unlink? && Valid(a.path, s.cp, s.size) && k < |items| && AllOk(items)
    && items[k].Long? && ShortMatch(Wanted(s, a), items[k]) && !LongMatch(Wanted(s, a), NameOf(a.path, s.cp), items[k])
    && r == Found(|Flat(items[..k])| + |Entries(items[k])| - 1, 0xFFFF)
  }

  /** That is so, and only the short entry is removed. */
  ghost predicate Partly(s: Setting, a: Act, items: seq<Item>, res: FResult, k: nat, t1: seq<Entry>, ch: Change)
  {
    && Terminated(a.path) && AllOk(items) && res == FR_OK
    && var r := Locate(Wanted(s, a), NameOf(a.path, s.cp), items, 0);
      ByAlias(s, a, r, items, k) && ch == Drop(r.at) && t1 == Marked(Flat(items), r)
  }

  /** An operation that leaves a list of items, and searches as the map says. */
  ghost predicate Stepped(s: Setting, a: Act, items: seq<Item>, res: FResult, items': seq<Item>, ch: Change)
  {
    && Terminated(a.path) && s.size > 0 && AllOk(items) && Neat(Habits(s), items')
    && Turned(Habits(s), Flat(items), Flat(items'), ch)
    && Explained(s, a, Locate(Wanted(s, a), NameOf(a.path, s.cp), items, 0), Flat(items), res, Flat(items'), ch)
  }

  // ----- the operations -----

  lemma InParts(d: Dir, s: Setting)
    requires In(d, s)
    ensures Working(d, s.cp) && d.Base() && d.up == s.up && d.lfnbuf.Length == s.size && 0 < s.size <= 256 && Upper(s.up)
    ensures d.Buffers() && d.lfnbuf as object != d.fs.win && d.fs.dev.reliable && Sane(s.cp) && Folds(s.cp, s.up)
    ensures d.Static() == s.fixed && Described(d.fs.geo, d.Here(), s) && (Clusters.HasOne(d.fs.Table()) ==> s.ones)
  {
    hide Volume.Tallied, Volume.Counted, Sectors, Clusters.Chain, Clusters.FreeCount, Volume.Table, Clusters.WellFormed,
      Layout.Span, Volume.Valid, Sane, Folds, Clusters.HasOne;
  }

  /** The table is in bounds. */
  lemma InBounds(d: Dir, s: Setting)
    requires In(d, s)
    ensures d.Base() && (|d.Entries()| <= 0x1_0000 ==> Bounded(s, d.Entries()))
    ensures !s.fixed && Clusters.Full(d.fs.Table()) ==> |d.Entries()| == s.room
  {
    hide Sane, Folds, Clusters.HasOne, Volume.Valid, Volume.Table, Clusters.FreeCount, Clusters.Chain,
      Clusters.WellFormed, Sectors, Layout.Span;
    if !d.Static() {
      SectorsLength(d.fs.geo, d.chain);
      Clusters.FullCount(d.fs.Table());
      ghost var free := Clusters.FreeCount(d.fs.Table());
      if free > 0 { Layout.SpanMono(d.fs.geo, |d.chain|, |d.chain| + free); }
    }
  }

  /** What the setting says of the state of a directory. */
  ghost predicate Described(g: Layout.Geometry, p: Picture, s: Setting)
  {
    && (p.chain == [] || Clusters.Chain(p.table, p.chain)) && (Clusters.HasOne(p.table) ==> s.ones)
    && s.room == 16 * if s.fixed then g.nRootdir / 16 else Layout.Span(g, |p.chain| + Clusters.FreeCount(p.table))
  }

  /** An operation on the directory stays in the setting. */
  lemma StaysIn(d: Dir, s: Setting, p: Picture)
    requires d.Base() && d.Buffers() && d.lfnbuf as object != d.fs.win && d.fs.dev.reliable && Sane(s.cp)
    requires Folds(s.cp, s.up)
    requires d.up == s.up && d.lfnbuf.Length == s.size && d.Static() == s.fixed
    requires Described(d.fs.geo, p, s) && Grew(p, d.Here())
    ensures In(d, s)
  {
    hide Sane, Folds, Clusters.HasOne, Volume.Valid, Volume.Table, Clusters.FreeCount, Clusters.Chain,
      Clusters.WellFormed, Sectors, Layout.Span, Grew;
    GrewBack(p, d.Here());
    GrewCount(p, d.Here());
  }

  /** It is a neat list of items. */
  ghost predicate Orderly(d: Dir, s: Setting, items: seq<Item>)
    reads d, d.fs, d.fs.win, d.fs.dev
  {
    s.size > 0 && d.Holds(items) && Neat(Habits(s), items)
  }

  /** An operation that changes nothing. */
  lemma SteppedNone(s: Setting, a: Act, items: seq<Item>, res: FResult)
    requires Terminated(a.path) && s.size > 0 && AllOk(items) && Settled(items) && Neat(Habits(s), items)
    requires Bounded(s, Flat(items))
    requires
      if !Valid(a.path, s.cp, s.size) then res == FR_INVALID_NAME
      else
        var found := Locate(Wanted(s, a), NameOf(a.path, s.cp), items, 0).Found?;
        if a.Make? then found && res == FR_EXIST else !found && res == FR_NO_FILE
    ensures Stepped(s, a, items, res, items, None)
  {
    hide Locate, Valid, Flat, AllOk, Settled, Neat, Turned, Made, NameOf;
    TurnedNone(Habits(s), items);
  }

  /** What dir_register promises, in terms of tables. */
  lemma JudgedMade(d: Dir, s: Setting, name: seq<Word>, res: FResult, t0: seq<Entry>, f0: Clusters.Fat, ch: Change)
    requires In(d, s) && d.Base() && Bounded(s, t0) && (Clusters.HasOne(f0) ==> s.ones)
    requires res in {FR_OK, FR_INT_ERR, FR_DENIED, FR_NO_FILE}
    requires d.Judged(res, NoNumber(s.cp, name, t0), Need(name), f0, t0, t0) && d.Changed(t0, ch)
    requires
      if res == FR_OK then ch.Add? && NewObject(s.cp, name, ch.it, t0) && ch.at + 1 == ch.first + Need(name)
      else ch == None
    ensures Made(s, name, res, t0, d.Entries(), ch) && Bounded(s, d.Entries())
  {
    hide Working, Dir.Base, Dir.Entries, NoRun, EmptyRows, NoNumber, NewObject, EnteredIn, Need, Clusters.HasOne,
      Clusters.Full, Volume.Table, Room;
    InBounds(d, s);
    d.WholeTable();
    d.SizeFacts();
  }

  /** The lemmas on the outcome of dir_register, put together. */
  lemma SteppedMade(d: Dir, s: Setting, a: Act, items: seq<Item>, res: FResult, items': seq<Item>, ch: Change)
    requires Terminated(a.path) && a.Make? && Valid(a.path, s.cp, s.size) && AllOk(items) && Bounded(s, Flat(items))
    requires Locate(Wanted(s, a), NameOf(a.path, s.cp), items, 0).Missing?
    requires Orderly(d, s, items') && Turned(Habits(s), Flat(items), d.Entries(), ch) && Bounded(s, d.Entries())
    requires Made(s, NameOf(a.path, s.cp), res, Flat(items), d.Entries(), ch)
    ensures Stepped(s, a, items, res, items', ch)
  {
    hide Locate, Valid, Flat, AllOk, Settled, Neat, Turned, Made, NameOf, Dir.Base, Dir.Entries;
  }

  /** A name that was not found is entered. */
  method Enter(d: Dir, a: Act, ghost s: Setting, ghost items: seq<Item>, ghost fine: bool)
    returns (res: FResult, ghost items': seq<Item>, ghost ch: Change)
    requires In(d, s) && a.Make? && Terminated(a.path) && Valid(a.path, s.cp, s.size) && Loaded(d, a.path, s.cp)
    requires fine ==>
      Orderly(d, s, items) && Locate(Wanted(s, a), NameOf(a.path, s.cp), items, 0).Missing?
    modifies d.fn, d`long, d`index, d`clust, d`sect, d`dir, d`lfnIdx, d`chain, d.fs.dev`sectors, d.fs.win,
      d.fs`wflag, d.fs`winsect, d.fs`log, d.fs`freeClust, d.fs`fsiFlag, d.fs`lastClust, d.fs`strayed
    ensures In(d, s) && (if res == FR_OK then ch.Add? else ch == None)
    ensures fine ==> Orderly(d, s, items') && Stepped(s, a, items, res, items', ch)
  {
    hide Volume.Counted, Volume.Tallied, Segments, Dir.Naming, In, Dir.Base, Dir.Entries, Dir.Sects, Neat, Fair,
      Settled, AllOk, Flat, IsName, Turned, Search, Locate, Dir.Reason, Dir.Failed, SfnEntry, AllWell, Dir.Knows, Grew,
      Volume.Valid, Volume.Table, Made, Valid, FormOf, NameOf, Dir.Judged, Dir.Changed, NewObject, IsShort,
      NumbersTaken, Dir.Numbering, Printed, Stepped, Described, Bounded, Asked, Sane, Folds;
    InParts(d, s);
    InBounds(d, s);
    ghost var name, c, f0, t0, p0 := NameOf(a.path, s.cp), Habits(s), d.fs.Table(), d.Entries(), d.Here();
    ghost var f := d.fn[..];
    if fine { LoadedAsks(d, a.path, s.cp, items); }
    LoadedKnows(d, a.path, s.cp);
    d.WholeTable();
    res, items', ch := d.RegisterIn(name, items, c, fine);
    StaysIn(d, s, p0);
    if fine {
      if res == FR_OK { Registered(d, s.cp, name, f[..11], f, t0); }
      JudgedMade(d, s, name, res, t0, f0, ch);
      SteppedMade(d, s, a, items, res, items', ch);
    }
  }

  /** A name is looked up, and entered if it is not there. */
  method DoMake(d: Dir, a: Act, ghost s: Setting, cp: CodePage, ghost items: seq<Item>, ghost fine: bool)
    returns (res: FResult, ghost items': seq<Item>, ghost ch: Change)
    requires In(d, s) && s.cp == cp && a.Make? && Terminated(a.path) && (fine ==> Orderly(d, s, items))
    modifies d.lfnbuf, d.fn, d`long, d`index, d`clust, d`sect, d`dir, d`lfnIdx, d`chain, d.fs.dev`sectors, d.fs.win,
      d.fs`wflag, d.fs`winsect, d.fs`log, d.fs`freeClust, d.fs`fsiFlag, d.fs`lastClust, d.fs`strayed
    ensures In(d, s) && (if res == FR_OK then ch.Add? else ch == None)
    ensures fine ==> Orderly(d, s, items') && Stepped(s, a, items, res, items', ch)
  {
    hide In, Dir.Base, Dir.Entries, Dir.Sects, Neat, Settled, AllOk, Flat, Turned, Locate, Grew, Volume.Valid,
      Volume.Table, Valid, NameOf, Loaded, Described, Bounded, Asked, Sane, Folds, AllWell, Stepped;
    InParts(d, s);
    InBounds(d, s);
    items', ch := items, None;
    ghost var p0 := d.Here();
    d.long := true;
    res := Lookup(d, a.path, cp, items, fine);
    StaysIn(d, s, p0);
    if res == FR_NO_FILE {
      res, items', ch := Enter(d, a, s, items, fine);
    } else {
      if res == FR_OK { res := FR_EXIST; }
      if fine { SteppedNone(s, a, items, res); }
    }
  }

  lemma FoundParts(q: Query, name: seq<Word>, items: seq<Item>, k: nat, r: Result)
    requires FoundAs(q, name, items, k, r)
    ensures r.Found? && k < |items| && |q.b| > 0
  {
  }

  /** What dir_remove promises. */
  lemma SteppedDrop(d: Dir, s: Setting, a: Act, items: seq<Item>, r: Result, items': seq<Item>)
    requires Terminated(a.path) && a.Unlink? && Valid(a.path, s.cp, s.size) && AllOk(items) && Bounded(s, Flat(items))
    requires r == Locate(Wanted(s, a), NameOf(a.path, s.cp), items, 0) && r.Found?
    requires Orderly(d, s, items') && Turned(Habits(s), Flat(items), d.Entries(), Drop(r.at)) && Bounded(s, d.Entries())
    requires d.Entries() == Marked(Flat(items), r)
    ensures Stepped(s, a, items, FR_OK, items', Drop(r.at))
  {
    hide Locate, Valid, Flat, AllOk, Settled, Neat, Turned, Made, NameOf, Dir.Base, Dir.Entries, Marked;
  }

  lemma PartlyDrop(s: Setting, a: Act, items: seq<Item>, q: Query, r: Result, k: nat, t1: seq<Entry>)
    requires Terminated(a.path) && a.Unlink? && Valid(a.path, s.cp, s.size) && AllOk(items)
    requires q.(b := Wanted(s, a).b) == Wanted(s, a) && |q.b| == |Wanted(s, a).b|
    requires r == Locate(Wanted(s, a), NameOf(a.path, s.cp), items, 0) && FoundAs(q, NameOf(a.path, s.cp), items, k, r)
    requires !LongMatch(q, NameOf(a.path, s.cp), items[k]) && !items[k].Plain? && t1 == Marked(Flat(items), r)
    ensures Partly(s, a, items, FR_OK, k, t1, Drop(r.at))
  {
    hide Locate, Valid, Flat, AllOk, NameOf, Marked, SameName, FindFits, Entries, Asked;
  }

  /** A name that is in the buffers is looked up, and removed if it is there. */
  method Remove(d: Dir, a: Act, ghost s: Setting, ghost items: seq<Item>, ghost fine: bool)
    returns (res: FResult, ghost whole: bool, ghost k: nat, ghost items': seq<Item>, ghost ch: Change)
    requires In(d, s) && a.Unlink? && Terminated(a.path) && Valid(a.path, s.cp, s.size) && Loaded(d, a.path, s.cp)
    requires fine ==> Orderly(d, s, items)
    modifies d`index, d`clust, d`sect, d`dir, d`lfnIdx, d`chain, d.fs.dev`sectors, d.fs.win, d.fs`wflag, d.fs`winsect,
      d.fs`log, d.fs`freeClust, d.fs`fsiFlag, d.fs`lastClust, d.fs`strayed
    ensures In(d, s) && (if res == FR_OK then ch.Drop? else ch == None)
    ensures fine && whole ==> Orderly(d, s, items') && Stepped(s, a, items, res, items', ch)
    ensures fine && !whole ==> Partly(s, a, items, res, k, d.Entries(), ch)
  {
    hide Volume.Tallied, Volume.Counted, Dir.Wanted, In, Dir.Base, Dir.Entries, Dir.Sects, Neat, Settled, AllOk, Flat,
      Turned, Locate, Grew, Volume.Valid, Volume.Table, Valid, NameOf, Described, Bounded, Asked, Sane, Folds, AllWell,
      Stepped, Partly, LongMatch, ShortMatch, FormOf, IsShort, Printed, SfnEntry, Dir.Knows, Marked, FoundAs, Search;
    InParts(d, s);
    InBounds(d, s);
    whole := true;
    ghost var p0, name := d.Here(), NameOf(a.path, s.cp);
    ghost var r := if fine then Locate(Wanted(s, a), name, items, 0) else Missing;
    LoadedKnows(d, a.path, s.cp);
    if fine { LoadedAsks(d, a.path, s.cp, items); }
    res, k, items', ch := d.RemoveIn(name, items, Habits(s), fine);
    StaysIn(d, s, p0);
    InBounds(d, s);
    if fine {
      if res == FR_OK { FoundParts(d.Wanted(), name, items, k, r); }
      whole := res == FR_OK ==> d.Whole(d.Wanted(), name, items[k]);
      if res != FR_OK {
        SteppedNone(s, a, items, res);
      } else if whole {
        SteppedDrop(d, s, a, items, r, items');
      } else {
        PartlyDrop(s, a, items, d.Wanted(), r, k, d.Entries());
      }
    }
  }

  /** A name is looked up, and removed if it is there; whole tells whether that left no long-name entries behind. */
  method DoUnlink(d: Dir, a: Act, ghost s: Setting, cp: CodePage, ghost items: seq<Item>, ghost fine: bool)
    returns (res: FResult, ghost whole: bool, ghost k: nat, ghost items': seq<Item>, ghost ch: Change)
    requires In(d, s) && s.cp == cp && a.Unlink? && Terminated(a.path) && (fine ==> Orderly(d, s, items))
    modifies d.lfnbuf, d.fn, d`long, d`index, d`clust, d`sect, d`dir, d`lfnIdx, d`chain, d.fs.dev`sectors, d.fs.win,
      d.fs`wflag, d.fs`winsect, d.fs`log, d.fs`freeClust, d.fs`fsiFlag, d.fs`lastClust, d.fs`strayed
    ensures In(d, s) && (if res == FR_OK then ch.Drop? else ch == None)
    ensures fine && whole ==> Orderly(d, s, items') && Stepped(s, a, items, res, items', ch)
    ensures fine && !whole ==> Partly(s, a, items, res, k, d.Entries(), ch)
  {
    hide In, Dir.Base, Dir.Entries, Dir.Sects, Neat, Settled, AllOk, Flat, Turned, Locate, Grew, Volume.Valid,
      Volume.Table, Valid, NameOf, Described, Bounded, Asked, Sane, Folds, AllWell, Stepped, Partly, FormOf, IsShort,
      Printed, SfnEntry;
    InParts(d, s);
    InBounds(d, s);
    items', ch, whole, k := items, None, true, 0;
    ghost var p0 := d.Here();
    d.long := true;
    res := Parse(d, a.path, cp);
    d.Still();
    StaysIn(d, s, p0);
    if res == FR_OK {
      NameFits(a.path, cp, s.size);
      res, whole, k, items', ch := Remove(d, a, s, items, fine);
    } else if fine {
      SteppedNone(s, a, items, res);
    }
  }

  // ----- runs -----

  /** Code page and upper-casing go together. */
  ghost predicate Fit(s: Setting)
  {
    Sane(s.cp) && Folds(s.cp, s.up) && Upper(s.up) && 0 < s.size <= 256
  }

  lemma InFit(d: Dir, s: Setting)
    requires In(d, s)
    ensures Fit(s) && d.Base()
  {
    hide Sane, Folds, Dir.Base, Clusters.HasOne, Room;
  }

  /** What the map answers to the search of an operation, after the changes of run to the table t0. */
  function Bound(s: Setting, a: Act, t0: seq<Entry>, run: seq<Change>): Result
    requires Terminated(a.path)
  {
    AnswerAll(Wanted(s, a), NameOf(a.path, s.cp), run, Search(Wanted(s, a), t0, 0))
  }

  /** The lists are those before the first n operations, each of which leads to the next. */
  ghost predicate Linked(s: Setting, acts: seq<Act>, answers: seq<FResult>, run: seq<Change>, lists: seq<seq<Item>>,
      n: nat)
  {
    && Fit(s) && n <= |acts| && n <= |answers| && n <= |run| && |lists| == n + 1 && AllOk(lists[0])
    && Neat(Habits(s), lists[0])
    && forall i :: 0 <= i < n ==> Stepped(s, acts[i], lists[i], answers[i], lists[i + 1], run[i])
  }

  lemma LinkedOk(s: Setting, acts: seq<Act>, answers: seq<FResult>, run: seq<Change>, lists: seq<seq<Item>>, n: nat,
      i: nat)
    requires Linked(s, acts, answers, run, lists, n) && i <= n
    ensures Neat(Habits(s), lists[i]) && AllOk(lists[i])
  {
    if i > 0 { assert Stepped(s, acts[i - 1], lists[i - 1], answers[i - 1], lists[i], run[i - 1]); }
  }

  /** One more operation. */
  lemma LinkedMore(s: Setting, acts: seq<Act>, answers: seq<FResult>, run: seq<Change>, lists: seq<seq<Item>>,
      res: FResult, ch: Change, items: seq<Item>)
    requires |answers| == |run| < |acts| && Linked(s, acts, answers, run, lists, |run|)
    requires Stepped(s, acts[|run|], lists[|run|], res, items, ch)
    ensures Linked(s, acts, answers + [res], run + [ch], lists + [items], |run| + 1)
  {
    hide Stepped, Neat, AllOk, Fit;
    var a, r, l, n := answers + [res], run + [ch], lists + [items], |run|;
    forall i | 0 <= i < n + 1
      ensures Stepped(s, acts[i], l[i], a[i], l[i + 1], r[i])
    {
      if i < n { assert Stepped(s, acts[i], lists[i], answers[i], lists[i + 1], run[i]); }
    }
  }

  lemma LinkedKept(s: Setting, acts: seq<Act>, answers: seq<FResult>, run: seq<Change>, lists: seq<seq<Item>>, n: nat,
      res: FResult, ch: Change)
    requires Linked(s, acts, answers, run, lists, n)
    ensures Linked(s, acts, answers + [res], run + [ch], lists, n)
  {
    hide Stepped, Neat, AllOk, Fit;
    var a, r := answers + [res], run + [ch];
    forall i | 0 <= i < n
      ensures Stepped(s, acts[i], lists[i], a[i], lists[i + 1], r[i])
    {
      assert Stepped(s, acts[i], lists[i], answers[i], lists[i + 1], run[i]);
    }
  }

  /** The changes up to i lead from the first list to list i. */
  lemma {:induction false} LinkedRan(s: Setting, acts: seq<Act>, answers: seq<FResult>, run: seq<Change>,
      lists: seq<seq<Item>>,
      n: nat, i: nat)
    requires Linked(s, acts, answers, run, lists, n) && i <= n
    ensures AllOk(lists[i]) && Ran(Habits(s), Flat(lists[0]), Flat(lists[i]), run[..i])
    decreases i
  {
    hide Neat, Explained, Turned, Ran, Fit, Flat;
    LinkedOk(s, acts, answers, run, lists, n, i);
    if i == 0 {
      RanNothing(Habits(s), lists[0]);
    } else {
      LinkedRan(s, acts, answers, run, lists, n, i - 1);
      assert Stepped(s, acts[i - 1], lists[i - 1], answers[i - 1], lists[i], run[i - 1]);
      RanStep(Habits(s), Flat(lists[0]), Flat(lists[i - 1]), Flat(lists[i]), run[..i - 1], run[i - 1]);
      assert run[..i] == run[..i - 1] + [run[i - 1]];
    }
  }

  /** What a search finds in list i is what the map answers. */
  lemma LinkedBound(s: Setting, acts: seq<Act>, answers: seq<FResult>, run: seq<Change>, lists: seq<seq<Item>>,
      n: nat, i: nat, a: Act)
    requires Linked(s, acts, answers, run, lists, n) && i <= n && Terminated(a.path) && Valid(a.path, s.cp, s.size)
    ensures AllOk(lists[i])
    ensures Locate(Wanted(s, a), NameOf(a.path, s.cp), lists[i], 0) == Bound(s, a, Flat(lists[0]), run[..i])
  {
    hide Neat, Explained, Turned, Valid, Flat, Stepped, Locate, Search, NameOf, Sane, Folds, Asked;
    LinkedRan(s, acts, answers, run, lists, n, i);
    AskedAsks(s.cp, s.up, s.size, a.path);
    FindsFirst(Wanted(s, a), NameOf(a.path, s.cp), lists[i], 0);
  }

  /** The first n operations answer as the map says, and the table is changed accordingly. */
  ghost predicate Followed(s: Setting, acts: seq<Act>, answers: seq<FResult>, run: seq<Change>,
      lists: seq<seq<Item>>, n: nat)
  {
    && n <= |acts| && n <= |answers| && n <= |run| && |lists| == n + 1
    && s.size > 0 && (forall i :: 0 <= i <= n ==> AllOk(lists[i]) && Neat(Habits(s), lists[i]))
    && forall i :: 0 <= i < n ==>
      && Terminated(acts[i].path)
      && var r := Bound(s, acts[i], Flat(lists[0]), run[..i]);
         Explained(s, acts[i], r, Flat(lists[i]), answers[i], Flat(lists[i + 1]), run[i])
  }

  lemma LinkedFollowed(s: Setting, acts: seq<Act>, answers: seq<FResult>, run: seq<Change>, lists: seq<seq<Item>>, n: nat)
    requires Linked(s, acts, answers, run, lists, n)
    ensures Followed(s, acts, answers, run, lists, n)
  {
    hide Neat, Explained, Turned, Flat, Bound, Fit;
    forall i | 0 <= i <= n
      ensures AllOk(lists[i]) && Neat(Habits(s), lists[i])
    {
      LinkedOk(s, acts, answers, run, lists, n, i);
    }
    forall i | 0 <= i < n
      ensures Terminated(acts[i].path)
      ensures var r := Bound(s, acts[i], Flat(lists[0]), run[..i]);
        Explained(s, acts[i], r, Flat(lists[i]), answers[i], Flat(lists[i + 1]), run[i])
    {
      assert Stepped(s, acts[i], lists[i], answers[i], lists[i + 1], run[i]);
      ExplainedBound(s, acts, answers, run, lists, n, i);
    }
  }

  lemma ExplainedBound(s: Setting, acts: seq<Act>, answers: seq<FResult>, run: seq<Change>, lists: seq<seq<Item>>,
      n: nat, i: nat)
    requires Linked(s, acts, answers, run, lists, n) && i < n && AllOk(lists[i]) && AllOk(lists[i + 1])
    requires Stepped(s, acts[i], lists[i], answers[i], lists[i + 1], run[i])
    ensures var r := Bound(s, acts[i], Flat(lists[0]), run[..i]);
      Explained(s, acts[i], r, Flat(lists[i]), answers[i], Flat(lists[i + 1]), run[i])
  {
    hide Neat, Turned, Flat, Bound, Fit, Valid, Locate, Made, Bounded, Marked, NameOf;
    if Valid(acts[i].path, s.cp, s.size) { LinkedBound(s, acts, answers, run, lists, n, i, acts[i]); }
  }

  method Do(d: Dir, a: Act, ghost s: Setting, cp: CodePage, ghost items: seq<Item>, ghost fine: bool)
    returns (res: FResult, ghost whole: bool, ghost k: nat, ghost items': seq<Item>, ghost ch: Change)
    requires In(d, s) && s.cp == cp && Terminated(a.path) && (fine ==> Orderly(d, s, items))
    modifies d.lfnbuf, d.fn, d`long, d`index, d`clust, d`sect, d`dir, d`lfnIdx, d`chain, d.fs.dev`sectors, d.fs.win,
      d.fs`wflag, d.fs`winsect, d.fs`log, d.fs`freeClust, d.fs`fsiFlag, d.fs`lastClust, d.fs`strayed
    ensures In(d, s)
    ensures fine && whole ==> Orderly(d, s, items') && Stepped(s, a, items, res, items', ch)
    ensures fine && !whole ==> Stray(s, a, items, res, k)
  {
    hide In, Orderly, Stepped, Partly, Stray;
    whole, k := true, 0;
    if a.Make? {
      res, items', ch := DoMake(d, a, s, cp, items, fine);
    } else {
      res, whole, k, items', ch := DoUnlink(d, a, s, cp, items, fine);
      InFit(d, s);
      if fine && !whole { PartlyStray(s, a, items, res, k, d.Entries(), ch); }
    }
  }

  /**
   * Any run of creating and unlinking objects by path is a run of the corresponding changes of a map from names to
   * entries: each operation answers by what its name is bound to, and fails for lack of room, of a number or because of a
   * damaged FAT only. This holds up to the first operation, number first, that removes an object with a long name by its
   * short one; that object is item k of the list then.
   */
  method Perform(d: Dir, acts: seq<Act>, cp: CodePage, ghost s: Setting, ghost items: seq<Item>)
    returns (answers: seq<FResult>, ghost run: seq<Change>, ghost lists: seq<seq<Item>>, ghost first: nat, ghost k: nat)
    requires In(d, s) && s.cp == cp && Orderly(d, s, items) && forall i :: 0 <= i < |acts| ==> Terminated(acts[i].path)
    modifies d.lfnbuf, d.fn, d`long, d`index, d`clust, d`sect, d`dir, d`lfnIdx, d`chain, d.fs.dev`sectors, d.fs.win,
      d.fs`wflag, d.fs`winsect, d.fs`log, d.fs`freeClust, d.fs`fsiFlag, d.fs`lastClust, d.fs`strayed
    ensures In(d, s) && |answers| == |run| == |acts| && first <= |acts|
    ensures Followed(s, acts, answers, run, lists, first) && lists[0] == items
    ensures first == |acts| ==> Orderly(d, s, lists[first]) && Ran(Habits(s), Flat(items), d.Entries(), run)
    ensures first < |acts| ==> answers[first] == FR_OK
    ensures first < |acts| ==>
      ByAlias(s, acts[first], Bound(s, acts[first], Flat(items), run[..first]), lists[first], k)
  {
    hide In, Orderly, Stepped, Explained, Ran, Turned, Dir.Base, Dir.Entries, ByAlias, Fit, Neat,
      Linked, Partly, Stray, AllOk, Flat, Bound, Followed;
    answers, run, lists, first, k := [], [], [items], |acts|, 0;
    ghost var fine, items' := true, items;
    InFit(d, s);
    OrderlyParts(d, s, items);
    for i := 0 to |acts|
      invariant |answers| == |run| == i && In(d, s) && (fine <==> first == |acts|) && (!fine ==> first < i)
      invariant |lists| == (if fine then i else first) + 1 && lists[0] == items
      invariant Linked(s, acts, answers, run, lists, if fine then i else first)
      invariant fine ==> Orderly(d, s, items') && lists[i] == items'
      invariant !fine ==> Stray(s, acts[first], lists[first], answers[first], k)
    {
      var res;
      ghost var ch, whole, j;
      res, whole, j, items', ch := Do(d, acts[i], s, cp, items', fine);
      if fine {
        if whole {
          LinkedMore(s, acts, answers, run, lists, res, ch, items');
          lists := lists + [items'];
        } else {
          LinkedKept(s, acts, answers, run, lists, i, res, ch);
          fine, first, k := false, i, j;
        }
      } else {
        LinkedKept(s, acts, answers, run, lists, first, res, ch);
      }
      answers, run := answers + [res], run + [ch];
    }
    LinkedFollowed(s, acts, answers, run, lists, first);
    if fine {
      OrderlyParts(d, s, lists[first]);
      LinkedRan(s, acts, answers, run, lists, first, first);
      assert run[..first] == run;
    } else {
      StrayBound(s, acts, answers, run, lists, first, k);
    }
  }

  lemma OrderlyParts(d: Dir, s: Setting, items: seq<Item>)
    requires Orderly(d, s, items)
    ensures Fit(s) ==> forall acts :: Linked(s, acts, [], [], [items], 0)
    ensures s.size > 0 && AllOk(items) && Neat(Habits(s), items) && d.Base() && d.Entries() == Flat(items)
  {
    hide Neat, Dir.Base, Dir.Entries;
  }

  /** An object with a long name was removed by its short one. */
  ghost predicate Stray(s: Setting, a: Act, items: seq<Item>, res: FResult, k: nat)
  {
    && Terminated(a.path) && AllOk(items) && res == FR_OK
    && ByAlias(s, a, Locate(Wanted(s, a), NameOf(a.path, s.cp), items, 0), items, k)
  }

  lemma PartlyStray(s: Setting, a: Act, items: seq<Item>, res: FResult, k: nat, t1: seq<Entry>, ch: Change)
    requires Partly(s, a, items, res, k, t1, ch)
    ensures Stray(s, a, items, res, k)
  {
  }

  lemma StrayBound(s: Setting, acts: seq<Act>, answers: seq<FResult>, run: seq<Change>, lists: seq<seq<Item>>,
      n: nat, k: nat)
    requires Linked(s, acts, answers, run, lists, n) && n < |acts| && n < |answers|
    requires Stray(s, acts[n], lists[n], answers[n], k)
    ensures AllOk(lists[0]) && Terminated(acts[n].path) && answers[n] == FR_OK
    ensures ByAlias(s, acts[n], Bound(s, acts[n], Flat(lists[0]), run[..n]), lists[n], k)
  {
    hide Neat, Flat, Bound, Fit, Valid, Locate, Linked, NameOf;
    LinkedOk(s, acts, answers, run, lists, n, 0);
    LinkedBound(s, acts, answers, run, lists, n, n, acts[n]);
  }
}
