// Creating an object: from a path to an entry that is found again and prints as the name.
module Create {
  import opened Words
  import opened Lfn
  import opened DirTable
  import opened DirMap
  import opened FileSystem
  import opened Directory
  import opened Names
  import Clusters

  /** The first segment of the path is a name: not too long, without a forbidden character, and not empty. */
  predicate Valid(path: seq<Byte>, cp: CodePage, room: nat)
    requires Terminated(path)
  {
    var s := Segment(path, 0);
    |s| < room && Accepted(Converted(cp, s)) && Stripped(Converted(cp, s)) != []
  }

  /** The first segment of the path, without spaces and dots at its end. */
  function NameOf(path: seq<Byte>, cp: CodePage): seq<Word>
    requires Terminated(path)
  {
    Stripped(Converted(cp, Segment(path, 0)))
  }

  // ----- how a volume with this code page searches -----

  /** The search for a path: by its long name, and by its short form unless that loses something. */
  function Asked(cp: CodePage, up: Word -> Word, room: nat, path: seq<Byte>): (q: Query)
    requires Terminated(path)
    ensures |q.b| > 0
  {
    var n, f := NameOf(path, cp), FormOf(cp, NameOf(path, cp));
    Query(up, true, n + seq(if |n| < room then room - |n| else 1, i => 0), f.sfn, f.loss)
  }

  /** The short name a long name stands for: that of any name of the page which searches do not tell apart from it. */
  ghost function AliasOf(cp: CodePage, up: Word -> Word, n: seq<Word>): Alias
  {
    if exists m :: Spelled(cp, m) && SameName(up, n, m) then
      var m :| Spelled(cp, m) && SameName(up, n, m);
      var f := FormOf(cp, m);
      if f.loss then Lossy else Exact(f.sfn)
    else Lossy
  }

  ghost function HabitOf(cp: CodePage, up: Word -> Word, max: nat): Habit
  {
    Habit(up, (n: seq<Word>) => AliasOf(cp, up, n), max)
  }

  /** A name of the code page stands for its own short form. */
  lemma AliasSpelled(cp: CodePage, up: Word -> Word, n: seq<Word>)
    requires Folds(cp, up) && Spelled(cp, n)
    ensures AliasOf(cp, up, n) == if FormOf(cp, n).loss then Lossy else Exact(FormOf(cp, n).sfn)
  {
    hide FormOf, Folds, Spelled;
    AliasIs(cp, up, n, n);
  }

  /** Names that searches do not tell apart stand for the same short name. */
  lemma HabitFolded(cp: CodePage, up: Word -> Word, max: nat)
    requires Folds(cp, up)
    ensures Folded(up, HabitOf(cp, up, max).alias)
  {
    hide FormOf, Folds, Spelled;
    forall n, m | SameName(up, n, m)
      ensures AliasOf(cp, up, n) == AliasOf(cp, up, m)
    {
      AliasFolded(cp, up, n, m);
    }
  }

  lemma AliasFolded(cp: CodePage, up: Word -> Word, n: seq<Word>, m: seq<Word>)
    requires Folds(cp, up) && SameName(up, n, m)
    ensures AliasOf(cp, up, n) == AliasOf(cp, up, m)
  {
    hide FormOf, Folds, Spelled;
    if k: seq<Word> :| Spelled(cp, k) && (SameName(up, n, k) || SameName(up, m, k)) {
      assert SameName(up, n, k) && SameName(up, m, k);
      AliasIs(cp, up, n, k);
      AliasIs(cp, up, m, k);
    }
  }

  lemma AliasIs(cp: CodePage, up: Word -> Word, n: seq<Word>, k: seq<Word>)
    requires Folds(cp, up) && Spelled(cp, k) && SameName(up, n, k)
    ensures AliasOf(cp, up, n) == if FormOf(cp, k).loss then Lossy else Exact(FormOf(cp, k).sfn)
  {
    hide FormOf, Folds, Spelled;
    var m :| Spelled(cp, m) && SameName(up, n, m) &&
      AliasOf(cp, up, n) == if FormOf(cp, m).loss then Lossy else Exact(FormOf(cp, m).sfn);
    SameChain(up, n, k, n);
    SameChain(up, n, m, n);
    SameChain(up, k, n, m);
    FormFolded(cp, up, k, m);
  }

  lemma NameSpelled(path: seq<Byte>, cp: CodePage)
    requires Terminated(path)
    ensures Spelled(cp, NameOf(path, cp))
  {
    var s := Segment(path, 0);
    forall i | 0 <= i < |NameOf(path, cp)|
      ensures InPage(cp, NameOf(path, cp)[i])
    {
      assert NameOf(path, cp)[i] == Converted(cp, s)[i] == cp.uni(s[i]);
    }
  }

  /** If conversion and upper-casing go together, a directory answers the search for a path like a map. */
  lemma AskedAsks(cp: CodePage, up: Word -> Word, room: nat, path: seq<Byte>)
    requires Terminated(path) && Sane(cp) && Upper(up) && Folds(cp, up) && 0 < room <= 256 && Valid(path, cp, room)
    ensures Fair(HabitOf(cp, up, room - 1))
    ensures Asks(HabitOf(cp, up, room - 1), Asked(cp, up, room, path), NameOf(path, cp))
  {
    hide FormOf, Folds, Spelled, AliasOf, Accepted, Stripped, Segment, Illegal;
    var n := NameOf(path, cp);
    HabitFolded(cp, up, room - 1);
    NameSpelled(path, cp);
    AliasSpelled(cp, up, n);
    NameIs(path, cp, room);
    var q := Asked(cp, up, room, path);
    assert q.b[..|n|] == n;
  }

  lemma NameIs(path: seq<Byte>, cp: CodePage, room: nat)
    requires Terminated(path) && Sane(cp) && room <= 256 && Valid(path, cp, room)
    ensures IsName(NameOf(path, cp)) && |NameOf(path, cp)| < room
  {
    hide Sane, Accepted, Illegal;
    ConvertedCoded(cp, Segment(path, 0));
  }

  // ----- the operations -----

  /** The first segment of a path becomes the name in the buffers, as the directory operations need it. */
  method Parse(d: Dir, path: seq<Byte>, cp: CodePage) returns (res: FResult)
    requires Terminated(path) && Sane(cp)
    requires d.Buffers() && d.lfnbuf as object != d.fs.win
    requires d.Base()
    modifies d.lfnbuf, d.fn
    ensures res == FR_OK || res == FR_INVALID_NAME
    ensures res == FR_OK <==> Valid(path, cp, d.lfnbuf.Length)
    ensures res == FR_OK ==> d.Naming(NameOf(path, cp)) && (d.fn[11] % 2 == 1 ==> d.fn[11] / 2 % 2 == 1)
    ensures res == FR_OK ==> FormOf(cp, NameOf(path, cp)) == Form(d.fn[..11], d.fn[11] % 2 == 1)
    ensures res == FR_OK ==> (d.fn[11] / 2 % 2 == 0 <==> IsShort(NameOf(path, cp)))
    ensures res == FR_OK && IsShort(NameOf(path, cp)) ==> Printed(SfnEntry(d.fn[..])) == NameOf(path, cp)
    ensures d.Base() && d.Entries() == old(d.Entries())
  {
    hide Dir.Base, Dir.Entries, IsShort, Printed, SfnEntry, Segment, Stripped, Converted, Accepted, FormOf;
    var next;
    ghost var name;
    res, next, name := CreateName(path, 0, d.lfnbuf, d.fn, cp);
  }

  /** The name in the buffers is that of the path, and its search is the one asked for. */
  ghost predicate Loaded(d: Dir, path: seq<Byte>, cp: CodePage)
    reads d`long, d.fs`geo, d.lfnbuf, d.fn
    requires Terminated(path)
  {
    var name := NameOf(path, cp);
    && d.Naming(name) && d.long && |name| < d.lfnbuf.Length && (d.fn[11] % 2 == 1 ==> d.fn[11] / 2 % 2 == 1)
    && FormOf(cp, name) == Form(d.fn[..11], d.fn[11] % 2 == 1)
    && (d.fn[11] / 2 % 2 == 0 <==> IsShort(name)) && (IsShort(name) ==> Printed(SfnEntry(d.fn[..])) == name)
  }

  /** The search with the buffers as they are is the search asked for. */
  lemma LoadedAsks(d: Dir, path: seq<Byte>, cp: CodePage, items: seq<Item>)
    requires Terminated(path) && Loaded(d, path, cp) && AllOk(items)
    ensures Asked(cp, d.up, d.lfnbuf.Length, path) == d.Wanted().(b := Asked(cp, d.up, d.lfnbuf.Length, path).b)
    ensures |Asked(cp, d.up, d.lfnbuf.Length, path).b| == |d.Wanted().b|
    ensures var name := NameOf(path, cp);
      Locate(d.Wanted(), name, items, 0) == Locate(Asked(cp, d.up, d.lfnbuf.Length, path), name, items, 0)
  {
    hide FormOf, IsShort, Printed, SfnEntry, NameOf, Locate, AllOk, IsName;
    var q := Asked(cp, d.up, d.lfnbuf.Length, path);
    LocateBuffer(d.Wanted(), q.b, NameOf(path, cp), items, 0);
  }

  lemma LoadedKnows(d: Dir, path: seq<Byte>, cp: CodePage)
    requires Terminated(path) && Sane(cp) && Loaded(d, path, cp) && Folds(cp, d.up) && Valid(path, cp, d.lfnbuf.Length)
    ensures d.Knows(HabitOf(cp, d.up, d.lfnbuf.Length - 1), NameOf(path, cp))
  {
    hide FormOf, IsShort, Printed, SfnEntry, NameOf, IsName, Valid, Fair, Sane, Folds, AliasOf;
    AskedAsks(cp, d.up, d.lfnbuf.Length, path);
    LoadedAsks(d, path, cp, []);
  }

  /** The entry at which the object stands prints as the name, unless its long name does that. */
  ghost predicate Shows(d: Dir, name: seq<Word>)
    reads d`lfnIdx, d`index, d.fn
    requires d.fn.Length == 12
  {
    if d.lfnIdx == 0xFFFF && d.fn[11] / 2 % 2 == 0 then Printed(SfnEntry(d.fn[..])) == name else d.fn[11] / 2 % 2 == 1
  }

  /** Table and FAT are as before. */
  twostate predicate Kept(d: Dir)
    reads d, d.fs, d.fs.win, d.fs.dev
  {
    && old(d.Base()) && d.Base()
    && d.Entries() == old(d.Entries()) && d.Table() == old(d.Table()) && d.fs.Table() == old(d.fs.Table())
  }

  /** The path is parsed and the name looked up. */
  method Lookup(d: Dir, path: seq<Byte>, cp: CodePage, ghost items: seq<Item>, ghost fine: bool) returns (res: FResult)
    requires Terminated(path) && Sane(cp) && d.long
    requires d.Buffers() && d.lfnbuf as object != d.fs.win
    requires d.Base()
    requires fine ==> d.Holds(items)
    modifies d.lfnbuf, d.fn, d`index, d`clust, d`sect, d`dir, d`lfnIdx, d`chain, d.fs.dev`sectors, d.fs.win, d.fs`wflag,
      d.fs`winsect, d.fs`log, d.fs`freeClust, d.fs`fsiFlag, d.fs`lastClust, d.fs`strayed
    ensures res in {FR_OK, FR_NO_FILE, FR_INVALID_NAME, FR_DISK_ERR} && (res == FR_DISK_ERR ==> !d.fs.dev.reliable)
    ensures !d.fs.strayed && d.fs.log == old(d.fs.log) && d.fs.LoggedWellFormed()
    ensures res == FR_INVALID_NAME <==> !Valid(path, cp, d.lfnbuf.Length)
    ensures res != FR_INVALID_NAME ==> Loaded(d, path, cp)
    ensures fine && (res == FR_OK || res == FR_NO_FILE) ==>
      (res == FR_OK <==> Locate(Asked(cp, d.up, d.lfnbuf.Length, path), NameOf(path, cp), items, 0).Found?)
    ensures res != FR_DISK_ERR ==> d.Base() && d.Confined() && Kept(d)
  {
    hide Dir.Base, Dir.Entries, Dir.Sects, IsShort, Printed, SfnEntry, Segment, Stripped, Converted, Accepted, Search,
      Locate, Volume.Valid, Volume.Table, Flat, Settled, AllOk, Grew, SameBut, Volume.Snap, Valid, Dir.Table, FormOf,
      Asked, IsName;
    res := Parse(d, path, cp);
    d.Still();
    if res != FR_OK { return; }
    NameFits(path, cp, d.lfnbuf.Length);
    ghost var idx := d.lfnIdx;
    if fine {
      d.WholeTable();
      d.ProperWanted(NameOf(path, cp));
      FindsFirst(d.Wanted(), NameOf(path, cp), items, idx);
      LoadedAsks(d, path, cp, items);
    }
    res := d.Find();
    if res != FR_DISK_ERR {
      d.EntriesKept();
      d.TableKept();
      d.fs.SameTable();
      d.Still();
    }
  }

  lemma NameFits(path: seq<Byte>, cp: CodePage, room: nat)
    requires Terminated(path) && Valid(path, cp, room)
    ensures |NameOf(path, cp)| < room
  {
  }

  /** The object that is entered for a name: 8.3 names go without a long name, and lossy short names get a number. */
  ghost predicate NewObject(cp: CodePage, name: seq<Word>, it: Item, t: seq<Entry>)
  {
    var f := FormOf(cp, name);
    && ItemOk(it) && (it.Plain? || it.Long?) && (exists b: Byte :: it.e == SfnEntry(it.e[..11] + [b]))
    && (if IsShort(name) then it.Plain? && Printed(it.e) == name else it.Long? && it.n == name)
    && (if f.loss then FirstNumber(name, f.sfn, t, it.e[..11]) else it.e[..11] == f.sfn)
  }

  /** Number of entries the object takes. */
  ghost function Need(name: seq<Word>): nat
  {
    if IsShort(name) then 1 else Segments(|name|) + 1
  }

  /** The short name needs a number, and all of them are taken. */
  ghost predicate NoNumber(cp: CodePage, name: seq<Word>, t: seq<Entry>)
  {
    FormOf(cp, name).loss && NumbersTaken(name, FormOf(cp, name).sfn, t)
  }

  /** What dir_register made of a loaded name. */
  lemma Registered(d: Dir, cp: CodePage, name: seq<Word>, src: seq<Byte>, f: seq<Byte>, t: seq<Entry>)
    requires d.Naming(name) && |f| == 12 && src == f[..11] && FormOf(cp, name) == Form(src, f[11] % 2 == 1)
    requires (f[11] % 2 == 1 ==> f[11] / 2 % 2 == 1) && (f[11] / 2 % 2 == 0 <==> IsShort(name))
    requires IsShort(name) ==> Printed(SfnEntry(f)) == name
    requires d.fn[11] == f[11] && (d.fn[11] % 2 == 0 ==> d.fn[..] == f) && d.Numbering(name, src, t)
    ensures NewObject(cp, name, NewItem(name, d.fn[11] / 2 % 2 == 1, d.fn[..]), t)
  {
    hide FormOf, IsShort, Printed, SfnEntry, FirstNumber, IsName;
    assert d.fn[..11] + [d.fn[11]] == d.fn[..];
    WrittenItem(name, d.fn[11] / 2 % 2 == 1, d.fn[..]);
  }

  /**
   * f_open creating an object: a name that is not in a well-formed directory is entered there and found again, and a
   * name that is there is refused. If the object has no long-name entries, the entry prints as the name. In a neat
   * directory all other names keep what they are bound to.
   */
  method CreateAndFind(d: Dir, path: seq<Byte>, cp: CodePage, ghost items: seq<Item>)
    returns (res: FResult, again: FResult, ghost items': seq<Item>, ghost ch: Change)
    requires Terminated(path) && Sane(cp) && d.long
    requires d.Buffers() && d.lfnbuf as object != d.fs.win
    requires d.Base()
    requires d.Holds(items)
    modifies d.lfnbuf, d.fn, d`long, d`index, d`clust, d`sect, d`dir, d`lfnIdx, d`chain, d.fs.dev`sectors, d.fs.win,
      d.fs`wflag, d.fs`winsect, d.fs`log, d.fs`freeClust, d.fs`fsiFlag, d.fs`lastClust, d.fs`strayed
    ensures res in {FR_OK, FR_INVALID_NAME, FR_EXIST, FR_DISK_ERR, FR_INT_ERR, FR_DENIED, FR_NO_FILE}
    ensures res != FR_OK ==> again == FR_OK
    ensures res == FR_DISK_ERR || again == FR_DISK_ERR ==> !d.fs.dev.reliable
    ensures d.fs.dev.reliable || d.Static() ==> !d.fs.strayed
    ensures !d.fs.strayed ==> d.fs.LoggedWellFormed()
    ensures res == FR_INVALID_NAME <==> !Valid(path, cp, d.lfnbuf.Length)
    ensures d.Sure(res) && res != FR_INVALID_NAME ==>
      (res == FR_EXIST <==> Locate(Asked(cp, d.up, d.lfnbuf.Length, path), NameOf(path, cp), items, 0).Found?)
    ensures res == FR_INVALID_NAME || res == FR_EXIST ==> items' == items && ch == None && Kept(d)
    ensures d.Sure(res) && again != FR_DISK_ERR ==> d.Base() && d.Confined()
    ensures d.Sure(res) && again != FR_DISK_ERR ==> d.Holds(items') && d.Changed(old(d.Entries()), ch)
    ensures d.Sure(res) && res == FR_OK && again != FR_DISK_ERR ==> d.Refound(NameOf(path, cp), again, d.Entries())
    ensures d.Sure(res) && res == FR_OK && again == FR_OK ==> Shows(d, NameOf(path, cp))
    ensures d.Sure(res) && again != FR_DISK_ERR && Folds(cp, d.up) ==>
      var c := HabitOf(cp, d.up, d.lfnbuf.Length - 1);
      Neat(c, items) ==> Neat(c, items') && Turned(c, old(d.Entries()), d.Entries(), ch)
    ensures d.Sure(res) && res == FR_OK ==> ch.Add? && NewObject(cp, NameOf(path, cp), ch.it, old(d.Table()))
    // the reasons for failing
    ensures d.Sure(res) && res !in {FR_OK, FR_INVALID_NAME, FR_EXIST} ==>
      var name := NameOf(path, cp);
      d.Judged(res, NoNumber(cp, name, old(d.Table())), Need(name), old(d.fs.Table()), old(d.Table()), old(d.Entries()))
  {
    hide Dir.Reason, Neat, Turned, Clusters.HasOne, Clusters.Full, NoRun, NumbersTaken, FirstNumber, Dir.Table,
      Volume.Table, Dir.Base, Dir.Entries, Dir.Sects, IsShort, Printed, SfnEntry, Segment, Stripped, Converted,
      Accepted, Search, Locate, Volume.Valid, Flat, Settled, AllOk, Grew, SameBut, Volume.Snap, AllWell, Fair, Valid,
      FormOf, Asked, AliasOf, Folds, NameOf, EnteredIn, EmptyRows, IsName, Sane, Dir.Knows;
    again, items', ch := FR_OK, items, None;
    ghost var name, c := NameOf(path, cp), HabitOf(cp, d.up, d.lfnbuf.Length - 1);
    TurnedNone(c, items);
    res := Lookup(d, path, cp, items, true);
    if res == FR_OK { return FR_EXIST, FR_OK, items, None; }
    if res != FR_NO_FILE { return; }
    ghost var f, p := d.fn[..], d.Here();
    LoadedAsks(d, path, cp, items);
    if Folds(cp, d.up) { LoadedKnows(d, path, cp); }
    res, again, items', ch := d.RegisterAndFind(name, items, c);
    if d.Sure(res) && again != FR_DISK_ERR { GrewTrans(old(d.Here()), p, d.Here()); }
    if d.Sure(res) && res == FR_OK { Registered(d, cp, name, f[..11], f, old(d.Table())); }
  }

  /** Finding nothing to do leaves the map as it is. */
  lemma TurnedNone(c: Habit, items: seq<Item>)
    requires AllOk(items) && Settled(items)
    ensures Turned(c, Flat(items), Flat(items), None)
  {
    hide Flat, Turned, Settled, Neat;
    PaddedWhole(c, items, 0);
    assert items + EndItems(0) == items;
  }
}
