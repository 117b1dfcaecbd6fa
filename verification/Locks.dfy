// The table of open files: chk_lock, enq_lock, inc_lock, dec_lock and clear_lock, and the runs of opens and closes.
module Locks {
  import opened Words
  import opened FileSystem

  /** What names a file: volume, directory and index in it. */
  datatype Key = Key(fs: nat, clu: nat, idx: nat)

  /** A table entry; it is blank when it names no volume. */
  datatype Sem = Sem(key: Key, ctr: nat)

  const WRITER := 0x100
  const READERS := 255

  type Table = seq<Sem>

  predicate Used(s: Sem) { s.key.fs != 0 }

  // ----- the table operations as functions -----

  /** The first entry from i on that names f, or the length of the table. */
  function Find(t: Table, f: Key, i: nat): (r: nat)
    requires i <= |t|
    ensures i <= r <= |t| && (r < |t| ==> t[r].key == f) && forall k :: i <= k < r ==> t[k].key != f
    decreases |t| - i
  {
    if i == |t| || t[i].key == f then i else Find(t, f, i + 1)
  }

  /** The first blank entry from i on, or the length of the table. */
  function FindBlank(t: Table, i: nat): (r: nat)
    requires i <= |t|
    ensures i <= r <= |t| && (r < |t| ==> !Used(t[r])) && forall k :: i <= k < r ==> Used(t[k])
    decreases |t| - i
  {
    if i == |t| || !Used(t[i]) then i else FindBlank(t, i + 1)
  }

  /** May f be opened for reading (0), for writing (1), or be removed (2)? */
  function Check(t: Table, f: Key, acc: nat): FResult
  {
    var i := Find(t, f, 0);
    if i == |t| then (if FindBlank(t, 0) < |t| || acc == 2 then FR_OK else FR_TOO_MANY_OPEN_FILES)
    else if acc != 0 || t[i].ctr == WRITER then FR_LOCKED
    else FR_OK
  }

  /** The table after inc_lock, and the lock id; 0 is an internal error. */
  function Inc(t: Table, f: Key, write: bool): (Table, nat)
  {
    var i := Find(t, f, 0);
    var j := if i == |t| then FindBlank(t, 0) else i;
    if j == |t| then (t, 0)
    else
      var c := if i == |t| then 0 else t[j].ctr;
      if write && c != 0 then (t, 0)
      else (t[j := Sem(f, if write then WRITER else c + 1)], j + 1)
  }

  /** The table after dec_lock. */
  function Dec(t: Table, id: nat): Table
    requires 0 < id <= |t|
  {
    var s := t[id - 1];
    var n := if s.ctr == WRITER || s.ctr == 0 then 0 else s.ctr - 1;
    t[id - 1 := Sem(if n == 0 then s.key.(fs := 0) else s.key, n)]
  }

  /** The table after clear_lock. */
  function Clear(t: Table, fs: nat): (r: Table)
  {
    seq(|t|, i requires 0 <= i < |t| => if t[i].key.fs == fs then t[i].(key := t[i].key.(fs := 0)) else t[i])
  }

  // ----- the table in memory -----

  class LockTable {
    const files: array<Sem>

    constructor (n: nat)
      ensures fresh(files) && files.Length == n && forall i :: 0 <= i < n ==> !Used(files[i])
    {
      files := new Sem[n](_ => Sem(Key(0, 0, 0), 0));
    }

    method ChkLock(f: Key, acc: nat) returns (res: FResult)
      requires f.fs != 0
      ensures res == Check(files[..], f, acc)
    {
      var i, be := 0, 0;
      while i < files.Length
        invariant i <= files.Length && Find(files[..], f, 0) == Find(files[..], f, i)
        invariant be > 0 <==> FindBlank(files[..], 0) < i
      {
        if Used(files[i]) {
          if files[i].key == f { break; }
        } else {
          be := be + 1;
        }
        i := i + 1;
      }
      if i == files.Length { return if be > 0 || acc == 2 then FR_OK else FR_TOO_MANY_OPEN_FILES; }
      return if acc != 0 || files[i].ctr == WRITER then FR_LOCKED else FR_OK;
    }

    method BlankEntry() returns (i: nat)
      ensures i == FindBlank(files[..], 0)
    {
      i := 0;
      while i < files.Length && Used(files[i])
        invariant i <= files.Length && FindBlank(files[..], 0) == FindBlank(files[..], i)
      {
        i := i + 1;
      }
    }

    method EnqLock() returns (room: bool)
      ensures room <==> exists i :: 0 <= i < files.Length && !Used(files[i])
    {
      var i := BlankEntry();
      return i < files.Length;
    }

    method IncLock(f: Key, write: bool) returns (id: nat)
      requires f.fs != 0
      modifies files
      ensures files[..] == Inc(old(files[..]), f, write).0 && id == Inc(old(files[..]), f, write).1
    {
      var i := 0;
      while i < files.Length
        invariant i <= files.Length && Find(files[..], f, 0) == Find(files[..], f, i)
      {
        if files[i].key == f { break; }
        i := i + 1;
      }
      if i == files.Length {
        i := BlankEntry();
        if i == files.Length { return 0; }
        files[i] := Sem(f, 0);
      }
      if write && files[i].ctr != 0 { return 0; }
      files[i] := files[i].(ctr := if write then WRITER else files[i].ctr + 1);
      return i + 1;
    }

    method DecLock(id: nat) returns (res: FResult)
      modifies files
      ensures res == if 0 < id <= files.Length then FR_OK else FR_INT_ERR
      ensures files[..] == if 0 < id <= files.Length then Dec(old(files[..]), id) else old(files[..])
    {
      if id == 0 || id > files.Length { return FR_INT_ERR; }
      var i := id - 1;
      var n := files[i].ctr;
      if n == WRITER { n := 0; }
      if n > 0 { n := n - 1; }
      files[i] := files[i].(ctr := n);
      if n == 0 { files[i] := files[i].(key := files[i].key.(fs := 0)); }
      return FR_OK;
    }

    method ClearLock(fs: nat)
      modifies files
      ensures files[..] == Clear(old(files[..]), fs)
    {
      var i := 0;
      while i < files.Length
        invariant i <= files.Length && files[..i] == Clear(old(files[..]), fs)[..i] && files[i..] == old(files[i..])
      {
        if files[i].key.fs == fs { files[i] := files[i].(key := files[i].key.(fs := 0)); }
        i := i + 1;
      }
    }
  }

  // ----- runs -----

  /** An open file object: its lock id, its file and whether it may write. */
  datatype Handle = Handle(id: nat, key: Key, write: bool)

  datatype State = State(t: Table, live: seq<Handle>)

  /** What a program asks for; Close names one of the live handles. */
  datatype Request = Open(f: Key, write: bool) | Create(f: Key, write: bool) | Close(k: nat) | Remount(fs: nat)

  /** The handles with a lock id. */
  function Holders(live: seq<Handle>, id: nat): nat
  {
    if live == [] then 0 else (if live[0].id == id then 1 else 0) + Holders(live[1..], id)
  }

  function Readers(live: seq<Handle>, f: Key): nat
  {
    if live == [] then 0 else (if live[0].key == f && !live[0].write then 1 else 0) + Readers(live[1..], f)
  }

  predicate HasFile(live: seq<Handle>, f: Key)
  {
    exists k :: 0 <= k < |live| && live[k].key == f
  }

  predicate HasWriter(live: seq<Handle>, f: Key)
  {
    exists k :: 0 <= k < |live| && live[k].key == f && live[k].write
  }

  /** f_open on an existing file, and on one it creates. */
  function Opened(s: State, f: Key, write: bool, create: bool): (FResult, State)
  {
    var res := if create then (if FindBlank(s.t, 0) < |s.t| then FR_OK else FR_TOO_MANY_OPEN_FILES)
               else Check(s.t, f, if write then 1 else 0);
    if res != FR_OK then (res, s)
    else
      var (t, id) := Inc(s.t, f, write);
      if id == 0 then (FR_INT_ERR, s.(t := t)) else (FR_OK, State(t, s.live + [Handle(id, f, write)]))
  }

  /** The handles of other volumes; those of a volume mounted again are no longer valid. */
  function Others(live: seq<Handle>, fs: nat): seq<Handle>
  {
    if live == [] then []
    else (if live[0].key.fs == fs then [] else [live[0]]) + Others(live[1..], fs)
  }

  /** The requests a program may make; a created file is new, so nobody has it open. */
  predicate Proper(s: State, q: Request)
  {
    match q
    case Open(f, write) => f.fs != 0
    case Create(f, write) => f.fs != 0 && !HasFile(s.live, f)
    case Close(k) => k < |s.live| && 0 < s.live[k].id <= |s.t|
    case Remount(fs) => fs != 0
  }

  /** The next state. */
  function Next(s: State, q: Request): State
    requires Proper(s, q)
  {
    match q
    case Open(f, write) => Opened(s, f, write, false).1
    case Create(f, write) => Opened(s, f, write, true).1
    case Close(k) => State(Dec(s.t, s.live[k].id), s.live[..k] + s.live[k + 1..])
    case Remount(fs) => State(Clear(s.t, fs), Others(s.live, fs))
  }

  /** There is room for another reader: the counter of an entry does not reach the mark of a writer. */
  predicate Roomy(s: State, q: Request)
  {
    (q.Open? || q.Create?) && !q.write ==> Readers(s.live, q.f) < READERS
  }

  /** The table describes exactly the live handles. */
  ghost predicate Coherent(s: State)
  {
    && (forall i, j :: 0 <= i < j < |s.t| && Used(s.t[i]) ==> s.t[i].key != s.t[j].key)
    && (forall k :: 0 <= k < |s.live| ==> Placed(s.t, s.live[k]))
    && (forall i :: 0 <= i < |s.t| ==> Counted(s.t[i], s.live, i + 1))
  }

  predicate Placed(t: Table, h: Handle)
  {
    && h.key.fs != 0 && 0 < h.id <= |t| && t[h.id - 1].key == h.key
    && (h.write <==> t[h.id - 1].ctr == WRITER)
  }

  /** An entry is used while it has handles, and its counter is their number, or the mark of the one writer. */
  predicate Counted(e: Sem, live: seq<Handle>, id: nat)
  {
    var n := Holders(live, id);
    && (Used(e) <==> n > 0)
    && (n > 0 ==> if e.ctr == WRITER then n == 1 else e.ctr == n <= READERS)
  }

  // ----- counting -----

  lemma {:induction false} HoldersAppend(a: seq<Handle>, b: seq<Handle>, id: nat)
    ensures Holders(a + b, id) == Holders(a, id) + Holders(b, id)
  {
    if a == [] {
      assert a + b == b;
    } else {
      assert (a + b)[1..] == a[1..] + b;
      HoldersAppend(a[1..], b, id);
    }
  }

  lemma HoldersOne(h: Handle, id: nat)
    ensures Holders([h], id) == if h.id == id then 1 else 0
  {
    assert [h][1..] == [];
  }

  /** Taking out one handle. */
  lemma HoldersWithout(live: seq<Handle>, k: nat, id: nat)
    requires k < |live|
    ensures Holders(live[..k] + live[k + 1..], id) == Holders(live, id) - (if live[k].id == id then 1 else 0)
  {
    assert live == live[..k] + ([live[k]] + live[k + 1..]);
    HoldersAppend(live[..k], [live[k]] + live[k + 1..], id);
    HoldersAppend([live[k]], live[k + 1..], id);
    HoldersAppend(live[..k], live[k + 1..], id);
    HoldersOne(live[k], id);
  }

  lemma {:induction false} HoldersAtLeast(live: seq<Handle>, k: nat)
    requires k < |live|
    ensures Holders(live, live[k].id) >= 1
  {
    if k > 0 { HoldersAtLeast(live[1..], k - 1); }
  }

  lemma {:induction false} HoldersTwo(live: seq<Handle>, a: nat, b: nat)
    requires a < b < |live| && live[a].id == live[b].id
    ensures Holders(live, live[a].id) >= 2
  {
    if a == 0 { HoldersAtLeast(live[1..], b - 1); } else { HoldersTwo(live[1..], a - 1, b - 1); }
  }

  lemma {:induction false} HoldersSome(live: seq<Handle>, id: nat) returns (k: nat)
    requires Holders(live, id) > 0
    ensures k < |live| && live[k].id == id
  {
    if live[0].id == id {
      k := 0;
    } else {
      k := HoldersSome(live[1..], id);
      k := k + 1;
    }
  }

  /** In a table without a writer of f, the handles of its entry are its readers. */
  lemma {:induction false} ReadersAre(live: seq<Handle>, f: Key, id: nat)
    requires forall k :: 0 <= k < |live| ==> (live[k].id == id <==> live[k].key == f)
    requires forall k :: 0 <= k < |live| && live[k].key == f ==> !live[k].write
    ensures Readers(live, f) == Holders(live, id)
  {
    if live != [] { ReadersAre(live[1..], f, id); }
  }

  // ----- safety -----

  /** A file has one entry at most, and its handles carry that entry's id. */
  lemma OneEntry(s: State, k: nat, i: nat)
    requires Coherent(s) && k < |s.live| && i < |s.t|
    ensures s.live[k].id == i + 1 <==> s.t[i].key == s.live[k].key
  {
    assert Placed(s.t, s.live[k]);
  }

  /** A writer has the file for itself. */
  lemma Exclusive(s: State, a: nat, b: nat)
    requires Coherent(s) && a < b < |s.live| && s.live[a].key == s.live[b].key
    ensures !s.live[a].write && !s.live[b].write
  {
    assert Placed(s.t, s.live[a]) && Placed(s.t, s.live[b]);
    OneEntry(s, a, s.live[b].id - 1);
    HoldersTwo(s.live, a, b);
    assert Counted(s.t[s.live[a].id - 1], s.live, s.live[a].id);
  }

  lemma CountedAt(s: State, i: nat)
    requires Coherent(s) && i < |s.t|
    ensures Used(s.t[i]) <==> Holders(s.live, i + 1) > 0
    ensures Used(s.t[i]) && s.t[i].ctr != WRITER ==> s.t[i].ctr == Holders(s.live, i + 1) <= READERS
    ensures Used(s.t[i]) && s.t[i].ctr == WRITER ==> Holders(s.live, i + 1) == 1
  {
    assert Counted(s.t[i], s.live, i + 1);
  }

  lemma PlacedAt(s: State, k: nat)
    requires Coherent(s) && k < |s.live|
    ensures Placed(s.t, s.live[k])
    ensures var h := s.live[k];
      h.key.fs != 0 && 0 < h.id <= |s.t| && s.t[h.id - 1].key == h.key && (h.write <==> s.t[h.id - 1].ctr == WRITER)
  {
  }

  lemma FileHasEntry(s: State, f: Key)
    requires Coherent(s) && HasFile(s.live, f)
    ensures Find(s.t, f, 0) < |s.t|
  {
    var k :| 0 <= k < |s.live| && s.live[k].key == f;
    PlacedAt(s, k);
  }

  /** The entry of a file is there exactly while the file is open. */
  lemma EntryIff(s: State, f: Key)
    requires Coherent(s) && f.fs != 0
    ensures Find(s.t, f, 0) < |s.t| <==> HasFile(s.live, f)
    ensures Find(s.t, f, 0) < |s.t| ==> (s.t[Find(s.t, f, 0)].ctr == WRITER <==> HasWriter(s.live, f))
    ensures Find(s.t, f, 0) < |s.t| && !HasWriter(s.live, f) ==> s.t[Find(s.t, f, 0)].ctr == Readers(s.live, f)
  {
    hide Find, Coherent, Placed, Counted, Holders, Readers;
    var i := Find(s.t, f, 0);
    if HasFile(s.live, f) { FileHasEntry(s, f); }
    if i < |s.t| {
      CountedAt(s, i);
      var k := HoldersSome(s.live, i + 1);
      OneEntry(s, k, i);
      forall j | 0 <= j < |s.live|
        ensures s.live[j].id == i + 1 <==> s.live[j].key == f
        ensures s.live[j].id == i + 1 ==> (s.live[j].write <==> s.t[i].ctr == WRITER)
      {
        OneEntry(s, j, i);
        PlacedAt(s, j);
      }
      if !HasWriter(s.live, f) { ReadersAre(s.live, f, i + 1); }
    }
  }

  /** What f_open answers, in terms of the handles alone; the lock it was granted is never refused after all. */
  lemma OpenResult(s: State, f: Key, write: bool)
    requires Coherent(s) && f.fs != 0
    ensures var res := Opened(s, f, write, false).0;
      && (res == FR_LOCKED <==> HasFile(s.live, f) && (write || HasWriter(s.live, f)))
      && (res == FR_TOO_MANY_OPEN_FILES <==> !HasFile(s.live, f) && FindBlank(s.t, 0) == |s.t|)
      && (res == FR_OK <==> res != FR_LOCKED && res != FR_TOO_MANY_OPEN_FILES)
  {
    EntryIff(s, f);
  }

  /** Creating a new file: the table is full, or the lock is granted. */
  lemma CreateResult(s: State, f: Key, write: bool)
    requires Coherent(s) && f.fs != 0 && !HasFile(s.live, f)
    ensures Opened(s, f, write, true).0 == if FindBlank(s.t, 0) == |s.t| then FR_TOO_MANY_OPEN_FILES else FR_OK
  {
    EntryIff(s, f);
  }

  /** Removing a file is refused exactly while it is open. */
  lemma RemoveResult(s: State, f: Key)
    requires Coherent(s) && f.fs != 0
    ensures Check(s.t, f, 2) == if HasFile(s.live, f) then FR_LOCKED else FR_OK
  {
    EntryIff(s, f);
  }

  /** Closing a handle frees the entry exactly when nobody else has the file open. */
  lemma CloseFrees(s: State, k: nat)
    requires Coherent(s) && k < |s.live|
    ensures 0 < s.live[k].id <= |s.t|
    ensures !Used(Dec(s.t, s.live[k].id)[s.live[k].id - 1])
      <==> forall j :: 0 <= j < |s.live| && j != k ==> s.live[j].key != s.live[k].key
  {
    var h := s.live[k];
    assert Placed(s.t, h);
    var i := h.id - 1;
    assert Counted(s.t[i], s.live, h.id);
    HoldersAtLeast(s.live, k);
    var rest := s.live[..k] + s.live[k + 1..];
    HoldersWithout(s.live, k, h.id);
    if Holders(rest, h.id) > 0 {
      var j := HoldersSome(rest, h.id);
      var m := if j < k then j else j + 1;
      OneEntry(s, m, i);
      assert m != k && s.live[m].key == h.key;
    } else {
      forall j | 0 <= j < |s.live| && j != k ensures s.live[j].key != h.key {
        OneEntry(s, j, i);
        if s.live[j].id == h.id {
          if j < k { HoldersTwo(s.live, j, k); } else { HoldersTwo(s.live, k, j); }
        }
      }
    }
  }

  // ----- every step keeps the table coherent -----

  /**
   * Opening keeps the table coherent exactly when there is room for another reader: the 256th reader turns
   * the counter into the mark of a writer.
   */
  lemma OpenKeeps(s: State, f: Key, write: bool, create: bool)
    requires Coherent(s) && f.fs != 0 && (create ==> !HasFile(s.live, f))
    ensures var (res, s') := Opened(s, f, write, create);
      if res == FR_OK then (Coherent(s') <==> write || Readers(s.live, f) < READERS) else s' == s
  {
    hide Find, FindBlank, Placed, Counted, Holders, Readers, Coherent, HasFile;
    EntryIff(s, f);
    var (res, s') := Opened(s, f, write, create);
    if res == FR_OK {
      var h := s'.live[|s.live|];
      var i := h.id - 1;
      Appended(s, s', h);
      NoReaders(s.live, f);
      forall id | 0 < id <= |s.t| ensures Holders(s'.live, id) == Holders(s.live, id) + (if id == h.id then 1 else 0) {
        HoldersAppend(s.live, [h], id);
        HoldersOne(h, id);
      }
      CountedAt(s, i);
      if write || Readers(s.live, f) < READERS {
        GrantedCoherent(s, s', h);
      } else {
        assert s'.t[i].ctr == WRITER;
        NotPlaced(s', |s.live|);
      }
    }
  }

  lemma NotPlaced(s: State, k: nat)
    requires k < |s.live| && 0 < s.live[k].id <= |s.t| && !s.live[k].write && s.t[s.live[k].id - 1].ctr == WRITER
    ensures !Coherent(s)
  {
    assert !Placed(s.t, s.live[k]);
  }

  lemma {:induction false} NoReaders(live: seq<Handle>, f: Key)
    ensures !HasFile(live, f) ==> Readers(live, f) == 0
  {
    if live != [] && !HasFile(live, f) {
      assert forall k :: 0 <= k < |live[1..]| ==> live[1..][k] == live[k + 1];
      NoReaders(live[1..], f);
    }
  }

  lemma Appended(s: State, s': State, h: Handle)
    requires s'.live == s.live + [h]
    ensures forall k :: 0 <= k < |s'.live| ==> s'.live[k] == if k < |s.live| then s.live[k] else h
  {
  }

  lemma GrantedCoherent(s: State, s': State, h: Handle)
    requires Coherent(s) && h.key.fs != 0 && 0 < h.id <= |s.t| && s'.live == s.live + [h]
    requires forall id :: 0 < id <= |s.t| ==> Holders(s'.live, id) == Holders(s.live, id) + (if id == h.id then 1 else 0)
    requires s'.t == s.t[h.id - 1 := Sem(h.key, if h.write then WRITER else Holders(s.live, h.id) + 1)]
    requires if Used(s.t[h.id - 1]) then !h.write && s.t[h.id - 1].key == h.key && s.t[h.id - 1].ctr < READERS
             else forall j :: 0 <= j < |s.t| ==> s.t[j].key != h.key
    ensures Coherent(s')
  {
    Appended(s, s', h);
    var i := h.id - 1;
    assert Counted(s.t[i], s.live, i + 1);
    forall k | 0 <= k < |s'.live| ensures Placed(s'.t, s'.live[k]) {
      if k < |s.live| {
        assert Placed(s.t, s.live[k]);
        HoldersAtLeast(s.live, k);
      }
    }
    forall j | 0 <= j < |s'.t| ensures Counted(s'.t[j], s'.live, j + 1) {
      assert Counted(s.t[j], s.live, j + 1);
    }
  }

  /** Closing a handle keeps the table coherent. */
  lemma CloseKeeps(s: State, k: nat)
    requires Coherent(s) && k < |s.live| && 0 < s.live[k].id <= |s.t|
    ensures Coherent(Next(s, Close(k)))
  {
    hide Holders;
    var s' := Next(s, Close(k));
    var h := s.live[k];
    PlacedAt(s, k);
    CountedAt(s, h.id - 1);
    HoldersAtLeast(s.live, k);
    forall id | 0 < id <= |s.t| ensures Holders(s'.live, id) == Holders(s.live, id) - (if id == h.id then 1 else 0) {
      HoldersWithout(s.live, k, id);
    }
    forall m | 0 <= m < |s'.live| ensures Placed(s'.t, s'.live[m]) {
      var j := if m < k then m else m + 1;
      assert s'.live[m] == s.live[j];
      PlacedAt(s, j);
      if s.live[j].id == h.id {
        HoldersAtLeast(s'.live, m);
      }
    }
    forall i | 0 <= i < |s'.t| ensures Counted(s'.t[i], s'.live, i + 1) { CountedAt(s, i); }
  }

  lemma {:induction false} OthersAre(live: seq<Handle>, fs: nat, id: nat)
    ensures forall k :: 0 <= k < |Others(live, fs)| ==> Others(live, fs)[k] in live && Others(live, fs)[k].key.fs != fs
    ensures (forall h :: h in live && h.id == id ==> h.key.fs == fs) ==> Holders(Others(live, fs), id) == 0
    ensures (forall h :: h in live && h.id == id ==> h.key.fs != fs) ==>
      Holders(Others(live, fs), id) == Holders(live, id)
  {
    if live != [] {
      assert forall h :: h in live[1..] ==> h in live;
      OthersAre(live[1..], fs, id);
      var a := if live[0].key.fs == fs then [] else [live[0]];
      HoldersAppend(a, Others(live[1..], fs), id);
      HoldersOne(live[0], id);
    }
  }

  /** Mounting a volume again drops its entries and its handles, and keeps those of the others. */
  lemma RemountKeeps(s: State, fs: nat)
    requires Coherent(s) && fs != 0
    ensures Coherent(Next(s, Remount(fs)))
  {
    hide Holders, Others;
    var s' := Next(s, Remount(fs));
    assert forall k :: 0 <= k < |s.live| ==> Placed(s.t, s.live[k]);
    OthersAre(s.live, fs, 0);
    forall k | 0 <= k < |s'.live| ensures Placed(s'.t, s'.live[k]) {
      assert Placed(s.t, s'.live[k]);
    }
    forall i | 0 <= i < |s'.t| ensures Counted(s'.t[i], s'.live, i + 1) {
      CountedAt(s, i);
      OthersAre(s.live, fs, i + 1);
      forall h | h in s.live && h.id == i + 1 ensures h.key == s.t[i].key { assert Placed(s.t, h); }
    }
  }

  /** Every proper request with room for its reader keeps the table coherent. */
  lemma StepKeeps(s: State, q: Request)
    requires Coherent(s) && Proper(s, q) && Roomy(s, q)
    ensures Coherent(Next(s, q))
  {
    hide Coherent;
    match q
    case Open(f, write) => OpenKeeps(s, f, write, false);
    case Create(f, write) => OpenKeeps(s, f, write, true);
    case Close(k) => CloseKeeps(s, k);
    case Remount(fs) => RemountKeeps(s, fs);
  }

  /** A run of requests leads from s to last. */
  predicate Run(s: State, qs: seq<Request>, last: State)
    decreases |qs|
  {
    if qs == [] then last == s
    else Proper(s, qs[0]) && Roomy(s, qs[0]) && Run(Next(s, qs[0]), qs[1..], last)
  }

  /** No file has two entries, a writer is alone, and each counter is the number of handles. */
  ghost predicate Safe(s: State)
  {
    && (forall i, j :: 0 <= i < j < |s.t| && Used(s.t[i]) ==> s.t[i].key != s.t[j].key)
    && (forall a, b :: 0 <= a < b < |s.live| && s.live[a].key == s.live[b].key ==> !s.live[a].write && !s.live[b].write)
    && (forall i :: 0 <= i < |s.t| ==> (Used(s.t[i]) <==> HasFile(s.live, s.t[i].key)))
    && (forall i :: 0 <= i < |s.t| && Used(s.t[i]) ==>
          s.t[i].ctr == if HasWriter(s.live, s.t[i].key) then WRITER else Readers(s.live, s.t[i].key))
  }

  lemma CoherentSafe(s: State)
    requires Coherent(s)
    ensures Safe(s)
  {
    hide Holders, Readers, Counted, Placed;
    forall a, b | 0 <= a < b < |s.live| && s.live[a].key == s.live[b].key ensures !s.live[a].write && !s.live[b].write {
      Exclusive(s, a, b);
    }
    forall i | 0 <= i < |s.t|
      ensures Used(s.t[i]) <==> HasFile(s.live, s.t[i].key)
      ensures Used(s.t[i]) ==> s.t[i].ctr == if HasWriter(s.live, s.t[i].key) then WRITER else Readers(s.live, s.t[i].key)
    {
      if Used(s.t[i]) {
        assert Find(s.t, s.t[i].key, 0) == i;
        EntryIff(s, s.t[i].key);
      } else {
        assert forall k :: 0 <= k < |s.live| ==> Placed(s.t, s.live[k]);
        forall k | 0 <= k < |s.live| ensures s.live[k].key != s.t[i].key { PlacedAt(s, k); }
      }
    }
  }

  /** Whatever is opened, created, closed and mounted again, from an empty table on, every state is safe. */
  lemma RunSafe(n: nat, qs: seq<Request>, last: State)
    requires Run(State(seq(n, i => Sem(Key(0, 0, 0), 0)), []), qs, last)
    ensures Coherent(last) && Safe(last)
  {
    var s := State(seq(n, i => Sem(Key(0, 0, 0), 0)), []);
    RunKeeps(s, qs, last);
    CoherentSafe(last);
  }

  lemma {:induction false} RunKeeps(s: State, qs: seq<Request>, last: State)
    requires Coherent(s) && Run(s, qs, last)
    ensures Coherent(last)
    decreases |qs|
  {
    hide Coherent;
    if qs != [] {
      StepKeeps(s, qs[0]);
      RunKeeps(Next(s, qs[0]), qs[1..], last);
    }
  }

  /** n readers of the file f, all with lock id 1. */
  function Crowd(f: Key, n: nat): (live: seq<Handle>)
    ensures |live| == n && forall k :: 0 <= k < n ==> live[k] == Handle(1, f, false)
  {
    if n == 0 then [] else [Handle(1, f, false)] + Crowd(f, n - 1)
  }

  lemma {:induction false} CrowdCount(f: Key, n: nat)
    ensures Holders(Crowd(f, n), 1) == n && Readers(Crowd(f, n), f) == n
  {
    if n > 0 {
      CrowdCount(f, n - 1);
      assert Crowd(f, n)[1..] == Crowd(f, n - 1);
    }
  }

  /** The 256th reader is let in, and the next close of any of them blanks the entry of a file that 255 others have open. */
  lemma TooManyReaders(f: Key)
    requires f.fs != 0
    ensures var s := State([Sem(f, READERS)], Crowd(f, READERS)); var (res, s') := Opened(s, f, false, false);
      && Coherent(s) && res == FR_OK && |s'.live| == READERS + 1
      && !Coherent(s') && s'.t[0].ctr == WRITER && !Used(Dec(s'.t, 1)[0])
  {
    hide Crowd, Holders, Readers;
    CrowdCount(f, READERS);
    var s := State([Sem(f, READERS)], Crowd(f, READERS));
    assert Counted(s.t[0], s.live, 1);
    OpenKeeps(s, f, false, false);
  }
}
