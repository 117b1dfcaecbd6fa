// Whole runs of operations on an open file, seen as operations on an array of bytes with a position.
module Session {
  import opened Words
  import opened FileImage
  import opened Layout
  import opened FileSystem
  import opened FileObject
  import Clusters
  import DirEntry
  import FatTable
  import FsInfo
  import LinkMap

  datatype Op = Read(n: nat) | Write(src: seq<Byte>) | Seek(ofs: Dword) | Sync(tim: Dword)

  datatype Bytes = Bytes(data: seq<Byte>, at: nat)

  /** What is permitted on the file; bound to a link map it does not grow beyond its clusters, and never beyond limit. */
  datatype Rules = Rules(canRead: bool, canWrite: bool, bound: bool, limit: nat)

  /** A finished operation: number of bytes moved, bytes delivered, state left behind. */
  datatype Event = Event(op: Op, moved: nat, got: seq<Byte>, after: Bytes)

  function Least(a: nat, b: nat): nat
  {
    if a <= b then a else b
  }

  /** What each operation means on a byte array; only the bytes a seek adds are left open. */
  predicate Step(r: Rules, s: Bytes, e: Event)
  {
    s.at <= |s.data| <= r.limit &&
    match e.op
    case Read(n) =>
      && e.moved == (if r.canRead then Least(n, |s.data| - s.at) else 0)
      && e.got == s.data[s.at..s.at + e.moved]
      && e.after == Bytes(s.data, s.at + e.moved)
    case Write(src) =>
      && e.moved == (if r.canWrite && |s.data| + |src| < 0x1_0000_0000 then Least(|src|, r.limit - s.at) else 0)
      && e.got == [] && e.after == Bytes(Splice(s.data, s.at, src[..e.moved]), s.at + e.moved)
    case Seek(ofs) =>
      && e.moved == 0 && e.got == []
      && e.after.at == Least(ofs, if r.canWrite && !r.bound then r.limit else |s.data|)
      && s.data <= e.after.data
      && |e.after.data| == |s.data| + (if e.after.at > |s.data| then e.after.at - |s.data| else 0)
    case Sync(tim) => e.moved == 0 && e.got == [] && e.after == s
  }

  /** A run of operations: each one continues where the previous one stopped. */
  predicate Run(r: Rules, s: Bytes, events: seq<Event>, last: Bytes)
    decreases |events|
  {
    if events == [] then last == s
    else Step(r, s, events[0]) && Run(r, events[0].after, events[1..], last)
  }

  lemma {:induction false} RunAppend(r: Rules, s: Bytes, events: seq<Event>, mid: Bytes, e: Event)
    requires Run(r, s, events, mid) && Step(r, mid, e)
    ensures Run(r, s, events + [e], e.after)
    decreases |events|
  {
    if events == [] {
      assert ([e])[1..] == [];
    } else {
      assert (events + [e])[1..] == events[1..] + [e];
      RunAppend(r, events[0].after, events[1..], mid, e);
    }
  }

  /** An offset of all ones does not move the position of a file that is bound to a link map. */
  predicate Legal(f: File, op: Op)
    reads f`cltbl
  {
    match op
    case Write(src) => |src| < 0x1_0000_0000
    case Seek(ofs) => f.cltbl == null || ofs < 0xFFFF_FFFF
    case _ => true
  }

  /** An open file on a mounted volume whose drive does not fail. */
  ghost predicate Working(f: File)
    reads f, f.buf, f.fs, f.fs.win, f.fs.dev, f.cltbl
  {
    && f.Validate() == FR_OK && f.fs.dev.reliable
    && (f.cltbl != null ==> f.mapped > 0)
    && f.Valid() && !Clusters.HasOne(f.fs.Table())
  }

  ghost function State(f: File): Bytes
    reads f
  {
    Bytes(f.data, f.fptr)
  }

  lemma NoOne(t: Clusters.Fat, p: seq<nat>, t': Clusters.Fat, q: seq<nat>)
    requires !Clusters.HasOne(t) && Clusters.Extends(t, p, t', q) && (q == [] || Clusters.Chain(t', q))
    ensures !Clusters.HasOne(t')
  {
    if Clusters.HasOne(t') { Clusters.ExtendsHasOne(t, p, t', q); }
  }

  /** The size the file can reach: its clusters, and the free ones unless it is bound to a link map. */
  ghost function Limit(f: File): nat
    reads f, f.fs, f.fs.win, f.fs.dev
    requires f.fs.Valid()
  {
    512 * Span(f.fs.geo, |f.chain| + if f.cltbl != null then 0 else Clusters.FreeCount(f.fs.Table()))
  }

  ghost function RulesOf(f: File): Rules
    reads f, f.fs, f.fs.win, f.fs.dev
    requires f.fs.Valid()
  {
    Rules(f.canRead, f.canWrite, f.cltbl != null, Limit(f))
  }

  /** The file lies within its limit, and reaches it where its clusters end if there are no others. */
  lemma WithinLimit(f: File)
    requires Working(f)
    ensures f.fs.Valid() && f.fptr <= |f.data| <= 512 * |f.Sects()| <= Limit(f) && |f.data| < 0x1_0000_0000
    ensures f.cltbl != null || Clusters.Full(f.fs.Table()) ==> Limit(f) == 512 * |f.Sects()|
  {
    hide File.Base, Volume.Valid, Volume.Table, OnDisk, Holds, Sectors, Clusters.HasOne;
    f.DataFits();
    SectorsLength(f.fs.geo, f.chain);
    Clusters.FullCount(f.fs.Table());
    ghost var free := Clusters.FreeCount(f.fs.Table());
    if free > 0 { SpanMono(f.fs.geo, |f.chain|, |f.chain| + free); }
  }

  /** Where f_write stops short, the clusters of the file end. */
  lemma StopsAtEnd(f: File)
    requires Working(f) && f.NoRoom(f.fptr)
    ensures f.fs.Valid() && f.fptr == Limit(f)
  {
    hide File.Base, Volume.Valid, Volume.Table, OnDisk, Holds, Sectors, Clusters.HasOne, ClusterIndex;
    WithinLimit(f);
    SectorsLength(f.fs.geo, f.chain);
    PositionBelow(f.fs.geo, f.fptr / 512, |f.chain|);
  }

  /** Growing takes as many clusters from the free ones as it adds to the chain; with a link map, a file does not grow. */
  lemma SameLimit(f: File, t: Clusters.Fat, c: seq<nat>)
    requires Working(f) && (c == [] || Clusters.Chain(t, c))
    requires Clusters.Extends(t, c, f.fs.Table(), f.chain) && (f.cltbl != null ==> f.mapped == |c|)
    ensures f.fs.Valid() && |f.chain| + Clusters.FreeCount(f.fs.Table()) == |c| + Clusters.FreeCount(t)
    ensures Limit(f) == 512 * Span(f.fs.geo, |c| + if f.cltbl != null then 0 else Clusters.FreeCount(t))
  {
    hide File.Base, Volume.Valid, Volume.Table, OnDisk, Holds, Sectors, Clusters.HasOne, Clusters.Extends,
      Clusters.Chain, Clusters.FreeCount, Span;
    f.BaseFacts();
    if f.cltbl != null { f.MapFacts(); }
    Clusters.ChainAndFree(t, c, f.fs.Table(), f.chain);
  }

  /** A link map that is not empty covers all clusters. */
  lemma MapWhole(f: File)
    requires Working(f)
    ensures f.cltbl != null ==> f.mapped == |f.chain|
    ensures f.chain == [] || (f.fs.Valid() && Clusters.Chain(f.fs.Table(), f.chain))
  {
    hide File.Base, Volume.Valid, Volume.Table, OnDisk, Holds, Sectors, Clusters.HasOne, Clusters.Chain;
    f.BaseFacts();
    if f.cltbl != null { f.MapFacts(); }
  }

  lemma Ready(f: File)
    requires Working(f)
    ensures f.fs.Valid()
  {
  }

  /** What every operation keeps: well-formed FATs, a right count of free clusters that stays known, the rules of the file. */
  twostate predicate Tended(f: File)
    reads f, f.fs, f.fs.win, f.fs.dev
  {
    && old(f.fs.Valid()) && f.fs.Valid() && RulesOf(f) == old(RulesOf(f))
    && f.fs.LoggedWellFormed() && f.fs.CountKept()
    && (old(f.fs.Tallied()) ==> f.fs.Tallied()) && (old(Saved(f)) ==> Saved(f))
  }

  // ----- what is on the drive -----

  /** On FAT32, mounting would take the count of free clusters from the sectors v, or none if none is known. */
  ghost predicate CountShown(g: Geometry, v: seq<Sector>, known: bool, free: nat)
  {
    g.fsType == Fat32 ==> g.fsiSector < |v| && FsInfo.Loaded(v[g.fsiSector]) == if known then free else UNKNOWN
  }

  /** The drive alone shows the contents, the FAT, size and start cluster of the file, and the free count. */
  ghost predicate OnDrive(f: File)
    reads f, f.fs, f.fs.win, f.fs.dev
  {
    f.Persistent() && CountShown(f.fs.geo, f.fs.dev.sectors, f.fs.freeClust != UNKNOWN, Clusters.FreeCount(f.fs.Table()))
  }

  /** Nothing waits in the window, and the sectors v show the entry of the file and the free count. */
  ghost predicate Unwritten(f: File, g: Geometry, v: seq<Sector>, known: bool, free: nat)
    reads f`fsize, f`sclust, f.fs`wflag
  {
    !f.fs.wflag && f.EntryShown(g.fsType, v, f.fsize, f.sclust) && CountShown(g, v, known, free)
  }

  /** A file that is not marked as changed has its entry and the free count up to date, with nothing left to write. */
  ghost predicate Saved(f: File)
    reads f, f.fs, f.fs.win, f.fs.dev
  {
    && f.fs.Valid() && f.fs.Counted() && f.fs.Tallied()
    && (f.written || Unwritten(f, f.fs.geo, f.fs.View(), f.fs.freeClust != UNKNOWN, Clusters.FreeCount(f.fs.Table())))
  }

  /** What was saved and is not marked as changed is on the drive. */
  lemma SavedOnDrive(f: File)
    requires Working(f) && Saved(f) && !f.written
    ensures OnDrive(f)
  {
    hide Volume.Table, Sectors, Clusters.WellFormed, Clusters.Chain, Clusters.HasOne, IsPow2, Clusters.FreeCount,
      LinkMap.Describes, FatTable.FatOf, FsInfo.Loaded, File.ReadyAt;
    f.BaseFacts();
    f.fs.FlushedTable();
    f.EntrySectorApart();
    CleanImage(f.fs.dev.sectors, f.Sects(), f.dsect, f.pos, f.buf[..], f.data);
    if f.fs.geo.fsType == Fat32 { f.fs.InfoApart(); }
  }

  /** What f_sync stored is saved. */
  lemma SyncedSaved(f: File)
    requires Working(f) && f.Persistent() && f.fs.Counted() && f.fs.Tallied() && (f.fs.geo.fsType == Fat32 ==> !f.fs.fsiFlag)
    ensures Saved(f)
  {
    hide Volume.Table, Sectors, Clusters.WellFormed, Clusters.Chain, Clusters.HasOne, IsPow2, Clusters.FreeCount,
      LinkMap.Describes, FatTable.FatOf, FsInfo.Loaded, File.ReadyAt, Holds;
    f.EntrySectorApart();
    if f.fs.geo.fsType == Fat32 { f.fs.InfoApart(); }
  }

  /** What is saved, in terms of the picture a client has of the volume. */
  lemma SavedParts(f: File)
    requires Saved(f)
    ensures f.fs.Valid() && f.fs.Snap().counted && f.fs.Snap().tallied
    ensures f.written || Unwritten(f, f.fs.Snap().geo, f.fs.Snap().view, f.fs.Snap().known, Clusters.FreeCount(f.fs.Table()))
  {
    hide Volume.Valid, Volume.Table, Volume.View, Clusters.FreeCount, Unwritten;
  }

  /** An operation that did not change the file leaves it saved; a is the volume before it, with free clusters left. */
  lemma StaysSaved(f: File, a: Shot, free: nat)
    requires Working(f) && SameBut(a, f.fs.Snap(), f.Sects()) && a.counted && a.tallied
    requires f.written || (Unwritten(f, a.geo, a.view, a.known, free) && Clusters.FreeCount(f.fs.Table()) == free)
    ensures Saved(f)
  {
    hide Volume.Table, Sectors, Clusters.WellFormed, Clusters.Chain, Clusters.HasOne, IsPow2, Clusters.FreeCount,
      LinkMap.Describes, FatTable.FatOf, FsInfo.Loaded, File.ReadyAt, Holds;
    f.EntrySectorApart();
    f.BaseFacts();
    if f.fs.geo.fsType == Fat32 { f.fs.InfoApart(); }
  }

  method DoRead(f: File, n: nat) returns (ghost e: Event)
    requires Working(f)
    modifies f`clust, f`dirty, f`dsect, f`pos, f`fptr, f`error, f.buf, f.fs.dev`sectors, f.fs.win, f.fs`wflag,
      f.fs`winsect
    ensures e.op == Read(n) && Step(old(RulesOf(f)), old(State(f)), e) && e.after == State(f)
    ensures Working(f) && Tended(f)
  {
    hide Volume.Counted, Volume.Sane, Clusters.WellFormed, Volume.Tallied, CountShown,
      File.EntryShown, Saved, Sectors, Volume.View, Sound, File.Base, Clusters.Full, Volume.Valid, Volume.Table,
      File.ReadyAt, Clusters.HasOne, OnDisk, Holds, SameBut, Volume.Snap, Clusters.FreeCount, AllWell, Span;
    WithinLimit(f);
    var buff := new Byte[n];
    AllWellSelf(f.fs.log);
    ghost var saved, a, free := Saved(f), f.fs.Snap(), Clusters.FreeCount(f.fs.Table());
    if saved { SavedParts(f); }
    var res, br := f.Read(buff, n);
    if res == FR_OK {
      f.fs.SnapView(f.Sects());
      if saved { StaysSaved(f, a, free); }
    }
    e := Event(Read(n), br, buff[..br], State(f));
  }

  method DoWrite(f: File, src: seq<Byte>) returns (ghost e: Event)
    requires Working(f) && |src| < 0x1_0000_0000
    modifies f`chain, f`sclust, f`clust, f`dirty, f`dsect, f`pos, f`data, f`fptr, f`fsize, f`written, f`error, f.buf,
      f.fs.dev`sectors, f.fs.win, f.fs`wflag, f.fs`winsect, f.fs`log, f.fs`freeClust, f.fs`fsiFlag, f.fs`lastClust,
      f.fs`strayed
    ensures e.op == Write(src) && Step(old(RulesOf(f)), old(State(f)), e) && e.after == State(f)
    ensures Working(f) && Tended(f)
  {
    hide Volume.Sane, Volume.Counted, Volume.Tallied, CountShown, File.EntryShown, Saved, Sectors, Sound, File.Base,
      Volume.Valid, Volume.Table, File.ReadyAt, Clusters.HasOne, OnDisk, Holds, Clusters.Extends, Splice,
      Clusters.Chain, Clusters.Full, SameBut, Volume.Snap, Clusters.FreeCount, AllWell, ClusterIndex, Span, File.NoRoom;
    ghost var t, c, s := f.fs.Table(), f.chain, State(f);
    WithinLimit(f);
    MapWhole(f);
    ghost var saved, a, free := Saved(f), f.fs.Snap(), Clusters.FreeCount(t);
    if saved { SavedParts(f); }
    SpliceNothing(s.data, s.at);
    var res, bw := f.Write(src);
    f.BaseFacts();
    if res == FR_OK {
      NoOne(t, c, f.fs.Table(), f.chain);
      f.fs.SnapView(f.Sects());
      if saved { StaysSaved(f, a, free); }
      SameLimit(f, t, c);
      WithinLimit(f);
      if bw < |src| && f.NoRoom(f.fptr) { StopsAtEnd(f); }
    }
    assert src[..0] == [];
    e := Event(Write(src), bw, [], State(f));
  }

  /** A complete link map reaches every byte of the file. */
  lemma MapReaches(f: File)
    requires f.cltbl != null && f.mapped > 0
    requires f.Valid()
    ensures forall p: nat {:trigger (p - 1) / 512} :: 0 < p <= f.fsize && f.fs.geo.csize > 0 ==>
      ClusterIndex(f.fs.geo, (p - 1) / 512) < f.mapped
  {
    hide File.Base, Volume.Valid, Volume.Table, OnDisk, Holds, ClusterIndex;
    f.MapFacts();
    f.DataFits();
    forall p: nat {:trigger (p - 1) / 512} | 0 < p <= f.fsize && f.fs.geo.csize > 0
      ensures ClusterIndex(f.fs.geo, (p - 1) / 512) < f.mapped
    {
      f.FastFacts((p - 1) / 512);
    }
  }

  method DoSeek(f: File, ofs: Dword) returns (ghost e: Event)
    requires Working(f) && (f.cltbl == null || ofs < 0xFFFF_FFFF)
    modifies f`chain, f`sclust, f`clust, f`dirty, f`dsect, f`pos, f`data, f`fptr, f`fsize, f`written, f`error, f`built,
      f`mapped, f.buf, f.cltbl, f.fs.dev`sectors, f.fs.win, f.fs`wflag, f.fs`winsect, f.fs`log, f.fs`freeClust,
      f.fs`fsiFlag, f.fs`lastClust, f.fs`strayed
    ensures e.op == Seek(ofs) && Step(old(RulesOf(f)), old(State(f)), e) && e.after == State(f)
    ensures Working(f) && Tended(f)
  {
    hide Volume.Tallied, CountShown, File.EntryShown, Saved, Span, Sound, Volume.View, File.Base, Clusters.Full,
      Volume.Valid, Volume.Table, Clusters.HasOne, OnDisk, Holds, Clusters.Extends, Splice, Clusters.Chain, File.NoRoom,
      ClusterIndex, Sectors, Image, Distinct, SameBut, Volume.Snap, Clusters.FreeCount, AllWell;
    ghost var t, c := f.fs.Table(), f.chain;
    WithinLimit(f);
    MapWhole(f);
    ghost var saved, a, free := Saved(f), f.fs.Snap(), Clusters.FreeCount(t);
    if saved { SavedParts(f); }
    f.BaseStart();
    if f.cltbl != null { MapReaches(f); }
    var res := f.Seek(ofs);
    f.BaseFacts();
    NoOne(t, c, f.fs.Table(), f.chain);
    f.fs.SnapView(f.Sects());
    SameLimit(f, t, c);
    f.BaseStart();
    if saved { StaysSaved(f, a, free); }
    WithinLimit(f);
    e := Event(Seek(ofs), 0, [], State(f));
  }

  method DoSync(f: File, tim: Dword) returns (ghost e: Event)
    requires Working(f)
    modifies f`dirty, f`written, f.fs.dev`sectors, f.fs.win, f.fs`wflag, f.fs`fsiFlag, f.fs`winsect
    ensures e.op == Sync(tim) && Step(old(RulesOf(f)), old(State(f)), e) && e.after == State(f)
    ensures !f.written && (old(f.written) ==> f.Persistent())
    ensures Working(f) && Tended(f)
  {
    hide Volume.Tallied, CountShown, File.EntryShown, Sectors, Span, Sound, Clusters.WellFormed, File.Base,
      Clusters.Full, Volume.Valid, Volume.Table, Clusters.HasOne, OnDisk, Holds, File.Positioned, File.Persistent,
      Clusters.FreeCount, AllWell;
    AllWellSelf(f.fs.log);
    WithinLimit(f);
    ghost var saved, w := Saved(f), f.written;
    var res := f.Sync(tim);
    if saved && w { SyncedSaved(f); }
    e := Event(Sync(tim), 0, [], State(f));
  }

  method Do(f: File, op: Op) returns (ghost e: Event)
    requires Working(f) && Legal(f, op)
    modifies f`chain, f`sclust, f`clust, f`dirty, f`dsect, f`pos, f`data, f`fptr, f`fsize, f`written, f`error, f`built,
      f`mapped, f.buf, f.cltbl, f.fs.dev`sectors, f.fs.win, f.fs`wflag, f.fs`winsect, f.fs`log, f.fs`freeClust,
      f.fs`fsiFlag, f.fs`lastClust, f.fs`strayed
    ensures e.op == op && Step(old(RulesOf(f)), old(State(f)), e) && e.after == State(f)
    ensures Working(f) && Tended(f) && (op.Sync? ==> !f.written)
  {
    hide Working, Step, Tended, Volume.Valid;
    Ready(f);
    match op {
      case Read(n) => e := DoRead(f, n);
      case Write(src) => e := DoWrite(f, src);
      case Seek(ofs) => e := DoSeek(f, ofs);
      case Sync(tim) => e := DoSync(f, tim);
    }
  }

  /**
   * Any run of reads, writes, seeks and syncs succeeds and is a run of the corresponding operations on an array of
   * bytes with a position, whose size is limited by the clusters of the file and those that were free at the start. Every
   * FAT on the way is well-formed.
   */
  method Perform(f: File, ops: seq<Op>) returns (ghost trace: seq<Event>)
    requires Working(f) && forall i :: 0 <= i < |ops| ==> Legal(f, ops[i])
    modifies f`chain, f`sclust, f`clust, f`dirty, f`dsect, f`pos, f`data, f`fptr, f`fsize, f`written, f`error, f`built,
      f`mapped, f.buf, f.cltbl, f.fs.dev`sectors, f.fs.win, f.fs`wflag, f.fs`winsect, f.fs`log, f.fs`freeClust,
      f.fs`fsiFlag, f.fs`lastClust, f.fs`strayed
    ensures Working(f) && Tended(f)
    ensures |trace| == |ops| && forall i :: 0 <= i < |ops| ==> trace[i].op == ops[i]
    ensures Run(old(RulesOf(f)), old(State(f)), trace, State(f))
    // what ends with f_sync is on the drive, if what it started from was saved
    ensures ops != [] && ops[|ops| - 1].Sync? && old(Saved(f)) ==> OnDrive(f)
  {
    hide Saved, OnDrive, Volume.Counted, Working, Step, Volume.Valid, AllWell, Limit;
    Ready(f);
    trace := [];
    AllWellSelf(f.fs.log);
    for i := 0 to |ops|
      invariant Working(f) && Tended(f) && |trace| == i && forall k :: 0 <= k < i ==> trace[k].op == ops[k]
      invariant Run(old(RulesOf(f)), old(State(f)), trace, State(f))
      invariant i > 0 && ops[i - 1].Sync? ==> !f.written
    {
      ghost var s, log := State(f), f.fs.log;
      ghost var e := Do(f, ops[i]);
      AllWellTrans(old(f.fs.log), log, f.fs.log);
      RunAppend(old(RulesOf(f)), old(State(f)), trace, s, e);
      trace := trace + [e];
    }
    if Saved(f) && !f.written { SavedOnDrive(f); }
  }

  // ----- f_truncate does not look after buffer and link map -----

  /** Within a chain no link leads to the first cluster. */
  lemma NotFirst(t: Clusters.Fat, q: seq<nat>, b: nat)
    requires Clusters.Chain(t, q) && forall i, j :: 0 <= i < j < |q| ==> q[i] != q[j]
    ensures b in q ==> b < |t| && t[b] != q[0]
  {
    if b in q {
      var i :| 0 <= i < |q| && q[i] == b;
      if i + 1 < |q| { assert t[q[i]] == q[i + 1]; }
    }
  }

  /** Growth makes no new predecessor of the first cluster. */
  lemma StaysHead(t: Clusters.Fat, p: seq<nat>, t': Clusters.Fat, q: seq<nat>)
    requires Clusters.Extends(t, p, t', q) && p != [] && Clusters.IsHead(t, p[0])
    requires Clusters.WellFormed(t') && Clusters.Chain(t', q)
    ensures q != [] && q[0] == p[0] && Clusters.IsHead(t', q[0])
  {
    Clusters.PathsDistinct(t', q);
    forall b: nat
      ensures !Clusters.Link(t', b, q[0])
    {
      if Clusters.Link(t', b, q[0]) {
        NotFirst(t', q, b);
        assert Clusters.Link(t, b, p[0]);
      }
    }
  }

  /**
   * A file of two one-sector clusters: after a seek to byte 513 and back to byte 512, the buffer holds the second
   * sector still, and f_truncate gives that sector up.
   */
  method StaleBuffer(f: File)
    requires Working(f) && f.cltbl == null && f.canWrite && f.fs.geo.csize == 1 && f.fsize == 1024
    requires f.chain != [] && Clusters.IsHead(f.fs.Table(), f.sclust)
    modifies f`chain, f`sclust, f`clust, f`dirty, f`dsect, f`pos, f`data, f`fptr, f`fsize, f`written, f`error, f`built,
      f`mapped, f.buf, f.cltbl, f.fs.dev`sectors, f.fs.win, f.fs`wflag, f.fs`winsect, f.fs`log, f.fs`freeClust,
      f.fs`fsiFlag, f.fs`lastClust, f.fs`strayed
    ensures f.fsize == 512 && !f.error && !f.Open()
  {
    hide File.Base, Clusters.Full, Volume.Valid, Volume.Table, Clusters.HasOne, OnDisk, Holds, Clusters.Extends,
      Clusters.Chain, File.NoRoom, Sectors, Image, Distinct, SameBut, Volume.Snap, Clusters.FreeCount, AllWell,
      Clusters.WellFormed, Clusters.IsHead, Clusters.Released, ClusterIndex, Span, File.Spared;
    f.BaseStart();
    ghost var t, c := f.fs.Table(), f.chain;
    var res := f.Seek(513);
    f.BaseFacts();
    f.BaseWell();
    NoOne(t, c, f.fs.Table(), f.chain);
    StaysHead(t, c, f.fs.Table(), f.chain);
    f.BaseStart();
    t, c := f.fs.Table(), f.chain;
    SecondBuffered(f);
    res := f.Seek(512);
    f.BaseFacts();
    f.BaseWell();
    StaysHead(t, c, f.fs.Table(), f.chain);
    f.BaseStart();
    NotSpared(f);
    res := f.Truncate();
  }

  /** Likewise, a link map built for both clusters describes a cluster that f_truncate at byte 1 gives up. */
  method StaleMap(f: File)
    requires f.Validate() == FR_OK && f.fs.dev.reliable && f.canWrite && f.fs.geo.csize == 1 && f.fsize == 1024
    requires f.cltbl != null && 0 < f.cltbl.Length && LinkMap.ItemsNeeded(f.chain) <= f.cltbl[0] <= f.cltbl.Length
    requires f.Open() && !f.MarkFollows(f.fs.Table(), f.chain) && Clusters.IsHead(f.fs.Table(), f.sclust)
    modifies f`chain, f`sclust, f`clust, f`dirty, f`dsect, f`pos, f`data, f`fptr, f`fsize, f`written, f`error, f`built,
      f`mapped, f.buf, f.cltbl, f.fs.dev`sectors, f.fs.win, f.fs`wflag, f.fs`winsect, f.fs`log, f.fs`freeClust,
      f.fs`fsiFlag, f.fs`lastClust, f.fs`strayed
    ensures f.fsize == 1 && !f.error && !f.Open()
  {
    hide File.Base, Clusters.Full, Volume.Valid, Volume.Table, Clusters.HasOne, OnDisk, Holds, Clusters.Extends,
      Clusters.Chain, File.NoRoom, Sectors, Image, Distinct, SameBut, Volume.Snap, Clusters.FreeCount, AllWell,
      Clusters.WellFormed, Clusters.IsHead, LinkMap.ItemsNeeded, File.MarkFollows, Clusters.Released, ClusterIndex,
      Span, File.Spared;
    f.BaseStart();
    TwoClusters(f);
    ghost var t, c := f.fs.Table(), f.chain;
    var res := f.Seek(f.CREATE_LINKMAP);
    f.BaseFacts();
    f.BaseWell();
    StaysHead(t, c, f.fs.Table(), f.chain);
    t := f.fs.Table();
    MapReaches(f);
    res := f.Seek(1);
    f.BaseFacts();
    f.BaseWell();
    StaysHead(t, c, f.fs.Table(), f.chain);
    f.BaseStart();
    MapTooLong(f);
    res := f.Truncate();
  }

  lemma TwoClusters(f: File)
    requires f.fs.geo.csize == 1 && f.fsize == 1024
    requires f.Open()
    ensures |f.chain| >= 2
  {
    hide File.Base, Sectors;
    f.DataFits();
    SectorsLength(f.fs.geo, f.chain);
    assert Span(f.fs.geo, |f.chain|) == |f.chain|;
  }

  lemma MapTooLong(f: File)
    requires f.fs.geo.csize == 1 && f.fptr == 1 && f.fsize == 1024 && f.cltbl != null && f.built && f.mapped >= 2
    ensures !f.Spared(f.Kept())
  {
    assert f.Kept() == 1;
  }
  lemma NotSpared(f: File)
    requires f.fs.geo.csize == 1 && f.fptr == 512 && f.fsize == 1024 && f.dsect != 0 && f.pos == 1
    ensures !f.Spared(f.Kept())
  {
    assert f.Kept() == 1 && Span(f.fs.geo, 1) == 1;
  }

  lemma SecondBuffered(f: File)
    requires f.Valid() && f.fptr == 513
    ensures f.dsect != 0 && f.pos == 1
  {
    hide Volume.Valid, Volume.Table, Sectors, Holds, Clusters.WellFormed, Clusters.Chain;
    f.BaseFacts();
  }

  /** f_truncate leaves the object usable, and there is something to store. */
  ghost predicate Trimmable(f: File)
    reads f, f.buf, f.fs, f.fs.win, f.fs.dev, f.cltbl
  {
    && f.Validate() == FR_OK && f.canWrite && f.fs.dev.reliable && (f.written || f.fsize > f.fptr)
    && f.Open() && Clusters.IsHead(f.fs.Table(), f.sclust) && f.Spared(f.Kept())
    && f.fs.Counted() && f.fs.Tallied()
  }

  /** Number of free clusters of a volume. */
  ghost function FreeIn(v: Volume): nat
    reads v, v.win, v.dev
  {
    if v.Valid() then Clusters.FreeCount(v.Table()) else 0
  }

  /**
   * f_truncate and f_sync: where the object stays usable, the drive alone shows the bytes that are left, and on FAT32
   * a free count that the clusters given up are part of.
   */
  method TruncateAndSync(f: File, tim: Dword) returns (res: FResult)
    requires Trimmable(f)
    modifies f`fsize, f`written, f`dirty, f`error, f`sclust, f`chain, f`data, f.fs.dev`sectors, f.fs.win, f.fs`wflag,
      f.fs`winsect, f.fs`log, f.fs`freeClust, f.fs`fsiFlag
    ensures res == FR_OK && f.fsize == f.fptr && f.data == old(f.data)[..f.fptr] && f.chain <= old(f.chain)
    ensures FreeIn(f.fs) == old(FreeIn(f.fs)) + |old(f.chain)| - |f.chain|
    ensures OnDrive(f) && (f.fs.freeClust == UNKNOWN <==> old(f.fs.freeClust) == UNKNOWN)
  {
    hide File.Base, Clusters.Full, Volume.Valid, Volume.Table, Clusters.HasOne, OnDisk, Holds, Clusters.Extends,
      Clusters.Chain, File.NoRoom, Sectors, Image, Distinct, SameBut, Volume.Snap, Clusters.FreeCount, AllWell,
      Clusters.WellFormed, Clusters.IsHead, Clusters.Released, ClusterIndex, Span, File.Spared, Volume.View, File.Persistent,
      FsInfo.Loaded;
    res := f.Truncate();
    if f.fs.FatOnly() { f.fs.SnapView([]); }
    res := f.Sync(tim);
    StoredOnDrive(f);
  }

  /** What f_sync stored is on the drive. */
  lemma StoredOnDrive(f: File)
    requires f.Persistent() && f.fs.Counted() && f.fs.Tallied() && (f.fs.geo.fsType == Fat32 ==> !f.fs.fsiFlag)
    ensures OnDrive(f)
  {
    hide Volume.Valid, Volume.Table, Volume.View, FatTable.FatOf, FsInfo.Loaded, Holds, Clusters.FreeCount, Sectors;
    if f.fs.geo.fsType == Fat32 { f.fs.CountStored(); }
  }

  /**
   * After f_sync of a changed file, opening the file anew from what its directory entry says on the drive
   * yields the same contents.
   */
  method Reopen(f: File, tim: Dword, read: bool, write: bool) returns (res: FResult, g: File?)
    requires f.written && f.Validate() == FR_OK
    requires f.Open()
    modifies f`dirty, f`written, f.fs.dev`sectors, f.fs.win, f.fs`wflag, f.fs`fsiFlag, f.fs`winsect
    ensures res == FR_OK || (res == FR_DISK_ERR && !f.fs.dev.reliable)
    ensures res == FR_OK ==> g != null && fresh(g) && g.fs == f.fs && g.fptr == 0
    ensures res == FR_OK ==> g.data == old(f.data) && g.chain == old(f.chain) && g.Valid()
  {
    hide Volume.Valid, Volume.Table, OnDisk, Holds, Sectors, Clusters.WellFormed, Clusters.Chain, File.Positioned;
    g := null;
    res := f.Sync(tim);
    if res == FR_OK {
      var entry := f.fs.dev.sectors[f.dirSect];
      var start := DirEntry.LdClust(f.fs.geo.fsType, entry, f.dirPtr);
      var size := DirEntry.FileSize(entry, f.dirPtr);
      g := new File(f.fs, f.dirSect, f.dirPtr, f.dirClust, read, write, start, size, f.chain, f.data);
    }
  }
}
