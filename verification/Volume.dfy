// The file system object: a write-back sector window over the drive, and FAT access through it.
module FileSystem {
  import opened Words
  import opened Layout
  import opened FatTable
  import opened Clusters
  import FsInfo
  import Disk

  datatype FResult = FR_OK | FR_DISK_ERR | FR_INT_ERR | FR_NOT_READY | FR_NO_FILE | FR_INVALID_NAME
    | FR_DENIED | FR_INVALID_OBJECT | FR_NO_FILESYSTEM | FR_MKFS_ABORTED | FR_LOCKED
    | FR_NOT_ENOUGH_CORE | FR_TOO_MANY_OPEN_FILES | FR_INVALID_PARAMETER | FR_EXIST

  const DISK_ERROR: nat := 0xFFFF_FFFF
  const UNKNOWN: nat := 0xFFFF_FFFF

  /** l1 continues l0 by well-formed tables only. */
  ghost predicate AllWell(l0: seq<Fat>, l1: seq<Fat>)
  {
    l0 <= l1 && forall k :: |l0| <= k < |l1| ==> WellFormed(l1[k])
  }

  lemma AllWellTrans(l0: seq<Fat>, l1: seq<Fat>, l2: seq<Fat>)
    requires AllWell(l0, l1) && AllWell(l1, l2)
    ensures AllWell(l0, l2)
  {
    hide WellFormed;
    assert forall k :: |l0| <= k < |l1| ==> l2[k] == l1[k];
  }

  lemma AllWellSelf(l: seq<Fat>)
    ensures AllWell(l, l)
  {
  }

  /** What a client of the volume sees of it. */
  datatype Shot = Shot(geo: Geometry, view: seq<Sector>, winsect: nat, valid: bool, counted: bool, known: bool,
    tallied: bool)

  /**
   * Only the FAT and the sectors s changed in the view, the count of free clusters is as right as before and as well
   * remembered, and the window shows what it showed, none of the data area, or one of the sectors s.
   */
  ghost predicate SameBut(a: Shot, b: Shot, s: seq<nat>)
  {
    && a.valid && b.valid && a.geo == b.geo
    && SameElsewhere(a.geo, a.view, b.view, s)
    && (a.counted ==> b.counted && (b.known <==> a.known)) && (a.tallied ==> b.tallied)
    && (b.winsect == a.winsect || b.winsect < a.geo.database || b.winsect in s)
  }

  lemma SameButTrans(a: Shot, b: Shot, c: Shot, s: seq<nat>, s': seq<nat>)
    requires SameBut(a, b, s) && SameBut(b, c, s') && forall x :: x in s ==> x in s'
    ensures SameBut(a, c, s')
  {
  }

  class Volume {
    const dev: Disk.Drive
    const win: array<Byte>
    var mounted: bool
    var id: nat                 // mount ID
    var geo: Geometry
    var wflag: bool
    var fsiFlag: bool
    var lastClust: Dword
    var freeClust: Dword
    var winsect: nat
    var strayed: bool           // create_chain went on after it failed to read the status of a cluster; not a member of FATFS
    ghost var mirrored: bool    // the FAT copies agreed when the volume was mounted
    ghost var log: seq<Fat>     // the FAT after every put_fat

    constructor (d: Disk.Drive)
      ensures dev == d && fresh(win) && win.Length == 512 && !mounted
    {
      dev := d;
      win := new Byte[512](_ => 0);
      mounted, id := false, 0;
      wflag, fsiFlag, lastClust, freeClust, winsect := false, false, 0, UNKNOWN, 0;
      strayed, log, mirrored := false, [], false;
    }

    /** The disk contents the file system works on: the drive overlaid with the window. */
    ghost function View(): seq<Sector>
      reads this, win, dev
      requires win.Length == 512
    {
      Overlay(geo, dev.sectors, winsect, win[..])
    }

    /** The geometry is sound and the window lies on the drive; a failed transfer keeps that, if not more. */
    ghost predicate Sane()
      reads this, win, dev
    {
      && win.Length == 512
      && Sound(geo, |dev.sectors|)
      && 3 <= geo.nFatent <= EndMark(geo.fsType)
      && winsect < |dev.sectors|
      && !IsMirror(geo, winsect)
    }

    /** The window agrees with the drive, and so do the FAT copies. */
    ghost predicate Valid()
      reads this, win, dev
      ensures Valid() ==> Sane()
    {
      && Sane()
      && (wflag ==> geo.fatbase <= winsect)
      && (!wflag && winsect != 0 ==> win[..] == dev.sectors[winsect])
      && (mirrored && dev.reliable ==> CopiesAgree(geo, dev.sectors, if wflag then winsect else 0))
    }

    /** The FAT entries, as decoded from the view. */
    ghost function Table(): Fat
      reads this, win, dev
      requires Valid()
    {
      FatOf(geo, View())
    }

    /** Frame of the operations on the window: the data area of the drive, a written-back window aside. */
    twostate predicate Framed()
      reads this, dev
    {
      && |dev.sectors| == |old(dev.sectors)|
      && forall s :: geo.database <= s < |dev.sectors| && s != old(winsect) ==>
           dev.sectors[s] == old(dev.sectors)[s]
    }

    /** The write-back half of move_window. */
    method WriteBack() returns (res: FResult)
      requires Sane() && wflag
      modifies dev`sectors, `wflag
      ensures res == FR_OK || (res == FR_DISK_ERR && !dev.reliable && dev.sectors == old(dev.sectors) && wflag)
      ensures res == FR_OK ==> !wflag && Framed()
      ensures res == FR_OK && geo.fatbase <= winsect ==> WroteBack(geo, old(dev.sectors), dev.sectors, winsect, win[..])
      ensures Sane() && (old(Valid()) ==> Valid())
    {
      hide IsPow2, MaxFatent, CopiesAgree;
      ghost var d0 := dev.sectors;
      var wsect := winsect;
      var ok := dev.Write(win, wsect);
      if !ok { return FR_DISK_ERR; }
      wflag := false;
      if wsect < geo.fatbase + geo.fsize {
        var nf := geo.nFats;
        while nf > 1
          invariant 1 <= nf <= geo.nFats && !wflag && Framed()
          invariant wsect == if nf == geo.nFats then winsect else winsect + geo.fsize
          invariant geo.fatbase <= winsect ==> WroteBack(geo, old(dev.sectors), dev.sectors, winsect, win[..])
          invariant dev.reliable ==> forall s :: 0 <= s < |dev.sectors| && IsMirror(geo, s) ==>
            dev.sectors[s] == if nf == 1 && s == wsect then win[..] else old(dev.sectors)[s]
        {
          wsect := wsect + geo.fsize;
          var _ := dev.Write(win, wsect);   // the result of a mirror write is ignored
          nf := nf - 1;
        }
      }
      if mirrored && dev.reliable && geo.fatbase <= winsect && CopiesAgree(geo, d0, winsect) {
        MirrorStep(geo, d0, dev.sectors, winsect, win[..]);
      }
      return FR_OK;
    }

    /** What validity means to a client that treats it as a black box. */
    lemma Facts()
      requires Valid()
      ensures win.Length == 512 && Sound(geo, |dev.sectors|) && winsect < |dev.sectors| < 0x1_0000_0000
      ensures |Table()| == geo.nFatent && 3 <= geo.nFatent < 0x1000_0000 && geo.nFatent <= EndMark(geo.fsType)
    {
    }

    /** Data sectors were written past the window: the file system structures are as before. */
    twostate lemma DataWritten()
      requires old(Valid()) && unchanged(this) && unchanged(win) && |dev.sectors| == |old(dev.sectors)|
      requires forall s :: 0 <= s < |dev.sectors| && (s < geo.database || s == winsect) ==>
        dev.sectors[s] == old(dev.sectors)[s]
      ensures Valid() && Table() == old(Table())
    {
      hide IsPow2, Span;
      assert win[..] == old(win[..]);
      FatOfFrame(geo, old(View()), View());
      if CopiesAgree(geo, old(dev.sectors), if wflag then winsect else 0) {
        CopiesFrame(geo, old(dev.sectors), dev.sectors, if wflag then winsect else 0, |dev.sectors|);
      }
    }

    /** Bring a sector into the window, writing a dirty window back first; 0 only writes back. */
    method MoveWindow(sector: nat) returns (res: FResult)
      requires Sane() && !IsMirror(geo, sector) && sector < |dev.sectors|
      modifies dev`sectors, win, `wflag, `winsect
      ensures |dev.sectors| == |old(dev.sectors)|
      ensures res == FR_OK || (res == FR_DISK_ERR && !dev.reliable)
      ensures Sane() && (old(Valid()) && (res == FR_OK || wflag) ==> Valid() && View() == old(View()))
      ensures winsect == if res != FR_OK || sector == 0 then old(winsect) else sector
      ensures sector == 0 ==> win[..] == old(win[..])
      ensures res == FR_OK && sector != old(winsect) ==> !wflag
      ensures res == FR_OK && sector == old(winsect) ==> wflag == old(wflag)
      ensures !old(wflag) ==> !wflag
      ensures Framed()
      ensures old(wflag ==> geo.fatbase <= winsect) ==>
        forall s :: 0 <= s < |dev.sectors| && s != old(winsect) && !IsMirror(geo, s) ==> dev.sectors[s] == old(dev.sectors)[s]
    {
      hide IsPow2, EndSector, MaxFatent, CopiesAgree;
      ghost var proper := Valid();
      if winsect != sector {
        ghost var w, data, d0 := winsect, win[..], dev.sectors;
        if wflag {
          res := WriteBack();
          if res != FR_OK { return; }
          if proper { WriteBackView(geo, d0, dev.sectors, w, data, w); }
        }
        if sector != 0 {
          var ok := dev.Read(win, sector);
          if !ok { return FR_DISK_ERR; }
          winsect := sector;
          if proper { CleanView(geo, dev.sectors, w, data, sector); }
        }
      }
      return FR_OK;
    }

    /** Bring a FAT sector into the window. */
    method ToFatSector(sect: nat) returns (ok: bool)
      requires Sane() && InFat(geo, sect) && sect < |dev.sectors|
      modifies dev`sectors, win, `wflag, `winsect
      ensures !old(wflag) ==> !wflag
      ensures Framed()
      ensures dev.reliable ==> ok
      ensures ok ==> winsect == sect && View()[sect] == win[..]
      ensures winsect == old(winsect) || winsect < geo.database
      ensures Sane() && (old(Valid()) && (ok || wflag) ==> Valid() && View() == old(View()))
    {
      hide IsPow2, MaxFatent, CopiesAgree;
      var res := MoveWindow(sect);
      ok := res == FR_OK;
    }

    /** Bring the FAT sector holding byte i of the FAT into the window. */
    method ToFat(i: nat) returns (ok: bool)
      requires Sane() && ByteInFat(geo, i, |dev.sectors|)
      modifies dev`sectors, win, `wflag, `winsect
      ensures !old(wflag) ==> !wflag
      ensures Framed()
      ensures dev.reliable ==> ok
      ensures ok ==> winsect == FatSector(geo, i) && InFat(geo, winsect) && View()[winsect] == win[..]
      ensures winsect == old(winsect) || winsect < geo.database
      ensures Sane() && (old(Valid()) && (ok || wflag) ==> Valid() && View() == old(View()))
    {
      ok := ToFatSector(FatSector(geo, i));
    }

    /** Byte i of the FAT, read through the window. */
    method LoadFatByte(i: nat) returns (ok: bool, b: Byte)
      requires Sane() && ByteInFat(geo, i, |dev.sectors|)
      modifies dev`sectors, win, `wflag, `winsect
      ensures !old(wflag) ==> !wflag
      ensures Framed()
      ensures dev.reliable ==> ok
      ensures Sane() && (old(Valid()) && (ok || wflag) ==> Valid() && View() == old(View()))
      ensures ok ==> InFat(geo, winsect) && (old(Valid()) ==> b == FatByte(geo, old(View()), i))
      ensures winsect == old(winsect) || winsect < geo.database
    {
      b := 0;
      ok := ToFat(i);
      if ok { b := win[i % 512]; }
    }

    /** The bytes i and i + 1 of the FAT, which may lie in two sectors. */
    method LoadFatPair(i: nat) returns (ok: bool, lo: Byte, hi: Byte)
      requires Sane() && ByteInFat(geo, i, |dev.sectors|) && ByteInFat(geo, i + 1, |dev.sectors|)
      modifies dev`sectors, win, `wflag, `winsect
      ensures !old(wflag) ==> !wflag
      ensures Framed()
      ensures dev.reliable ==> ok
      ensures Sane() && (old(Valid()) && (ok || wflag) ==> Valid() && View() == old(View()))
      ensures ok ==> InFat(geo, winsect)
      ensures winsect == old(winsect) || winsect < geo.database
      ensures ok && old(Valid()) ==> lo == FatByte(geo, old(View()), i) && hi == FatByte(geo, old(View()), i + 1)
    {
      hide Overlay, CopiesAgree, IsMirror, ByteInFat, FatByte, FatSector, FatBytes, IsPow2, EndSector, MaxFatent;
      hi := 0;
      ok, lo := LoadFatByte(i);
      if ok {
        ok, hi := LoadFatByte(i + 1);
      }
    }

    /** FAT12 branch of get_fat. */
    method GetFat12(clst: Dword) returns (v: nat)
      requires Sane() && geo.fsType == Fat12 && 2 <= clst < geo.nFatent
      modifies dev`sectors, win, `wflag, `winsect
      ensures !old(wflag) ==> !wflag
      ensures Framed()
      ensures dev.reliable ==> v != DISK_ERROR
      ensures Sane() && (old(Valid()) && (v != DISK_ERROR || wflag) ==> Valid() && View() == old(View()))
      ensures v != DISK_ERROR ==> v < 0x1000_0000 && InFat(geo, winsect)
      ensures winsect == old(winsect) || winsect < geo.database
      ensures v != DISK_ERROR && old(Valid()) ==> v == Entry(geo, old(View()), clst)
    {
      hide Overlay, CopiesAgree, IsMirror, InFat, ByteInFat, FatByte, FatSector, FatBytes, Unpack12, Entry, EntryPos,
        IsPow2, EndSector, MaxFatent;
      Entry12(geo, View(), clst);
      var ok, lo, hi := LoadFatPair(EntryPos(Fat12, clst));
      v := if ok then Unpack12(clst, lo, hi) else DISK_ERROR;
    }

    method GetFat16(clst: Dword) returns (v: nat)
      requires Sane() && geo.fsType == Fat16 && 2 <= clst < geo.nFatent
      modifies dev`sectors, win, `wflag, `winsect
      ensures !old(wflag) ==> !wflag
      ensures Framed()
      ensures dev.reliable ==> v != DISK_ERROR
      ensures Sane() && (old(Valid()) && (v != DISK_ERROR || wflag) ==> Valid() && View() == old(View()))
      ensures v != DISK_ERROR ==> v < 0x1000_0000 && InFat(geo, winsect)
      ensures winsect == old(winsect) || winsect < geo.database
      ensures v != DISK_ERROR && old(Valid()) ==> v == Entry(geo, old(View()), clst)
    {
      hide Overlay, CopiesAgree, IsMirror, InFat, ByteInFat, FatSector, FatBytes, LdWord, LdDword, Entry, EntryPos,
        IsPow2, EndSector, MaxFatent;
      EntryWord(geo, View(), clst);
      var ok := ToFat(EntryPos(Fat16, clst));
      if !ok { return DISK_ERROR; }
      v := LdWord(win[..], EntryPos(Fat16, clst) % 512);
    }

    method GetFat32(clst: Dword) returns (v: nat)
      requires Sane() && geo.fsType == Fat32 && 2 <= clst < geo.nFatent
      modifies dev`sectors, win, `wflag, `winsect
      ensures !old(wflag) ==> !wflag
      ensures Framed()
      ensures dev.reliable ==> v != DISK_ERROR
      ensures Sane() && (old(Valid()) && (v != DISK_ERROR || wflag) ==> Valid() && View() == old(View()))
      ensures v != DISK_ERROR ==> v < 0x1000_0000 && InFat(geo, winsect)
      ensures winsect == old(winsect) || winsect < geo.database
      ensures v != DISK_ERROR && old(Valid()) ==> v == Entry(geo, old(View()), clst)
    {
      hide Overlay, CopiesAgree, IsMirror, InFat, ByteInFat, FatSector, FatBytes, LdWord, LdDword, Entry, EntryPos,
        IsPow2, EndSector, MaxFatent;
      EntryWord(geo, View(), clst);
      var ok := ToFat(EntryPos(Fat32, clst));
      if !ok { return DISK_ERROR; }
      v := LdDword(win[..], EntryPos(Fat32, clst) % 512) % 0x1000_0000;
    }

    /** Read a FAT entry: 1 for an invalid cluster, DISK_ERROR when a transfer failed. */
    method GetFat(clst: Dword) returns (v: nat)
      requires Sane()
      modifies dev`sectors, win, `wflag, `winsect
      ensures !old(wflag) ==> !wflag
      ensures Framed()
      ensures dev.reliable ==> v != DISK_ERROR
      // a failure that leaves the window dirty has left everything as it was
      ensures Sane() && (old(Valid()) && (v != DISK_ERROR || wflag) ==> Valid() && View() == old(View()))
      ensures v != DISK_ERROR && 2 <= clst < geo.nFatent ==> InFat(geo, winsect) && winsect < geo.database
      ensures winsect == old(winsect) || winsect < geo.database
      ensures old(Valid()) && v != DISK_ERROR && 2 <= clst < geo.nFatent ==> v == old(Table())[clst]
      ensures !(2 <= clst < geo.nFatent) ==> v == 1 && winsect == old(winsect)
      ensures v != DISK_ERROR ==> v < 0x1000_0000
    {
      hide Overlay, CopiesAgree, Entry, IsPow2, EndSector, MaxFatent;
      if clst < 2 || clst >= geo.nFatent { return 1; }
      match geo.fsType {
        case Fat12 => v := GetFat12(clst);
        case Fat16 => v := GetFat16(clst);
        case Fat32 => v := GetFat32(clst);
      }
    }

    /** Change one byte of the window; wflag records that it must be written back. */
    method WindowByte(o: nat, b: Byte)
      requires Sane() && o < 512 && winsect >= geo.fatbase
      modifies win, `wflag
      ensures Sane() && (old(Valid()) ==> Valid()) && wflag
      ensures win[..] == old(win[..])[o := b]
      ensures View() == old(View())[winsect := win[..]]
    {
      assert 0 < winsect;
      hide Sound;
      ghost var data := win[..];
      win[o] := b;
      wflag := true;
      WindowUpdate(geo, dev.sectors, winsect, data, win[..]);
    }

    /** Change byte i of the FAT in the window, given what becomes of its old value. */
    method MergeFatByte(i: nat, f: Byte -> Byte) returns (ok: bool)
      requires Sane() && ByteInFat(geo, i, |dev.sectors|)
      modifies dev`sectors, win, `wflag, `winsect
      ensures Framed() && Sane()
      ensures dev.reliable ==> ok
      ensures ok ==> InFat(geo, winsect) && wflag
      ensures ok && old(Valid()) ==> Valid() && View() == SetByte(geo, old(View()), i, f(FatByte(geo, old(View()), i)))
    {
      ok := ToFat(i);
      if ok {
        WindowByte(i % 512, f(win[i % 512]));
      }
    }

    /** FAT12 branch of put_fat: the two nibble-merging writes may hit two sectors. */
    method PutFat12(clst: Dword, val: Dword) returns (ok: bool)
      requires Sane() && geo.fsType == Fat12 && 2 <= clst < geo.nFatent
      modifies dev`sectors, win, `wflag, `winsect
      ensures Framed() && Sane()
      ensures dev.reliable ==> ok
      ensures ok ==> InFat(geo, winsect) && wflag
      ensures ok && old(Valid()) ==> Valid() && View() == Put12(geo, old(View()), clst, val)
    {
      hide Overlay, CopiesAgree, IsMirror, ByteInFat, FatByte, FatSector, FatBytes, Unpack12, Entry, EntryPos, SetByte,
        IsPow2, EndSector, MaxFatent;
      Entry12(geo, View(), clst);
      var bc := EntryPos(Fat12, clst);
      ok := MergeFatByte(bc, p => Low12(clst, p, val));
      if ok {
        ok := MergeFatByte(bc + 1, p => High12(clst, p, val));
      }
    }

    /** ST_WORD into the window. */
    method WindowWord(o: nat, v: nat)
      requires Sane() && o + 2 <= 512 && winsect >= geo.fatbase
      modifies win, `wflag
      ensures Sane() && (old(Valid()) ==> Valid()) && wflag
      ensures win[..] == StWord(old(win[..]), o, v)
      ensures View() == old(View())[winsect := win[..]]
    {
      hide Overlay, CopiesAgree, Sound, IsMirror;
      WindowByte(o, v % 256);
      WindowByte(o + 1, v / 256 % 256);
    }

    /** ST_DWORD into the window. */
    method WindowDword(o: nat, v: nat)
      requires Sane() && o + 4 <= 512 && winsect >= geo.fatbase
      modifies win, `wflag
      ensures Sane() && (old(Valid()) ==> Valid()) && wflag
      ensures win[..] == StDword(old(win[..]), o, v)
      ensures View() == old(View())[winsect := win[..]]
    {
      hide Overlay, CopiesAgree, Sound, IsMirror, StWord;
      WindowWord(o, v);
      WindowWord(o + 2, v / 0x1_0000);
    }

    method PutFat16(clst: Dword, val: Dword) returns (ok: bool)
      requires Sane() && geo.fsType == Fat16 && 2 <= clst < geo.nFatent
      modifies dev`sectors, win, `wflag, `winsect
      ensures Framed() && Sane()
      ensures dev.reliable ==> ok
      ensures ok ==> InFat(geo, winsect) && wflag
      ensures ok && old(Valid()) ==> Valid() && View() == Put16(geo, old(View()), clst, val)
    {
      hide Overlay, CopiesAgree, IsMirror, ByteInFat, FatSector, FatBytes, StWord, Entry, EntryPos,
        IsPow2, EndSector, MaxFatent;
      EntryWord(geo, View(), clst);
      ok := ToFat(EntryPos(Fat16, clst));
      if ok {
        WindowWord(EntryPos(Fat16, clst) % 512, val);
      }
    }

    method PutFat32(clst: Dword, val: Dword) returns (ok: bool)
      requires Sane() && geo.fsType == Fat32 && 2 <= clst < geo.nFatent
      modifies dev`sectors, win, `wflag, `winsect
      ensures Framed() && Sane()
      ensures dev.reliable ==> ok
      ensures ok ==> InFat(geo, winsect) && wflag
      ensures ok && old(Valid()) ==> Valid() && View() == Put32(geo, old(View()), clst, val)
    {
      hide Overlay, CopiesAgree, IsMirror, ByteInFat, FatSector, FatBytes, StDword, LdDword, Entry, EntryPos,
        IsPow2, EndSector, MaxFatent, Merge32;
      EntryWord(geo, View(), clst);
      ok := ToFat(EntryPos(Fat32, clst));
      if ok {
        var o := EntryPos(Fat32, clst) % 512;
        WindowDword(o, Merge32(LdDword(win[..], o), val));
      }
    }

    /** Change a FAT entry; on success the new table is logged. */
    method PutFat(clst: Dword, val: Dword) returns (res: FResult)
      requires Sane()
      modifies dev`sectors, win, `wflag, `winsect, `log
      ensures Framed() && Sane() && old(log) <= log
      ensures !(2 <= clst < geo.nFatent) ==>
        res == FR_INT_ERR && (old(Valid()) ==> Valid() && View() == old(View())) && log == old(log)
      ensures 2 <= clst < geo.nFatent ==> res == FR_OK || (res == FR_DISK_ERR && !dev.reliable && log == old(log))
      ensures res == FR_OK ==> InFat(geo, winsect) && winsect < geo.database
      ensures res == FR_OK && old(Valid()) ==>
        && Valid()
        && View() == PutEntry(geo, old(View()), clst, val)
        && SameOutsideFat(geo, old(View()), View())
        && Table() == old(Table())[clst := Stored(geo.fsType, val)]
        && log == old(log) + [Table()]
    {
      hide Overlay, CopiesAgree, Put12, Put16, Put32, FatFits, IsPow2, EndSector, MaxFatent, FatOf;
      if clst < 2 || clst >= geo.nFatent { return FR_INT_ERR; }
      PutGet(geo, View(), clst, val);
      var ok: bool;
      match geo.fsType {
        case Fat12 => ok := PutFat12(clst, val);
        case Fat16 => ok := PutFat16(clst, val);
        case Fat32 => ok := PutFat32(clst, val);
      }
      wflag := true;
      if !ok { return FR_DISK_ERR; }
      if Valid() { log := log + [Table()]; }
      return FR_OK;
    }

    /** The cluster count mark that free_clust keeps up to date, unless it is unknown. */
    ghost predicate Counted()
      reads this, win, dev
      requires Valid()
    {
      freeClust != UNKNOWN ==> freeClust == FreeCount(Table())
    }

    /** The count of free clusters is as right as before, and known if and only if it was. */
    twostate predicate CountKept()
      reads this, win, dev
      requires old(Valid()) && Valid()
    {
      old(Counted()) ==> Counted() && (freeClust == UNKNOWN <==> old(freeClust) == UNKNOWN)
    }

    /** The count of free clusters, and whether it waits to be stored, are as before. */
    twostate predicate SameCount()
      reads this
    {
      freeClust == old(freeClust) && fsiFlag == old(fsiFlag)
    }

    /** On FAT32, a count that is not marked for the FSInfo sector is the one that mounting would take from there. */
    ghost predicate Tallied()
      reads this, win, dev
      requires Valid()
    {
      geo.fsType == Fat32 && !fsiFlag ==>
        geo.fsiSector < |View()| && FsInfo.Loaded(View()[geo.fsiSector]) == freeClust
    }

    /** The FSInfo sector is none of the FAT and none of its copies, and the view outside the FAT shows it. */
    lemma InfoApart()
      requires Valid() && geo.fsType == Fat32
      ensures geo.fsiSector < geo.fatbase && geo.fsiSector < |View()| == |dev.sectors|
      ensures !InFat(geo, geo.fsiSector) && !IsMirror(geo, geo.fsiSector)
    {
      hide IsPow2, EndSector, MaxFatent;
    }

    /** Nothing outside the FAT changed, and the count neither unless it is marked. */
    twostate lemma TalliedKept()
      requires old(Valid()) && Valid() && geo == old(geo) && SameOutsideFat(geo, old(View()), View())
      requires fsiFlag || SameCount()
      ensures old(Tallied()) ==> Tallied()
    {
      hide Valid, View;
      if geo.fsType == Fat32 { InfoApart(); }
    }

    /** The view is the same, and so are the counters. */
    twostate lemma TalliedSame()
      requires old(Valid()) && Valid() && geo == old(geo) && View() == old(View())
      requires SameCount()
      ensures old(Tallied()) ==> Tallied()
    {
      hide Valid, View;
    }

    /** One sector behind the reserved ones was edited. */
    twostate lemma TalliedEdited(s: nat)
      requires old(Valid()) && Valid() && geo == old(geo) && SameCount() && geo.fatbase <= s < |old(View())|
      requires |View()| == |old(View())| && forall k :: 0 <= k < |View()| && k != s ==> View()[k] == old(View())[k]
      ensures old(Tallied()) ==> Tallied()
    {
      hide Valid, View;
      if geo.fsType == Fat32 { InfoApart(); }
    }

    /** After a flush, mounting the drive would take the true count of free clusters from it, or none if none is known. */
    lemma CountStored()
      requires Valid() && !wflag && geo.fsType == Fat32 && !fsiFlag && Tallied() && Counted()
      ensures geo.fsiSector < |dev.sectors|
      ensures FsInfo.Loaded(dev.sectors[geo.fsiSector]) ==
        if freeClust == UNKNOWN then UNKNOWN else FreeCount(FatOf(geo, dev.sectors))
    {
      hide IsPow2, EndSector, MaxFatent, CopiesAgree;
      InfoApart();
      FlushedTable();
    }

    /** One round of remove_chain: empty cluster c unless it is free or bad already. */
    method FreeCluster(c: Dword) returns (res: FResult, nxt: nat)
      requires Valid() && 2 <= c < geo.nFatent
      modifies dev`sectors, win, `wflag, `winsect, `log, `freeClust, `fsiFlag
      ensures Framed()
      ensures res == FR_OK || (res == FR_DISK_ERR && !dev.reliable && log == old(log))
      ensures res == FR_OK ==> winsect < geo.database && SameOutsideFat(geo, old(View()), View())
      ensures res == FR_OK && old(Tallied()) ==> Valid() && Tallied()
      ensures res == FR_OK ==> Valid() && nxt == old(Table())[c] && nxt < 0x1000_0000
      ensures res == FR_OK && nxt < 2 ==>
        Table() == old(Table()) && log == old(log) && freeClust == old(freeClust) && fsiFlag == old(fsiFlag)
      ensures res == FR_OK && nxt >= 2 ==>
        && Table() == old(Table())[c := 0]
        && log == old(log) + [Table()]
        && freeClust == (if old(freeClust) == UNKNOWN then UNKNOWN else old(freeClust) + 1)
        && fsiFlag == (old(fsiFlag) || old(freeClust) != UNKNOWN)
    {
      hide Tallied, Overlay, CopiesAgree, Sound, FatOf, FatFits, FatBytes, Entry, PutEntry, Put12, Put16, Put32, InFat,
        IsMirror;
      StoredValue(geo.fsType, 0);
      nxt := GetFat(c);
      if nxt < 2 {
        TalliedKept();
        return FR_OK, nxt;
      }
      if nxt == DISK_ERROR { return FR_DISK_ERR, nxt; }
      res := PutFat(c, 0);
      if res != FR_OK { return; }
      if freeClust != UNKNOWN {
        freeClust := freeClust + 1;
        fsiFlag := true;
      }
      TalliedKept();
    }

    /** Free the clusters of a chain, following the FAT links from clst. */
    method RemoveChain(clst: Dword) returns (res: FResult)
      requires Valid()
      modifies dev`sectors, win, `wflag, `winsect, `log, `freeClust, `fsiFlag
      ensures Framed()
      ensures res == FR_OK || res == FR_INT_ERR || (res == FR_DISK_ERR && !dev.reliable)
      ensures res != FR_DISK_ERR ==> Valid() && CountKept() && (old(Tallied()) ==> Tallied())
      ensures res != FR_DISK_ERR ==> SameOutsideFat(geo, old(View()), View())
      ensures res != FR_DISK_ERR ==> winsect == old(winsect) || winsect < geo.database
      ensures !(2 <= clst < geo.nFatent) ==> res == FR_INT_ERR && Table() == old(Table())
      ensures 2 <= clst < geo.nFatent && res != FR_DISK_ERR ==>
        && Table() == RemoveFrom(old(Table()), clst)
        && res == if EndsInOne(old(Table()), clst) then FR_INT_ERR else FR_OK
      ensures old(WellFormed(Table()) && IsHead(Table(), clst)) ==> LoggedWellFormed()
    {
      hide Tallied, Overlay, CopiesAgree, Sound, FatOf, FatFits, FatBytes, Entry, PutEntry, Put12, Put16, Put32, InFat,
        IsMirror, WellFormed, IsHead, RemoveFrom, EndsInOne, FreeCount;
      if clst < 2 || clst >= geo.nFatent { return FR_INT_ERR; }
      var c: nat := clst;
      ghost var t0 := Table();
      ghost var head := WellFormed(t0) && IsHead(t0, c);
      while c < geo.nFatent
        invariant Valid() && Framed() && 2 <= c < 0x1_0000_0000 && |Table()| == |t0|
        invariant winsect == old(winsect) || winsect < geo.database
        invariant SameOutsideFat(geo, old(View()), View())
        invariant RemoveFrom(Table(), c) == RemoveFrom(t0, clst)
        invariant EndsInOne(Table(), c) == EndsInOne(t0, clst)
        invariant CountKept() && (old(Tallied()) ==> Tallied())
        invariant head ==> WellFormed(Table()) && IsHead(Table(), c)
        invariant old(log) <= log
        invariant head ==> forall k :: |old(log)| <= k < |log| ==> WellFormed(log[k])
        decreases geo.nFatent - FreeCount(Table())
      {
        ghost var t := Table();
        var nxt;
        res, nxt := FreeCluster(c);
        if res != FR_OK { return; }
        if nxt < 2 { RemoveStop(t, c); }
        if nxt == 0 { break; }
        if nxt == 1 { return FR_INT_ERR; }
        RemoveStep(t, c);
        c := nxt;
      }
      if c >= geo.nFatent { RemoveStop(Table(), c); }
      return FR_OK;
    }

    /** Search upwards from scl, wrapping around, for a free cluster. */
    method FindFree(scl: nat) returns (ncl: nat)
      requires Sane() && 1 <= scl < geo.nFatent
      modifies dev`sectors, win, `wflag, `winsect
      ensures !old(wflag) ==> !wflag
      ensures Framed() && Sane()
      ensures dev.reliable ==> ncl != DISK_ERROR
      ensures ncl != DISK_ERROR ==> ncl < geo.nFatent && (winsect == old(winsect) || winsect < geo.database)
      ensures ncl != DISK_ERROR && old(Valid()) ==>
        && Valid() && View() == old(View())
        && (ncl == 0 ==> Full(Table()))
        && (ncl == 1 ==> HasOne(Table()))
        && (ncl >= 2 ==> NearestFree(Table(), scl, ncl))
    {
      hide Overlay, CopiesAgree, Sound, FatOf, FatFits, FatBytes, Entry, PutEntry, Put12, Put16, Put32, InFat, IsMirror;
      ghost var proper := Valid();
      ghost var t: Fat := if proper then Table() else [];
      ncl := scl;
      while true
        invariant Sane() && Framed() && 1 <= ncl < geo.nFatent
        invariant proper ==> Valid() && View() == old(View()) && NoneSeen(t, scl, ncl)
        invariant !old(wflag) ==> !wflag
        invariant winsect == old(winsect) || winsect < geo.database
        decreases if ncl >= scl then geo.nFatent - ncl + scl else scl - ncl
      {
        ncl := ncl + 1;
        if ncl >= geo.nFatent {
          ncl := 2;
          if ncl > scl { return 0; }
        }
        var cs := GetFat(ncl);
        if cs == 0 { return; }
        if cs == DISK_ERROR || cs == 1 { return cs; }
        if ncl == scl { return 0; }
      }
    }

    /** The rest of create_chain: find a free cluster, going up from scl, and link it behind clst unless that is 0. */
    method TakeFree(clst: Dword, scl: nat) returns (ncl: nat)
      requires Sane() && 1 <= scl < geo.nFatent && (clst == 0 || 2 <= clst < geo.nFatent)
      modifies dev`sectors, win, `wflag, `winsect, `log, `freeClust, `fsiFlag, `lastClust
      ensures Framed()
      ensures dev.reliable ==> ncl != DISK_ERROR
      ensures ncl != DISK_ERROR ==> winsect == old(winsect) || winsect < geo.database
      ensures ncl != DISK_ERROR && old(Valid()) ==>
        Valid() && (old(Tallied()) ==> Tallied()) && SameOutsideFat(geo, old(View()), View())
      ensures ncl != DISK_ERROR && old(Valid() && (clst != 0 ==> Table()[clst] != 0)) ==> Valid() && CountKept()
      ensures ncl < 2 ==> log == old(log) && (!old(wflag) ==> !wflag)
      ensures old(Valid()) && ncl == 0 ==> Table() == old(Table()) && Full(Table())
      ensures old(Valid()) && ncl == 1 ==> Table() == old(Table()) && HasOne(Table())
      ensures ncl != DISK_ERROR && ncl >= 2 ==> winsect < geo.database && ncl < geo.nFatent && lastClust == ncl
      ensures old(Valid()) && ncl != DISK_ERROR && ncl >= 2 ==>
        NearestFree(old(Table()), scl, ncl) && Table() == Allocated(old(Table()), clst, ncl, EndMark(geo.fsType))
      ensures old(Valid() && WellFormed(Table()) && (clst != 0 ==> Table()[clst] != 0)) ==> LoggedWellFormed()
    {
      hide Tallied, NoneFree, Overlay, CopiesAgree, Sound, FatOf, FatFits, FatBytes, Entry, PutEntry, Put12, Put16,
        Put32, InFat, IsMirror, WellFormed, FreeCount, Full, HasOne, Allocated;
      ncl := FindFree(scl);
      if Valid() && old(Valid()) && ncl != DISK_ERROR { TalliedSame(); }
      if ncl >= 2 && ncl != DISK_ERROR { ncl := LinkCluster(clst, ncl); }
    }

    /** Stretch the chain ending in clst by a free cluster, or start a new chain when clst is 0. */
    method CreateChain(clst: Dword) returns (ncl: nat, ghost intact: bool)
      requires Valid() && !strayed
      modifies dev`sectors, win, `wflag, `winsect, `log, `freeClust, `fsiFlag, `lastClust, `strayed
      ensures Framed()
      ensures dev.reliable ==> ncl != DISK_ERROR
      ensures !strayed && ncl != DISK_ERROR ==> winsect == old(winsect) || winsect < geo.database
      ensures !strayed && ncl != DISK_ERROR ==> Valid() && CountKept() && (old(Tallied()) ==> Tallied())
      ensures !strayed && ncl != DISK_ERROR ==> SameOutsideFat(geo, old(View()), View())
      ensures !strayed && ncl == 0 ==> Table() == old(Table()) && Full(Table()) && log == old(log)
      ensures !strayed && ncl == 0 && clst != 0 ==> !IsCluster(Table(), clst) || !IsCluster(Table(), Table()[clst])
      ensures !strayed && ncl == 1 ==> Table() == old(Table()) && log == old(log)
      ensures !strayed && ncl == 1 ==> HasOne(Table()) || (clst != 0 && (!IsCluster(Table(), clst) || Table()[clst] < 2))
      ensures !strayed && ncl != DISK_ERROR && ncl >= 2 ==> winsect < geo.database && IsCluster(old(Table()), ncl)
      // the status could not be read, and the code went on as if clst were the last cluster
      ensures strayed ==> !dev.reliable && old(IsCluster(Table(), clst))
      ensures strayed && intact && ncl != DISK_ERROR ==>
        && Valid()
        && (ncl == 0 ==> Table() == old(Table()) && Full(Table()))
        && (ncl == 1 ==> Table() == old(Table()) && HasOne(Table()))
        && (ncl >= 2 ==>
              && NearestFree(old(Table()), clst, ncl)
              && Table() == Allocated(old(Table()), clst, ncl, EndMark(geo.fsType)))
      ensures !strayed && ncl != DISK_ERROR && ncl >= 2 ==>
        if clst != 0 && old(IsCluster(Table(), clst) && IsCluster(Table(), Table()[clst])) then
          ncl == old(Table()[clst]) && Table() == old(Table()) && log == old(log)
        else
          && (clst != 0 ==> old(IsCluster(Table(), clst) && Table()[clst] >= geo.nFatent))
          // the first free cluster behind clst or the one allocated last, going on from cluster 2 at the end of the table
          && (var s := if clst != 0 then clst else if 2 <= old(lastClust) < geo.nFatent then old(lastClust) else 1;
              NearestFree(old(Table()), s, ncl))
          && Table() == Allocated(old(Table()), clst, ncl, EndMark(geo.fsType))
          && lastClust == ncl
      // a table that stays as it is leaves a clean window clean
      ensures !strayed && ncl != DISK_ERROR && !old(wflag) ==>
        !wflag || !(ncl < 2 || (clst != 0 && old(IsCluster(Table(), clst) && IsCluster(Table(), Table()[clst]))))
      ensures !strayed && old(WellFormed(Table())) ==> LoggedWellFormed()
    {
      hide Tallied, Allocated, NearestFree, NoneFree, Overlay, CopiesAgree, Sound, FatOf, FatFits, FatBytes, Entry, PutEntry, Put12, Put16,
        Put32, InFat, IsMirror, WellFormed, FreeCount, Full, HasOne;
      var scl: nat := lastClust;
      intact := true;
      if clst == 0 {
        if scl == 0 || scl >= geo.nFatent { scl := 1; }
      } else {
        var cs := GetFat(clst);
        if cs != DISK_ERROR { TalliedSame(); }
        if cs < 2 { return 1, true; }
        if cs < geo.nFatent { return cs, true; }
        scl := clst;
        strayed := cs == DISK_ERROR;
        intact := !strayed || wflag;
      }
      ncl := TakeFree(clst, scl);
    }

    /** The log grew by well-formed tables only. */
    twostate predicate LoggedWellFormed()
      reads this
    {
      AllWell(old(log), log)
    }

    /** Nothing but the FAT changed in the view, and the count of free clusters is as right as before. */
    twostate predicate FatOnly()
      reads this, win, dev
    {
      old(Valid()) && Valid() && geo == old(geo) && SameBut(old(Snap()), Snap(), [])
    }

    ghost function Snap(): Shot
      reads this, win, dev
    {
      var v := Valid();
      Shot(geo, if v then View() else [], winsect, v, v && Counted(), freeClust != UNKNOWN, v && Tallied())
    }

    /** The FAT is the same, and the view outside the sectors s. */
    twostate lemma SnapData(s: seq<nat>)
      requires old(Valid()) && Valid() && geo == old(geo) && SameCount() && Table() == old(Table())
      requires winsect == old(winsect) || winsect < geo.database || winsect in s
      requires forall k :: k in s ==> geo.fatbase <= k
      requires |View()| == |old(View())| && forall k :: 0 <= k < |View()| && k !in s ==> View()[k] == old(View())[k]
      ensures SameBut(old(Snap()), Snap(), s)
    {
      hide Valid, View, Table, FreeCount;
      if geo.fsType == Fat32 { InfoApart(); }
    }

    lemma SnapSelf(s: seq<nat>)
      requires Valid()
      ensures SameBut(Snap(), Snap(), s)
    {
      hide Valid, View, Table, FreeCount;
    }

    twostate lemma SnapFat(s: seq<nat>)
      requires FatOnly()
      ensures SameBut(old(Snap()), Snap(), s)
    {
      hide Snap;
    }

    twostate lemma SnapView(s: seq<nat>)
      requires SameBut(old(Snap()), Snap(), s)
      ensures old(Valid()) && Valid() && geo == old(geo) && SameElsewhere(geo, old(View()), View(), s)
      ensures CountKept() && (old(Tallied()) ==> Tallied())
      ensures winsect == old(winsect) || winsect < geo.database || winsect in s
    {
      hide Valid, View, Table, FreeCount;
    }

    twostate lemma SnapTable()
      requires old(Valid()) && Valid() && geo == old(geo) && SameOutsideFat(geo, old(View()), View())
      requires winsect == old(winsect) || winsect < geo.database
      requires CountKept() && (old(Tallied()) ==> Tallied())
      ensures FatOnly()
    {
      hide Valid, View, Table, FreeCount;
    }

    /** Data sectors among s were written past the window. */
    twostate lemma SnapWritten(s: seq<nat>)
      requires old(Valid()) && unchanged(this) && unchanged(win) && |dev.sectors| == |old(dev.sectors)|
      requires forall k :: k in s ==> geo.fatbase <= k
      requires forall k :: 0 <= k < |dev.sectors| && (k < geo.database || k == winsect || k !in s) ==>
        dev.sectors[k] == old(dev.sectors)[k]
      ensures Valid() && Table() == old(Table()) && SameBut(old(Snap()), Snap(), s)
    {
      hide IsPow2, Span, SameBut, Snap, FatOf, CopiesAgree;
      DataWritten();
      SnapData(s);
    }

    /** Cluster n is free, and clst, unless it is 0, is not. */
    ghost predicate Linkable(clst: nat, n: nat)
      reads this, win, dev
    {
      Valid() && n < geo.nFatent && Table()[n] == 0 && (clst != 0 ==> clst < geo.nFatent && Table()[clst] != 0)
    }

    /** Mark the free cluster n as last link, then link clst to it unless that is 0. */
    method MarkAndLink(clst: Dword, n: nat) returns (res: FResult)
      requires Sane() && 2 <= n < geo.nFatent && (clst == 0 || 2 <= clst < geo.nFatent)
      modifies dev`sectors, win, `wflag, `winsect, `log
      ensures Framed() && Sane()
      ensures res == FR_OK || (res == FR_DISK_ERR && !dev.reliable)
      ensures res == FR_OK ==> winsect < geo.database
      ensures res == FR_OK && old(Valid()) ==> Valid() && SameOutsideFat(geo, old(View()), View())
      ensures res == FR_OK && old(Valid()) ==> Table() == Allocated(old(Table()), clst, n, EndMark(geo.fsType))
      ensures old(Linkable(clst, n) && WellFormed(Table())) ==>
        LoggedWellFormed()
    {
      hide Overlay, CopiesAgree, Sound, FatOf, FatFits, FatBytes, Entry, PutEntry, Put12, Put16, Put32, InFat, IsMirror,
        WellFormed, Stored;
      StoredValue(geo.fsType, n);
      if Linkable(clst, n) && WellFormed(Table()) {
        AllocatedWellFormed(Table(), clst, n, EndMark(geo.fsType));
      }
      res := PutFat(n, 0x0FFF_FFFF);
      if res == FR_OK && clst != 0 {
        res := PutFat(clst, n);
      }
    }

    /** The tail of create_chain. */
    method LinkCluster(clst: Dword, free: Dword) returns (ncl: nat)
      requires Sane() && 2 <= free < geo.nFatent && (clst == 0 || 2 <= clst < geo.nFatent)
      modifies dev`sectors, win, `wflag, `winsect, `log, `freeClust, `fsiFlag, `lastClust
      ensures Framed() && Sane()
      ensures ncl == free || (ncl == DISK_ERROR && !dev.reliable)
      ensures ncl != DISK_ERROR ==> winsect < geo.database && lastClust == ncl
      // a known count goes down by one and is marked for the FSInfo sector
      ensures ncl != DISK_ERROR ==>
        if old(freeClust) == UNKNOWN then freeClust == UNKNOWN && fsiFlag == old(fsiFlag)
        else freeClust == (if old(freeClust) == 0 then UNKNOWN else old(freeClust) - 1) && fsiFlag
      ensures ncl != DISK_ERROR && old(Valid()) ==> Valid() && SameOutsideFat(geo, old(View()), View())
      ensures ncl != DISK_ERROR && old(Valid()) ==> Table() == Allocated(old(Table()), clst, ncl, EndMark(geo.fsType))
      ensures ncl != DISK_ERROR && old(Linkable(clst, free)) ==>
        Valid() && CountKept()
      ensures ncl != DISK_ERROR && old(Valid()) ==> Valid() && (old(Tallied()) ==> Tallied())
      ensures old(Linkable(clst, free) && WellFormed(Table())) ==>
        LoggedWellFormed()
    {
      hide Overlay, CopiesAgree, Sound, FatOf, FatFits, FatBytes, Entry, PutEntry, Put12, Put16, Put32, InFat, IsMirror,
        WellFormed, Tallied, FreeCount, Allocated, EndMark;
      if Linkable(clst, free) {
        AllocatedCount(Table(), clst, free, EndMark(geo.fsType));
      }
      var res := MarkAndLink(clst, free);
      if res != FR_OK { return DISK_ERROR; }
      lastClust := free;
      if freeClust != UNKNOWN {
        freeClust := if freeClust == 0 then UNKNOWN else freeClust - 1;   // wraps in 32 bits
        fsiFlag := true;
      }
      if old(Valid()) { TalliedKept(); }
      return free;
    }

    /** The drive itself, without the window, shows the contents v. */
    ghost predicate Flushed(v: seq<Sector>)
      reads this, dev
    {
      |dev.sectors| == |v| &&
      forall s :: 0 <= s < |v| && !IsMirror(geo, s) && !IsFsInfo(s) ==> dev.sectors[s] == v[s]
    }

    predicate IsFsInfo(s: nat)
      reads `geo
    {
      geo.fsType == Fat32 && s == geo.fsiSector
    }

    /** Write the counters to the FSInfo sector, through the window; the result of the write is ignored. */
    method WriteFsInfo()
      requires Valid() && !wflag && geo.fsType == Fat32
      modifies dev`sectors, win, `fsiFlag, `winsect
      ensures Valid() && winsect == 0 && !fsiFlag && Table() == old(Table()) && |dev.sectors| == |old(dev.sectors)|
      ensures forall s :: 0 <= s < |dev.sectors| && s != geo.fsiSector ==> dev.sectors[s] == old(dev.sectors)[s]
      ensures dev.reliable ==> Tallied()
      ensures dev.reliable ==> dev.sectors[geo.fsiSector] == FsInfo.Encode(freeClust, lastClust)
    {
      hide IsPow2, EndSector, MaxFatent, FsInfo.Encode, SameInCopy;
      InfoApart();
      winsect := 0;
      var s := FsInfo.Encode(freeClust, lastClust);
      forall i | 0 <= i < 512 { win[i] := s[i]; }
      assert win[..] == s;
      var _ := dev.Write(win, geo.fsiSector);
      fsiFlag := false;
      FsInfo.RoundTrip(freeClust, lastClust);
      FatOfFrame(geo, old(View()), View());
      if CopiesAgree(geo, old(dev.sectors), 0) {
        CopiesFrame(geo, old(dev.sectors), dev.sectors, 0, |dev.sectors|);
      }
    }

    /** sync: afterwards the drive alone holds what the window and the drive held together. */
    method Sync() returns (res: FResult)
      requires Valid()
      modifies dev`sectors, win, `wflag, `fsiFlag, `winsect
      ensures Framed()
      ensures res == FR_OK || (res == FR_DISK_ERR && !dev.reliable)
      ensures winsect == old(winsect) || winsect == 0
      ensures res == FR_OK ==> Valid() && !wflag && Table() == old(Table()) && Flushed(old(View()))
      ensures res == FR_OK ==> |View()| == |old(View())| && forall s ::
        0 <= s < |View()| && !IsMirror(geo, s) && !IsFsInfo(s) ==> View()[s] == old(View())[s]
      ensures res == FR_OK && dev.reliable && geo.fsType == Fat32 && old(fsiFlag) ==>
        !fsiFlag && dev.sectors[geo.fsiSector] == FsInfo.Encode(freeClust, lastClust)
      ensures res == FR_OK && geo.fsType == Fat32 ==> !fsiFlag
      ensures res == FR_OK && dev.reliable && old(Tallied()) ==> Tallied()
    {
      hide IsPow2, EndSector, MaxFatent, CopiesAgree, FsInfo.Encode;
      res := MoveWindow(0);
      if res == FR_OK {
        CleanFlushed();
        TalliedSame();
        if geo.fsType == Fat32 && fsiFlag {
          WriteFsInfo();
        }
        var ok := dev.Attempt();
        if !ok { return FR_DISK_ERR; }
        CleanFlushed();
      }
    }

    /** A clean window adds nothing to the drive. */
    lemma CleanFlushed()
      requires Valid() && !wflag
      ensures Flushed(View())
    {
    }

    /** The FAT can be read back from a flushed drive. */
    lemma FlushedTable()
      requires Valid() && !wflag
      ensures FatOf(geo, dev.sectors) == Table()
    {
      hide IsPow2, EndSector, MaxFatent, CopiesAgree;
      FatOfFrame(geo, View(), dev.sectors);
    }

    /** The window was edited, and it does not show a FAT sector. */
    twostate lemma EditedElsewhere()
      requires old(Valid()) && Valid() && geo == old(geo) && unchanged(dev) && !InFat(geo, winsect)
      requires View() == old(View())[winsect := win[..]]
      ensures Table() == old(Table())
    {
      hide IsPow2, EndSector, MaxFatent, CopiesAgree, Overlay;
      FatOfFrame(geo, old(View()), View());
    }

    // ----- clearing a cluster -----

    /** The drive is up to date; the window need not show anything. */
    ghost predicate Clean()
      reads this, win, dev
    {
      && win.Length == 512 && !wflag
      && Sound(geo, |dev.sectors|)
      && 3 <= geo.nFatent <= EndMark(geo.fsType)
      && (mirrored && dev.reliable ==> CopiesAgree(geo, dev.sectors, 0))
    }

    /** What the drive shows without the window. */
    ghost function DriveView(): seq<Sector>
      reads this, dev
    {
      Overlay(geo, dev.sectors, 0, ZeroSector())
    }

    lemma CleanWindow()
      requires Valid() && !wflag
      ensures Clean() && View() == DriveView()
    {
      hide IsPow2, EndSector, MaxFatent, CopiesAgree;
    }

    /** Write the zeros in the window to data sector s. */
    method ClearSector(s: nat) returns (res: FResult)
      requires Clean() && win[..] == ZeroSector() && geo.database <= s < |dev.sectors|
      modifies dev`sectors, win, `wflag, `winsect
      ensures |dev.sectors| == |old(dev.sectors)|
      ensures res == FR_OK || (res == FR_DISK_ERR && !dev.reliable)
      ensures res == FR_OK ==> Clean() && win[..] == ZeroSector() && DriveView() == old(DriveView())[s := ZeroSector()]
      ensures forall k :: 0 <= k < |dev.sectors| && k != s && !IsMirror(geo, k) ==> dev.sectors[k] == old(dev.sectors)[k]
    {
      hide IsPow2, EndSector, MaxFatent;
      winsect := s;
      wflag := true;
      if CopiesAgree(geo, dev.sectors, 0) { CopiesExcept(geo, dev.sectors, s); }
      assert View() == old(DriveView())[s := ZeroSector()];
      label Dirty:
      res := MoveWindow(0);
      if res == FR_OK { CleanWindow(); }
    }

    /** Fill a cluster with zeros, sector by sector. */
    method ZeroSectors(first: nat) returns (res: FResult)
      requires Clean() && win[..] == ZeroSector() && geo.database <= first && first + geo.csize <= |dev.sectors|
      modifies dev`sectors, win, `wflag, `winsect
      ensures |dev.sectors| == |old(dev.sectors)|
      ensures res == FR_OK || (res == FR_DISK_ERR && !dev.reliable)
      ensures res == FR_OK ==> Clean() && win[..] == ZeroSector() && |DriveView()| == |old(DriveView())|
      ensures res == FR_OK ==> forall s :: 0 <= s < |DriveView()| ==>
        DriveView()[s] == if first <= s < first + geo.csize then ZeroSector() else old(DriveView())[s]
    {
      hide Clean, Overlay;
      var c := 0;
      while c < geo.csize
        invariant Clean() && win[..] == ZeroSector() && c <= geo.csize && |DriveView()| == |old(DriveView())|
        invariant |dev.sectors| == |old(dev.sectors)|
        invariant forall s :: 0 <= s < |DriveView()| ==>
          DriveView()[s] == if first <= s < first + c then ZeroSector() else old(DriveView())[s]
      {
        res := ClearSector(first + c);
        if res != FR_OK { return; }
        c := c + 1;
      }
      return FR_OK;
    }

    /** The new cluster of a stretched directory is filled with zeros; the window shows its first sector. */
    method ClearCluster(clst: Dword) returns (res: FResult)
      requires Valid() && 2 <= clst < geo.nFatent
      modifies dev`sectors, win, `wflag, `winsect
      ensures |dev.sectors| == |old(dev.sectors)|
      ensures res == FR_OK || (res == FR_DISK_ERR && !dev.reliable)
      ensures res == FR_OK ==> Valid() && |View()| == |old(View())| && Table() == old(Table())
      ensures res == FR_OK ==> winsect == Clust2Sect(geo, clst)
      ensures res == FR_OK ==> forall s :: 0 <= s < |View()| ==>
        View()[s] == if InBlock(geo, clst, s) then ZeroSector() else old(View())[s]
    {
      hide IsPow2, MaxFatent, CopiesAgree, Span, Clust2Sect, Overlay;
      ghost var v := View();
      Clust2SectValue(geo, clst, |dev.sectors|);
      res := MoveWindow(0);
      if res != FR_OK { return; }
      CleanWindow();
      forall i | 0 <= i < 512 { win[i] := 0; }
      assert win[..] == ZeroSector();
      winsect := Clust2Sect(geo, clst);
      res := ZeroSectors(Clust2Sect(geo, clst));
      if res != FR_OK { return; }
      winsect := Clust2Sect(geo, clst);
      ShowZero(winsect);
      FatOfFrame(geo, v, View());
      return FR_OK;
    }

    /** A window holding zeros shows a zero sector of the drive. */
    lemma ShowZero(s: nat)
      requires Clean() && win[..] == ZeroSector() && winsect == s && geo.database <= s < |dev.sectors|
      requires DriveView()[s] == ZeroSector()
      ensures Valid() && View() == DriveView()
    {
    }

    /** What the window shows is what the view holds there. */
    lemma WindowShown()
      requires Valid() && winsect != 0
      ensures winsect < |View()| == |dev.sectors| && View()[winsect] == win[..]
    {
    }

    /** The window was written to directly, and marked dirty. */
    twostate lemma Edited()
      requires old(Valid()) && geo == old(geo) && winsect == old(winsect) >= geo.fatbase && wflag
      requires mirrored == old(mirrored) && unchanged(dev)
      requires !InFat(geo, winsect)
      ensures Valid() && |View()| == |old(View())| == |dev.sectors| && Table() == old(Table())
      ensures View() == old(View())[winsect := win[..]] && old(View())[winsect] == old(win[..])
    {
      hide IsPow2, EndSector, MaxFatent;
      if CopiesAgree(geo, dev.sectors, 0) { CopiesExcept(geo, dev.sectors, winsect); }
      WindowUpdate(geo, dev.sectors, winsect, old(win[..]), win[..]);
      FatOfFrame(geo, old(View()), View());
    }

    /** The same view shows the same FAT. */
    twostate lemma SameTable()
      requires old(Valid()) && Valid() && geo == old(geo) && View() == old(View())
      ensures Table() == old(Table())
    {
    }
  }
}
