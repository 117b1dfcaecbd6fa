// A drive from formatting to its first directory operation.
module Fresh {
  import opened Words
  import opened Layout
  import opened FileImage
  import opened FileSystem
  import opened DirTable
  import opened DirMap
  import opened Directory
  import opened Names
  import Format
  import opened DirSession
  import opened Create
  import Lfn
  import Clusters
  import Boot

  /** What formatting and mounting leave. */
  ghost predicate FreshVolume(v: Volume, p: Format.Plan)
    reads v, v.win, v.dev
  {
    && v.Valid() && !v.strayed && v.dev.reliable && v.geo == Format.GeoOf(p) && p.au <= 128
    && p.nDir == (if p.fmt == Fat32 then 0 else 32)
    && Clusters.WellFormed(v.Table()) && Format.EmptyRoot(p, v.View()) && (p.fmt == Fat32 ==>
      Clusters.Chain(v.Table(), [2]))
  }

  /** The first cluster of a FAT32 volume starts the data area. */
  lemma FirstCluster(g: Geometry)
    requires 3 <= g.nFatent < 0x1_0000_0000 && g.database < 0x1_0000_0000
    ensures Sectors(g, [2]) == seq(g.csize, i => g.database + i)
  {
    assert ([2 as nat])[..0] == [];
  }

  lemma RootSector(g: Geometry, p: Format.Plan, s: seq<nat>, i: nat)
    requires g == Format.GeoOf(p) && p.nDir == (if p.fmt == Fat32 then 0 else 32) && i < |s|
    requires s == if p.fmt == Fat32 then seq(g.csize, i => g.database + i) else RootSectors(g)
    ensures p.BDir() <= s[i] < p.BDir() + Format.RootSpan(p)
  {
  }

  /** All entries of a fresh root are zero. */
  lemma ZeroRoot(d: Dir, p: Format.Plan)
    requires FreshVolume(d.fs, p) && d.sclust == 0 && d.chain == if p.fmt == Fat32 then [2] else []
    ensures d.Base() && d.Entries() == EmptyRows(|d.Entries()|) && |d.Entries()| <= 0x1_0000
  {
    hide Volume.Valid, Volume.Table, Volume.View, Clusters.WellFormed, Clusters.Chain, Sectors, IsPow2, Overlay;
    d.fs.Facts();
    d.SectsFacts();
    if p.fmt == Fat32 { FirstCluster(d.fs.geo); }
    ghost var v, s := d.fs.View(), d.Sects();
    forall k | 0 <= k < 16 * |s|
      ensures Row(v, s, k) == ZeroEntry()
    {
      RootSector(d.fs.geo, p, s, k / 16);
      assert p.BDir() <= s[k / 16] < p.BDir() + Format.RootSpan(p);
      assert ZeroSector()[k % 16 * 32..k % 16 * 32 + 32] == ZeroEntry();
    }
  }

  /** The root directory of a fresh volume: no object is in it, and runs of directory operations can start. */
  method Root(v: Volume, cp: CodePage, up: Word -> Word, max: nat, ghost p: Format.Plan)
    returns (d: Dir, ghost s: Setting, ghost items: seq<Item>)
    requires FreshVolume(v, p) && Sane(cp) && Folds(cp, up) && Lfn.Upper(up) && max < 256
    ensures fresh(d) && d.fs == v && In(d, s) && s.cp == cp && s.up == up && s.size == max + 1
    ensures Orderly(d, s, items) && forall i :: 0 <= i < |items| ==> items[i].Blank?
    ensures forall a: Act :: Terminated(a.path) ==> Bound(s, a, d.Entries(), []) == Missing
  {
    hide Volume.Valid, Volume.Table, Clusters.WellFormed, Clusters.Chain, Dir.Base, Dir.Entries, Flat, EmptyRows, Neat,
      Sane, Folds, Clusters.HasOne, Clusters.FreeCount, Settled, AllOk;
    d := new Dir(v, 0, up, max, if p.fmt == Fat32 then [2] else []);
    ZeroRoot(d, p);
    s := Setting(cp, up, max + 1, d.Static(), DirSession.Room(d), Clusters.HasOne(v.Table()));
    items := EndItems(|d.Entries()|);
    BlankNeat(Habits(s), items);
    forall a: Act | Terminated(a.path)
      ensures Bound(s, a, d.Entries(), []) == Missing
    {
      NothingBound(s, a, |d.Entries()|);
    }
  }

  lemma BlankNeat(c: Habit, items: seq<Item>)
    requires items == EndItems(|items|)
    ensures Neat(c, items) && AllOk(items) && Settled(items) && Flat(items) == EmptyRows(|items|)
  {
    hide Lfn.SameName, Lfn.FindFits, ItemOk, Entries, EndItems, AllOk, Flat;
    NoItems();
    PaddedItems([], |items|);
    assert [] + items == items;
    assert [] + EmptyRows(|items|) == EmptyRows(|items|);
  }

  lemma NoItems()
    ensures AllOk([]) && Settled([]) && Flat([]) == []
  {
  }

  lemma NothingBound(s: Setting, a: Act, n: nat)
    requires Terminated(a.path)
    ensures Bound(s, a, EmptyRows(n), []) == Missing
  {
    hide Asked;
  }
  lemma PowOne()
    ensures IsPow2(1)
  {
  }

  lemma RequestFacts(n: nat, sfd: bool, au: nat, block: nat, p: Format.Plan)
    requires n < 0xFFFF_0000 && (block == 0 || block > 0x8000 || IsPow2(block))
    requires Format.Formats(n, sfd, au, block) && Format.Request(n, sfd, au, block) == Format.Go(p)
    ensures p.au <= 128 && p.nDir == if p.fmt == Fat32 then 0 else 32
  {
    hide Format.PlanFor, Format.SizeFor, IsPow2, Boot.Quotient;
    var bVol := if sfd then 0 else 63;
    PowOne();
    Format.PlanFacts(bVol, n - bVol, Format.Unit(Format.SizeFor(au, n - bVol)), Format.BlockFor(block));
  }

  /** f_mkfs, the first access to the volume, and a directory object for its root. */
  method FormatAndOpen(v: Volume, sfd: bool, au: Dword, block: nat, tim: Dword, fsid: nat, cp: CodePage,
      up: Word -> Word, max: nat)
    returns (res: FResult, mount: FResult, d: Dir?, ghost p: Format.Plan, ghost s: Setting, ghost items: seq<Item>)
    requires v.win.Length == 512 && |v.dev.sectors| < 0xFFFF_0000 && v.dev.reliable
    requires block == 0 || block > 0x8000 || IsPow2(block)
    requires au != 0 ==> Boot.Quotient(|v.dev.sectors|, Format.Unit(au)) + 2 <= MaxFatent(Fat32)
    requires Sane(cp) && Folds(cp, up) && Lfn.Upper(up) && max < 256
    modifies v, v.win, v.dev`sectors, v.dev`ready
    ensures |v.dev.sectors| == |old(v.dev.sectors)|
    ensures res == FR_OK <==> Format.Formats(|v.dev.sectors|, sfd, au, block)
    ensures res == FR_OK ==>
      Format.Request(|v.dev.sectors|, sfd, au, block) == Format.Go(p) && (mount == FR_OK <==> Format.Room(p))
    ensures d != null <==> res == FR_OK && mount == FR_OK
    ensures d != null ==> fresh(d) && d.fs == v && v.geo == Format.GeoOf(p) && In(d, s) && Orderly(d, s, items)
    ensures d != null ==> s.cp == cp && s.up == up && s.size == max + 1
    ensures d != null ==> forall a: Act :: Terminated(a.path) ==> Bound(s, a, d.Entries(), []) == Missing
  {
    hide Volume.Valid, Volume.Table, Clusters.WellFormed, Clusters.Chain, Dir.Base, Dir.Entries, Sane, Folds, In, Orderly,
      Format.GeoOf, Format.Formats, Format.Request, Format.Room, IsPow2, Format.EmptyRoot, Clusters.FreeCount;
    d, s, items := null, Setting(cp, up, max + 1, false, 0, false), [];
    res, mount, p := Format.MkfsAndMount(v, sfd, au, block, tim, fsid);
    if res == FR_OK && mount == FR_OK {
      RequestFacts(|v.dev.sectors|, sfd, au, block, p);
      d, s, items := Root(v, cp, up, max, p);
    }
  }
}
