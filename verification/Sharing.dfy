// Open files and directories on one volume: what an operation on one leaves alone of the others.
module Sharing {
  import opened Words
  import opened Layout
  import opened Clusters
  import opened FileImage
  import opened FileSystem
  import opened FileObject
  import opened Directory
  import LinkMap
  import Lfn

  /** The sectors of a directory, and those of an open file without a common cluster. */
  lemma ApartFrom(d: Dir, f: File)
    requires d.fs == f.fs && d.Base() && f.fs.Valid() && f.buf.Length == 512 && WellFormed(f.fs.Table()) && f.OwnChain()
    requires f.Disjoint(d.chain, f.chain)
    ensures forall k :: 0 <= k < |f.Sects()| ==>
      f.Sects()[k] !in d.Sects() && f.fs.geo.database <= f.Sects()[k] < |f.fs.View()|
  {
    hide Volume.Valid, Volume.Table, Volume.View, Sectors, WellFormed, IsPow2, Path, Chain, Clust2Sect, Dir.Base;
    f.fs.Facts();
    f.ChainFacts();
    f.MirrorFree(f);
    d.SectsFacts();
    d.BaseChain();
    if d.Static() {
      SoundEnds(f.fs.geo, |f.fs.dev.sectors|);
    } else {
      f.DisjointSectors(d.chain, f.chain);
    }
  }

  /** A static root ends where the data area begins. */
  lemma SoundEnds(g: Geometry, n: nat)
    requires Sound(g, n)
    ensures g.fsType != Fat32 ==> forall s :: s in RootSectors(g) ==> s < g.database
  {
  }

  lemma DirWell(d: Dir)
    requires d.Base()
    ensures WellFormed(d.fs.Table()) && !d.fs.strayed
  {
  }

  /**
   * A directory operation leaves every open file as it was whose clusters are none of the directory's, and the bytes
   * of its directory entry if that lies elsewhere.
   */
  twostate lemma FileKept(d: Dir, f: File)
    requires d.fs == f.fs && unchanged(f) && unchanged(f.buf) && (f.cltbl != null ==> unchanged(f.cltbl))
    requires f.Disjoint(old(d.chain), f.chain) && d.Confined() && d.Base()
    requires old(f.Base())
    ensures f.Base() && f.Disjoint(d.chain, f.chain)
    ensures f.dirSect !in d.Sects() ==> f.EntryBytes() == old(f.EntryBytes())
  {
    hide Volume.Valid, Volume.Table, Volume.View, Sectors, OnDisk, Holds, WellFormed, IsPow2, Path, LinkMap.Describes,
      Distinct, Clust2Sect, File.EntryOwned, File.Disjoint, Sound, SameBut, Extends, Dir.Base;
    f.fs.Facts();
    f.fs.SnapView(d.Sects());
    ghost var t0, t1 := old(f.fs.Table()), f.fs.Table();
    assert old(f.OwnChain());
    f.OtherChain(t0, old(d.chain), t1, d.chain, f.chain);
    f.OtherEntry(f, t0, old(d.chain), t1, d.chain);
    d.BaseChain();
    DirWell(d);
    assert f.OwnChain();
    ApartFrom(d, f);
    f.Aside(f);
    f.EntrySectorApart();
  }

  /** An operation that reads, writes or moves in a file leaves the entries of every directory without a common cluster. */
  twostate lemma DirectoryKept(f: File, d: Dir)
    requires d.fs == f.fs && unchanged(d)
    requires f.Disjoint(old(f.chain), d.chain) && f.Confined()
    requires Extends(old(f.fs.Table()), old(f.chain), f.fs.Table(), f.chain)
    requires f.Base() && old(d.Base())
    ensures d.Base() && d.Entries() == old(d.Entries()) && f.Disjoint(f.chain, d.chain)
  {
    hide Volume.Valid, Volume.Table, Volume.View, Sectors, OnDisk, Holds, WellFormed, IsPow2, Path, LinkMap.Describes,
      Distinct, Clust2Sect, File.EntryOwned, File.Disjoint, Sound, SameBut, Extends, Row;
    f.fs.Facts();
    f.fs.SnapView(f.Sects());
    f.OtherChain(old(f.fs.Table()), old(f.chain), f.fs.Table(), f.chain, d.chain);
    f.BaseWell();
    assert d.Base();
    d.SectsFacts();
    SymmetricApart(f, f.chain, d.chain);
    ApartFrom(d, f);
    assert d.Sects() == old(d.Sects());
    RowsFrame(old(f.fs.View()), f.fs.View(), d.Sects());
  }

  lemma SymmetricApart(f: File, p: seq<nat>, q: seq<nat>)
    requires f.Disjoint(p, q)
    ensures f.Disjoint(q, p)
  {
  }

  /** The bytes of the entry of an open file are an entry of the directory it lies in. */
  ghost predicate InRow(f: File, d: Dir, k: nat)
    reads d`chain, d.fs`geo
  {
    k < 16 * |d.Sects()| && f.dirSect == d.Sects()[k / 16] && f.dirPtr == k % 16 * 32
  }

  /** Entry k of a directory was replaced by e, and no other. */
  ghost predicate EntryReplaced(was: seq<Lfn.Entry>, k: nat, e: seq<Byte>, now: seq<Lfn.Entry>) {
    k < |was| == |now| && now[k] == e && forall i :: 0 <= i < |was| && i != k ==> now[i] == was[i]
  }

  /** f_sync of a file changes one entry of the directory it lies in, its own. */
  twostate lemma EntrySynced(f: File, d: Dir, k: nat)
    requires d.fs == f.fs && unchanged(d) && unchanged(f`chain) && f.Disjoint(f.chain, d.chain) && InRow(f, d, k)
    requires f.OnlyEntry() && f.fs.Table() == old(f.fs.Table())
    requires f.Base() && old(d.Base())
    ensures d.Base() && EntryReplaced(old(d.Entries()), k, f.EntryBytes(), d.Entries())
  {
    hide Volume.Valid, Volume.Table, Volume.View, Sectors, OnDisk, Holds, WellFormed, IsPow2, Path, LinkMap.Describes,
      Distinct, Clust2Sect, File.EntryOwned, File.Disjoint, Sound, Row, Chain;
    f.fs.Facts();
    f.BaseWell();
    assert d.Base();
    d.SectsFacts();
    f.MirrorFree(f);
    f.BaseParts();
    SymmetricApart(f, f.chain, d.chain);
    ApartFrom(d, f);
    NoSpecial(d);
    ghost var v0, v1, o := old(f.fs.View()), f.fs.View(), f.dirPtr;
    ghost var e: Lfn.Entry := v1[f.dirSect][o..o + 32];
    ghost var v := v0[f.dirSect := Lfn.Put(v0[f.dirSect], o, e)];
    assert v1[f.dirSect] == Lfn.Put(v0[f.dirSect], o, e);
    RowWritten(v0, d.Sects(), k, e);
    assert d.Sects() == old(d.Sects());
    forall i | 0 <= i < |d.Sects()|
      ensures v1[d.Sects()[i]] == v[d.Sects()[i]]
    {
      assert d.Sects()[i] !in f.Sects();
    }
    RowsFrame(v, v1, d.Sects());
  }

  /** The sectors of a directory are neither FAT nor FSInfo. */
  lemma NoSpecial(d: Dir)
    requires d.Base()
    ensures forall i :: 0 <= i < |d.Sects()| ==>
      !InFat(d.fs.geo, d.Sects()[i]) && !IsMirror(d.fs.geo, d.Sects()[i]) && !d.fs.IsFsInfo(d.Sects()[i])
  {
    hide Volume.Table, Volume.View, Sectors, WellFormed, IsPow2, Path, Chain, Clust2Sect, Dir.Base, Dir.Sects;
    d.SectsFacts();
    d.fs.Facts();
  }
}
