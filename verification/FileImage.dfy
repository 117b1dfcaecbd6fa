// Where the bytes of a file lie: the sectors of its cluster chain, in order.
module FileImage {
  import opened Words
  import opened Layout
  import opened Clusters
  import opened Disk

  // ----- positions -----

  /** Cluster order of sector k of a file, and its place within that cluster. */
  function ClusterIndex(g: Geometry, k: nat): nat
    requires g.csize > 0
  {
    k / g.csize
  }

  function SectorInCluster(g: Geometry, k: nat): nat
    requires g.csize > 0
  {
    k % g.csize
  }

  /** k is sector i of cluster c: the division by the cluster size, in product form. */
  lemma Position(g: Geometry, k: nat)
    requires g.csize > 0
    ensures var c, i := ClusterIndex(g, k), SectorInCluster(g, k);
      k == Span(g, c) + i && i < g.csize
  {
  }

  lemma PositionUnique(g: Geometry, k: nat, c: nat, i: nat)
    requires g.csize > 0 && k == Span(g, c) + i && i < g.csize
    ensures ClusterIndex(g, k) == c && SectorInCluster(g, k) == i
  {
    ModUnique(k, g.csize, c, i);
  }

  /** One sector further is the next sector of the cluster or the first one of the next cluster. */
  lemma PositionNext(g: Geometry, k: nat)
    requires g.csize > 0
    ensures if SectorInCluster(g, k) + 1 < g.csize
      then ClusterIndex(g, k + 1) == ClusterIndex(g, k) && SectorInCluster(g, k + 1) == SectorInCluster(g, k) + 1
      else ClusterIndex(g, k + 1) == ClusterIndex(g, k) + 1 && SectorInCluster(g, k + 1) == 0
  {
    hide Span, ClusterIndex, SectorInCluster;
    Position(g, k);
    var c, i := ClusterIndex(g, k), SectorInCluster(g, k);
    if i + 1 < g.csize {
      PositionUnique(g, k + 1, c, i + 1);
    } else {
      SpanMono(g, c, c + 1);
      PositionUnique(g, k + 1, c + 1, 0);
    }
  }

  lemma PositionBelow(g: Geometry, k: nat, n: nat)
    requires g.csize > 0
    ensures k < Span(g, n) <==> ClusterIndex(g, k) < n
  {
    hide Span, ClusterIndex, SectorInCluster;
    Position(g, k);
    var c := ClusterIndex(g, k);
    if c < n { SpanMono(g, c, n); }
    if n < c { SpanMono(g, n, c); }
  }

  // ----- the sectors of a chain -----

  /** The sectors of one cluster. */
  function ClusterSectors(g: Geometry, c: nat): seq<nat>
  {
    var first := if c < 0x1_0000_0000 then Clust2Sect(g, c) else 0;
    seq<nat>(g.csize, (i: nat) => first + i)
  }

  /** The sectors of a file whose clusters are chain. */
  function Sectors(g: Geometry, chain: seq<nat>): (s: seq<nat>)
  {
    if chain == [] then []
    else Sectors(g, chain[..|chain| - 1]) + ClusterSectors(g, chain[|chain| - 1])
  }

  predicate AllClusters(g: Geometry, chain: seq<nat>)
  {
    forall i :: 0 <= i < |chain| ==> 2 <= chain[i] < g.nFatent
  }

  lemma {:induction false} SectorsLength(g: Geometry, chain: seq<nat>)
    ensures |Sectors(g, chain)| == Span(g, |chain|)
  {
    if chain != [] {
      SectorsLength(g, chain[..|chain| - 1]);
      SpanMono(g, |chain| - 1, |chain|);
    }
  }

  /** Sector k of the file is sector k % csize of cluster k / csize. */
  lemma {:induction false} SectorAt(g: Geometry, chain: seq<nat>, k: nat)
    requires 0 < g.csize && AllClusters(g, chain) && g.nFatent < 0x1_0000_0000
    requires k < |Sectors(g, chain)|
    ensures ClusterIndex(g, k) < |chain|
    ensures Sectors(g, chain)[k] == Clust2Sect(g, chain[ClusterIndex(g, k)]) + SectorInCluster(g, k)
  {
    hide Span, ClusterIndex, SectorInCluster, Clust2Sect;
    SectorsLength(g, chain);
    PositionBelow(g, k, |chain|);
    var n := |chain| - 1;
    var front := chain[..n];
    SectorsLength(g, front);
    PositionBelow(g, k, n);
    if ClusterIndex(g, k) < n {
      SectorAt(g, front, k);
    } else {
      Position(g, k);
    }
  }

  lemma SectorsAppend(g: Geometry, chain: seq<nat>, c: nat)
    ensures Sectors(g, chain + [c]) == Sectors(g, chain) + ClusterSectors(g, c)
  {
    assert (chain + [c])[..|chain|] == chain;
  }

  /** All sectors of a file lie in blocks of its clusters, hence in the data area. */
  lemma SectorInBlock(g: Geometry, chain: seq<nat>, k: nat, n: nat)
    requires Sound(g, n) && AllClusters(g, chain) && k < |Sectors(g, chain)|
    requires g.nFatent < 0x1_0000_0000
    ensures ClusterIndex(g, k) < |chain|
    ensures InBlock(g, chain[ClusterIndex(g, k)], Sectors(g, chain)[k])
    ensures g.database <= Sectors(g, chain)[k] < n
  {
    hide Span, ClusterIndex, SectorInCluster, Clust2Sect, IsPow2;
    SectorAt(g, chain, k);
    Position(g, k);
    Clust2SectValue(g, chain[ClusterIndex(g, k)], n);
  }

  ghost predicate Distinct(s: seq<nat>)
  {
    forall i, j :: 0 <= i < j < |s| ==> s[i] != s[j]
  }

  /** Different sectors of a file are different sectors of the disk. */
  lemma SectorsDistinct(g: Geometry, chain: seq<nat>, n: nat)
    requires Sound(g, n) && AllClusters(g, chain) && Distinct(chain) && g.nFatent < 0x1_0000_0000
    ensures Distinct(Sectors(g, chain))
  {
    hide Span, ClusterIndex, SectorInCluster, Clust2Sect, Sound, Sectors;
    var s := Sectors(g, chain);
    forall i, j | 0 <= i < j < |s|
      ensures s[i] != s[j]
    {
      SectorInBlock(g, chain, i, n);
      SectorInBlock(g, chain, j, n);
      if s[i] == s[j] {
        BlocksDisjoint(g, chain[ClusterIndex(g, i)], chain[ClusterIndex(g, j)], s[i], n);
        SamePlace(g, chain, i, j, n);
      }
    }
  }

  lemma SamePlace(g: Geometry, chain: seq<nat>, i: nat, j: nat, n: nat)
    requires Sound(g, n) && AllClusters(g, chain) && Distinct(chain) && g.nFatent < 0x1_0000_0000
    requires i < |Sectors(g, chain)| && j < |Sectors(g, chain)|
    requires Sectors(g, chain)[i] == Sectors(g, chain)[j]
    requires ClusterIndex(g, i) < |chain| && ClusterIndex(g, j) < |chain|
    requires chain[ClusterIndex(g, i)] == chain[ClusterIndex(g, j)]
    ensures i == j
  {
    hide Span, ClusterIndex, SectorInCluster, Clust2Sect, IsPow2;
    SectorAt(g, chain, i);
    SectorAt(g, chain, j);
    Position(g, i);
    Position(g, j);
    assert ClusterIndex(g, i) == ClusterIndex(g, j);
  }

  // ----- contents -----

  predicate Within(s: seq<nat>, n: nat)
  {
    forall k :: 0 <= k < |s| ==> s[k] < n
  }

  /** The disk d holds data in the sectors s. */
  ghost predicate Holds(d: seq<Sector>, s: seq<nat>, data: seq<Byte>)
  {
    && Within(s, |d|) && |data| <= 512 * |s|
    && forall i :: 0 <= i < |data| ==> d[s[i / 512]][i % 512] == data[i]
  }

  /** Sector k agrees with data as far as data reaches. */
  ghost predicate Agrees(sec: Sector, data: seq<Byte>, k: nat)
  {
    forall j :: 0 <= j < 512 && 512 * k + j < |data| ==> sec[j] == data[512 * k + j]
  }

  lemma HoldsAt(d: seq<Sector>, s: seq<nat>, data: seq<Byte>, k: nat)
    requires Holds(d, s, data) && k < |s|
    ensures Agrees(d[s[k]], data, k)
  {
    forall j | 0 <= j < 512 && 512 * k + j < |data|
      ensures d[s[k]][j] == data[512 * k + j]
    {
      var i := 512 * k + j;
      assert i / 512 == k && i % 512 == j;
    }
  }

  lemma HoldsIntro(d: seq<Sector>, s: seq<nat>, data: seq<Byte>)
    requires Within(s, |d|) && |data| <= 512 * |s|
    requires forall k :: 0 <= k < |s| ==> Agrees(d[s[k]], data, k)
    ensures Holds(d, s, data)
  {
    forall i | 0 <= i < |data|
      ensures d[s[i / 512]][i % 512] == data[i]
    {
      var k, j := i / 512, i % 512;
      assert i == 512 * k + j;
      assert Agrees(d[s[k]], data, k);
    }
  }

  /** Only the sectors of the file matter. */
  lemma HoldsFrame(d: seq<Sector>, d': seq<Sector>, s: seq<nat>, data: seq<Byte>)
    requires Holds(d, s, data) && Within(s, |d'|)
    requires forall k :: 0 <= k < |s| ==> d'[s[k]] == d[s[k]]
    ensures Holds(d', s, data)
  {
  }

  /** The file grows by a cluster; its contents are the same. */
  lemma HoldsMore(d: seq<Sector>, s: seq<nat>, more: seq<nat>, data: seq<Byte>)
    requires Holds(d, s, data) && Within(more, |d|)
    ensures Holds(d, s + more, data)
  {
    assert Within(s + more, |d|);
  }

  /** data with the bytes from position p on replaced by src; it grows when src reaches past its end. */
  function Splice(data: seq<Byte>, p: nat, src: seq<Byte>): (r: seq<Byte>)
    ensures p <= |data| ==>
      && |r| == (if p + |src| > |data| then p + |src| else |data|)
      && forall i :: 0 <= i < |r| ==> r[i] == if p <= i < p + |src| then src[i - p] else data[i]
  {
    if p > |data| then data
    else data[..p] + src + (if p + |src| < |data| then data[p + |src|..] else [])
  }

  lemma SpliceTwice(data: seq<Byte>, p: nat, a: seq<Byte>, b: seq<Byte>)
    requires p <= |data|
    ensures Splice(Splice(data, p, a), p + |a|, b) == Splice(data, p, a + b)
  {
  }

  lemma SpliceLength(data: seq<Byte>, p: nat, src: seq<Byte>)
    requires p <= |data|
    ensures |Splice(data, p, src)| == if p + |src| > |data| then p + |src| else |data|
  {
  }

  lemma SpliceNothing(data: seq<Byte>, p: nat)
    requires p <= |data|
    ensures Splice(data, p, []) == data
  {
  }

  // ----- the private sector buffer -----

  /** The drive overlaid with the file's sector buffer b, which stands for sector dsect. */
  function Image(d: seq<Sector>, dsect: nat, b: Sector): (r: seq<Sector>)
    ensures |r| == |d|
  {
    if 0 < dsect < |d| then d[dsect := b] else d
  }

  /**
   * The drive d and the buffer b together hold data in the sectors s. The buffer stands for sector
   * number pos of the file unless dsect is 0, and equals the drive there unless it is dirty.
   */
  ghost predicate OnDisk(d: seq<Sector>, s: seq<nat>, dsect: nat, pos: nat, b: Sector, dirty: bool, data: seq<Byte>)
  {
    && Within(s, |d|) && Distinct(s)
    && (dsect != 0 ==> pos < |s| && s[pos] == dsect)
    && (dirty ==> dsect != 0)
    && (!dirty && dsect != 0 ==> b == d[dsect])
    && Holds(Image(d, dsect, b), s, data)
  }

  lemma CleanImage(d: seq<Sector>, s: seq<nat>, dsect: nat, pos: nat, b: Sector, data: seq<Byte>)
    requires OnDisk(d, s, dsect, pos, b, false, data)
    ensures Image(d, dsect, b) == d && Holds(d, s, data)
  {
    if dsect != 0 { assert d[dsect := d[dsect]] == d; }
  }

  /** Writing the buffer back. */
  lemma FlushBuffer(d: seq<Sector>, s: seq<nat>, dsect: nat, pos: nat, b: Sector, data: seq<Byte>)
    requires OnDisk(d, s, dsect, pos, b, true, data)
    ensures OnDisk(d[dsect := b], s, dsect, pos, b, false, data)
  {
    assert d[dsect := b][dsect := b] == d[dsect := b];
  }

  /** Reading sector k of the file into a clean buffer. */
  lemma LoadBuffer(d: seq<Sector>, s: seq<nat>, dsect: nat, pos: nat, b: Sector, data: seq<Byte>, k: nat)
    requires OnDisk(d, s, dsect, pos, b, false, data) && k < |s|
    ensures OnDisk(d, s, s[k], k, d[s[k]], false, data)
  {
    CleanImage(d, s, dsect, pos, b, data);
    if s[k] != 0 { assert d[s[k] := d[s[k]]] == d; }
  }

  /** Activity on the volume that leaves the sectors of the file alone. */
  lemma KeepImage(d: seq<Sector>, d': seq<Sector>, s: seq<nat>, dsect: nat, pos: nat, b: Sector, dirty: bool,
      data: seq<Byte>)
    requires OnDisk(d, s, dsect, pos, b, dirty, data) && |d'| == |d|
    requires forall k :: 0 <= k < |s| ==> d'[s[k]] == d[s[k]]
    ensures OnDisk(d', s, dsect, pos, b, dirty, data)
  {
    HoldsFrame(Image(d, dsect, b), Image(d', dsect, b), s, data);
  }

  /** The file grows by further sectors. */
  lemma GrowImage(d: seq<Sector>, s: seq<nat>, more: seq<nat>, dsect: nat, pos: nat, b: Sector, dirty: bool,
      data: seq<Byte>)
    requires OnDisk(d, s, dsect, pos, b, dirty, data)
    requires Within(s + more, |d|) && Distinct(s + more)
    ensures OnDisk(d, s + more, dsect, pos, b, dirty, data)
  {
    assert forall k :: 0 <= k < |more| ==> (s + more)[|s| + k] == more[k];
    HoldsMore(Image(d, dsect, b), s, more, data);
  }

  /** b with the bytes from offset o on replaced by src. */
  function Patch(b: Sector, o: nat, src: seq<Byte>): (r: Sector)
    requires o + |src| <= 512
    ensures forall j :: 0 <= j < 512 ==> r[j] == if o <= j < o + |src| then src[j - o] else b[j]
  {
    b[..o] + src + b[o + |src|..]
  }

  /** A replacement inside sector k does not concern sector i. */
  lemma SpliceElsewhere(sec: Sector, data: seq<Byte>, k: nat, p: nat, src: seq<Byte>, i: nat)
    requires 512 * k <= p <= |data| && p + |src| <= 512 * (k + 1) && i != k && Agrees(sec, data, i)
    ensures Agrees(sec, Splice(data, p, src), i)
  {
    var r := Splice(data, p, src);
    forall j | 0 <= j < 512 && 512 * i + j < |r|
      ensures sec[j] == r[512 * i + j]
    {
      assert !(p <= 512 * i + j < p + |src|);
    }
  }

  /** Patching a copy of sector k follows the replacement inside it. */
  lemma SplicePatched(b: Sector, data: seq<Byte>, k: nat, p: nat, src: seq<Byte>)
    requires 512 * k <= p <= |data| && p + |src| <= 512 * (k + 1) && Agrees(b, data, k)
    ensures Agrees(Patch(b, p - 512 * k, src), Splice(data, p, src), k)
  {
    var r, c := Splice(data, p, src), Patch(b, p - 512 * k, src);
    forall j | 0 <= j < 512 && 512 * k + j < |r|
      ensures c[j] == r[512 * k + j]
    {
    }
  }

  /** Changing some bytes of sector k, of which b is an up-to-date copy as far as data reaches. */
  lemma PartialWrite(d: seq<Sector>, s: seq<nat>, data: seq<Byte>, k: nat, b: Sector, p: nat, src: seq<Byte>)
    requires Holds(d, s, data) && Distinct(s) && k < |s| && Agrees(b, data, k)
    requires 512 * k <= p <= |data| && p + |src| <= 512 * (k + 1)
    ensures Holds(d[s[k] := Patch(b, p - 512 * k, src)], s, Splice(data, p, src))
  {
    hide Splice, Patch, Agrees;
    var b' := Patch(b, p - 512 * k, src);
    var d' := d[s[k] := b'];
    var data' := Splice(data, p, src);
    SplicePatched(b, data, k, p, src);
    forall i | 0 <= i < |s|
      ensures Agrees(d'[s[i]], data', i)
    {
      if i != k {
        HoldsAt(d, s, data, i);
        SpliceElsewhere(d[s[i]], data, k, p, src, i);
      }
    }
    HoldsIntro(d', s, data');
  }

  /** d' is d with cnt sectors of the file, from number k on, replaced by consecutive pieces of src. */
  ghost predicate RunWritten(d: seq<Sector>, d': seq<Sector>, s: seq<nat>, k: nat, cnt: nat, src: seq<Byte>)
    requires |src| == 512 * cnt && k + cnt <= |s|
  {
    && |d'| == |d| && Within(s, |d|)
    && forall i :: 0 <= i < |s| ==>
         d'[s[i]] == if k <= i < k + cnt then src[512 * (i - k)..512 * (i - k) + 512] else d[s[i]]
  }

  /** Replacing whole sectors. */
  lemma DirectWrite(d: seq<Sector>, d': seq<Sector>, s: seq<nat>, data: seq<Byte>, k: nat, cnt: nat, src: seq<Byte>)
    requires Holds(d, s, data) && k + cnt <= |s| && |src| == 512 * cnt && 512 * k <= |data|
    requires RunWritten(d, d', s, k, cnt, src)
    ensures Holds(d', s, Splice(data, 512 * k, src))
  {
    var data' := Splice(data, 512 * k, src);
    forall i | 0 <= i < |s|
      ensures Agrees(d'[s[i]], data', i)
    {
      HoldsAt(d, s, data, i);
    }
    HoldsIntro(d', s, data');
  }

  /** Sectors k .. k + cnt - 1 of a file are consecutive on the disk, from sect on. */
  ghost predicate Contiguous(s: seq<nat>, k: nat, cnt: nat, sect: nat)
  {
    k + cnt <= |s| && forall n :: k <= n < k + cnt ==> s[n] == sect + (n - k)
  }

  lemma ContiguousFirst(s: seq<nat>, k: nat, cnt: nat, n: nat, sect: nat)
    requires Contiguous(s, k, cnt, sect) && 0 < n <= cnt
    ensures k < |s| && s[k] == sect && Contiguous(s, k, n, sect)
  {
  }

  lemma RunInside(d: seq<Sector>, s: seq<nat>, k: nat, cnt: nat, sect: nat)
    requires Within(s, |d|) && Contiguous(s, k, cnt, sect) && cnt > 0
    ensures sect + cnt <= |d| && k + cnt <= |s| && sect == s[k]
  {
    assert s[k + cnt - 1] == sect + (cnt - 1);
  }

  /** Within a cluster, sectors are consecutive. */
  lemma ClusterContiguous(g: Geometry, chain: seq<nat>, k: nat)
    requires 0 < g.csize && AllClusters(g, chain) && g.nFatent < 0x1_0000_0000
    requires k < |Sectors(g, chain)|
    ensures ClusterIndex(g, k) < |chain|
    ensures Contiguous(Sectors(g, chain), k, g.csize - SectorInCluster(g, k),
      Clust2Sect(g, chain[ClusterIndex(g, k)]) + SectorInCluster(g, k))
    ensures forall n :: k <= n < k + (g.csize - SectorInCluster(g, k)) ==> ClusterIndex(g, n) == ClusterIndex(g, k)
  {
    hide Span, ClusterIndex, SectorInCluster, Sectors, Clust2Sect;
    Position(g, k);
    SectorsLength(g, chain);
    PositionBelow(g, k, |chain|);
    var c, i := ClusterIndex(g, k), SectorInCluster(g, k);
    SpanMono(g, c, |chain|);
    forall n | k <= n < k + (g.csize - i)
      ensures n < |Sectors(g, chain)| && ClusterIndex(g, n) == c
      ensures Sectors(g, chain)[n] == Clust2Sect(g, chain[c]) + i + (n - k)
    {
      PositionUnique(g, n, c, i + (n - k));
      SectorAt(g, chain, n);
    }
  }

  /** The bytes of consecutive sectors of the image are consecutive bytes of the file. */
  lemma DirectRead(m: seq<Sector>, s: seq<nat>, data: seq<Byte>, k: nat, cc: nat, sect: nat)
    requires Holds(m, s, data) && Contiguous(s, k, cc, sect)
    requires 512 * (k + cc) <= |data| && sect + cc <= |m|
    ensures RunBytes(m, sect, cc) == data[512 * k..512 * (k + cc)]
  {
    forall i | 0 <= i < 512 * cc
      ensures RunBytes(m, sect, cc)[i] == data[512 * k + i]
    {
      var n := k + i / 512;
      assert s[n] == sect + i / 512;
      HoldsAt(m, s, data, n);
      assert 512 * k + i == 512 * n + i % 512;
    }
  }

  /** Bytes read past a dirty buffer are corrected by copying the buffer over them. */
  lemma PatchRun(d: seq<Sector>, sect: nat, cc: nat, dsect: nat, b: Sector)
    requires 0 < sect && sect + cc <= |d| && sect <= dsect < sect + cc
    ensures var o, r := (dsect - sect) * 512, RunBytes(d, sect, cc);
      RunBytes(Image(d, dsect, b), sect, cc) == r[..o] + b + r[o + 512..]
  {
  }

  /** Copying b over a slice, seen in the slice. */
  lemma SlicePatch(w: seq<Byte>, off: nat, len: nat, o: nat, b: seq<Byte>)
    requires off + len <= |w| && o + |b| <= len
    ensures (w[..off + o] + b + w[off + o + |b|..])[off..off + len] ==
      w[off..off + len][..o] + b + w[off..off + len][o + |b|..]
  {
    var x := (w[..off + o] + b + w[off + o + |b|..])[off..off + len];
    var y := w[off..off + len][..o] + b + w[off..off + len][o + |b|..];
    assert |x| == |y| == len;
    forall i | 0 <= i < len
      ensures x[i] == y[i]
    {
      assert x[i] == (w[..off + o] + b + w[off + o + |b|..])[off + i];
    }
  }

  lemma NoPatch(d: seq<Sector>, sect: nat, cc: nat, dsect: nat, b: Sector)
    requires sect + cc <= |d| && !(sect <= dsect < sect + cc)
    ensures RunBytes(Image(d, dsect, b), sect, cc) == RunBytes(d, sect, cc)
  {
  }

  /** The buffer is an up-to-date copy of the sector it stands for. */
  lemma BufferAgrees(d: seq<Sector>, s: seq<nat>, dsect: nat, pos: nat, b: Sector, dirty: bool, data: seq<Byte>, k: nat)
    requires OnDisk(d, s, dsect, pos, b, dirty, data) && k < |s| && s[k] == dsect != 0
    ensures Agrees(b, data, k)
  {
    HoldsAt(Image(d, dsect, b), s, data, k);
  }

  /** A sector behind the end of the data has nothing to agree with. */
  lemma NothingThere(b: Sector, data: seq<Byte>, k: nat)
    requires |data| <= 512 * k
    ensures Agrees(b, data, k)
  {
  }

  /** The bytes from position p on, within sector k. */
  lemma AgreesSlice(b: Sector, data: seq<Byte>, k: nat, p: nat, n: nat)
    requires Agrees(b, data, k) && 512 * k <= p && p + n <= 512 * (k + 1) && p + n <= |data|
    ensures b[p - 512 * k..p - 512 * k + n] == data[p..p + n]
  {
    var o := p - 512 * k;
    forall j | o <= j < o + n
      ensures b[j] == data[512 * k + j]
    {
    }
    assert b[o..o + n] == data[512 * k + o..512 * k + o + n];
  }

  lemma JoinSlices(w: seq<Byte>, n: nat, r: nat, data: seq<Byte>, p: nat)
    requires n + r <= |w| && p + n + r <= |data|
    requires w[..n] == data[p..p + n] && w[n..n + r] == data[p + n..p + n + r]
    ensures w[..n + r] == data[p..p + n + r]
  {
    assert w[..n + r] == w[..n] + w[n..n + r];
    assert data[p..p + n + r] == data[p..p + n] + data[p + n..p + n + r];
  }

  /** Writing bytes of sector k into the buffer, which is a copy of it or lies beyond the data. */
  lemma BufferWrite(d: seq<Sector>, s: seq<nat>, dsect: nat, b0: Sector, data: seq<Byte>, k: nat, b: Sector, p: nat,
      src: seq<Byte>)
    requires Within(s, |d|) && Distinct(s) && Holds(Image(d, dsect, b0), s, data)
    requires k < |s| && s[k] != 0 && Agrees(b, data, k)
    requires dsect == s[k] || Image(d, dsect, b0) == d
    requires 512 * k <= p <= |data| && p + |src| <= 512 * (k + 1)
    ensures OnDisk(d, s, s[k], k, Patch(b, p - 512 * k, src), true, Splice(data, p, src))
  {
    hide Distinct, Splice, Patch, Agrees;
    var m := Image(d, dsect, b0);
    var b' := Patch(b, p - 512 * k, src);
    PartialWrite(m, s, data, k, b, p, src);
    assert m[s[k] := b'] == Image(d, s[k], b');
  }

  lemma ContiguousMember(s: seq<nat>, k: nat, cnt: nat, sect: nat, x: nat)
    requires Contiguous(s, k, cnt, sect) && sect <= x < sect + cnt
    ensures x in s
  {
    assert s[k + (x - sect)] == x;
  }

  /** Which sectors of the file lie in a contiguous run of it. */
  lemma RunIndex(s: seq<nat>, k: nat, cnt: nat, sect: nat, i: nat)
    requires Distinct(s) && Contiguous(s, k, cnt, sect) && i < |s|
    ensures sect <= s[i] < sect + cnt <==> k <= i < k + cnt
    ensures k <= i < k + cnt ==> s[i] == sect + (i - k)
  {
    if sect <= s[i] < sect + cnt {
      var j := k + (s[i] - sect);
      assert s[j] == s[i];
      assert i == j;
    }
  }

  /** What a multi-sector write does to the sectors of the file. */
  lemma RunIsWritten(d: seq<Sector>, d': seq<Sector>, s: seq<nat>, k: nat, cnt: nat, sect: nat, src: seq<Byte>)
    requires Within(s, |d|) && Distinct(s) && Contiguous(s, k, cnt, sect) && |src| == 512 * cnt && |d'| == |d|
    requires forall n :: sect <= n < sect + cnt ==> n < |d| && d'[n] == src[(n - sect) * 512..(n - sect + 1) * 512]
    requires forall n :: 0 <= n < |d| && !(sect <= n < sect + cnt) ==> d'[n] == d[n]
    ensures RunWritten(d, d', s, k, cnt, src)
  {
    forall i | 0 <= i < |s|
      ensures d'[s[i]] == if k <= i < k + cnt then src[512 * (i - k)..512 * (i - k) + 512] else d[s[i]]
    {
      RunIndex(s, k, cnt, sect, i);
    }
  }

  /** A clean buffer after a multi-sector write: refilled when its sector was among those written. */
  lemma DirectOnDisk(d: seq<Sector>, d': seq<Sector>, s: seq<nat>, dsect: nat, pos: nat, b: Sector, b': Sector,
      data: seq<Byte>, k: nat, cnt: nat, sect: nat, src: seq<Byte>)
    requires OnDisk(d, s, dsect, pos, b, false, data) && |src| == 512 * cnt && 512 * k <= |data|
    requires Contiguous(s, k, cnt, sect) && RunWritten(d, d', s, k, cnt, src)
    requires dsect == 0 || b' == if sect <= dsect < sect + cnt then d'[dsect] else b
    ensures OnDisk(d', s, dsect, pos, b', false, Splice(data, 512 * k, src))
  {
    hide Splice, Agrees, Holds;
    CleanImage(d, s, dsect, pos, b, data);
    DirectWrite(d, d', s, data, k, cnt, src);
    if dsect != 0 {
      RunIndex(s, k, cnt, sect, pos);
      assert d'[s[pos]] == if k <= pos < k + cnt then src[512 * (pos - k)..512 * (pos - k) + 512] else d[dsect];
      assert d'[dsect := b'] == d';
    }
  }

  /** The sectors of a shorter chain are among those of a longer one. */
  lemma {:induction false} SectorsPrefix(g: Geometry, p: seq<nat>, q: seq<nat>)
    requires p <= q
    ensures Sectors(g, p) <= Sectors(g, q)
    ensures forall s :: s in Sectors(g, p) ==> s in Sectors(g, q)
    decreases |q|
  {
    if |p| < |q| {
      SectorsPrefix(g, p, q[..|q| - 1]);
    } else {
      assert p == q;
    }
  }

  // ----- seeking -----

  /** The cluster order of byte y, by the cluster size in bytes. */
  lemma ByteCluster(g: Geometry, y: nat)
    requires g.csize > 0
    ensures y / (g.csize * 512) == ClusterIndex(g, y / 512)
  {
    hide Span;
    Position(g, y / 512);
    var c, i := ClusterIndex(g, y / 512), SectorInCluster(g, y / 512);
    SpanBytes(g, c);
    ModUnique(y, g.csize * 512, c, 512 * i + y % 512);
  }

  lemma SpanBytes(g: Geometry, c: nat)
    ensures c * (g.csize * 512) == 512 * Span(g, c)
  {
  }

  /** Rounding y down to a multiple of the cluster size gives the first byte of its cluster. */
  lemma ClusterStart(g: Geometry, y: Dword)
    requires IsPow2(g.csize) && 0 < g.csize <= 128
    ensures And(y, Not32(g.csize * 512 - 1)) == 512 * Span(g, ClusterIndex(g, y / 512))
    ensures 512 * Span(g, ClusterIndex(g, y / 512)) <= y
  {
    hide Span, IsPow2, ClusterIndex, And;
    var m := g.csize * 512;
    Pow2Times512(g.csize);
    AndClear(y, m);
    ByteCluster(g, y);
    SpanBytes(g, y / m);
    assert y == y / m * m + y % m;
  }

  lemma Pow2Times512(c: nat)
    requires IsPow2(c)
    ensures IsPow2(c * 512)
  {
    assert Pow2(4) == 16 && Pow2(9) == 32 * Pow2(4);
    Pow2Scale(c, 9);
  }

  lemma {:induction false} Pow2Scale(c: nat, k: nat)
    requires IsPow2(c)
    ensures IsPow2(c * Pow2(k))
    decreases k
  {
    hide IsPow2;
    if k > 0 {
      DoublePow2(c);
      Pow2Scale(2 * c, k - 1);
      Shift2(c, Pow2(k - 1));
    } else {
      assert c * Pow2(0) == c;
    }
  }

  lemma DoublePow2(c: nat)
    requires IsPow2(c)
    ensures IsPow2(2 * c)
  {
  }

  lemma Shift2(c: nat, p: nat)
    ensures c * (2 * p) == (2 * c) * p
  {
  }

  /** A position within cluster c, behind its first byte. */
  lemma InsideCluster(g: Geometry, c: nat, ofs: nat)
    requires g.csize > 0 && 0 < ofs <= g.csize * 512
    ensures ClusterIndex(g, (512 * Span(g, c) + ofs - 1) / 512) == c
    ensures (512 * Span(g, c) + ofs) % 512 == ofs % 512
    ensures ofs % 512 != 0 ==>
      var k := (512 * Span(g, c) + ofs) / 512;
      k == Span(g, c) + ofs / 512 && ClusterIndex(g, k) == c && SectorInCluster(g, k) == ofs / 512 < g.csize
  {
    hide Span, ClusterIndex, SectorInCluster;
    var p := 512 * Span(g, c) + ofs;
    assert (p - 1) / 512 == Span(g, c) + (ofs - 1) / 512;
    PositionUnique(g, (p - 1) / 512, c, (ofs - 1) / 512);
    if p % 512 != 0 {
      PositionUnique(g, p / 512, c, ofs / 512);
    }
  }

  /** What lies on the disk at file positions from a up to b. */
  function Exposed(m: seq<Sector>, s: seq<nat>, a: nat, b: nat): (r: seq<Byte>)
    requires a <= b <= 512 * |s| && Within(s, |m|)
    ensures |r| == b - a
  {
    seq(b - a, i requires 0 <= i < b - a => m[s[(a + i) / 512]][(a + i) % 512])
  }

  /** Moving the end of the file forward exposes whatever is there. */
  lemma HoldsExposed(m: seq<Sector>, s: seq<nat>, data: seq<Byte>, n: nat)
    requires Holds(m, s, data) && |data| <= n <= 512 * |s|
    ensures Holds(m, s, data + Exposed(m, s, |data|, n))
  {
    var d := data + Exposed(m, s, |data|, n);
    forall i | 0 <= i < |d|
      ensures m[s[i / 512]][i % 512] == d[i]
    {
      if i >= |data| {
        assert d[i] == Exposed(m, s, |data|, n)[i - |data|];
      }
    }
  }

  lemma SpanOrder(g: Geometry, a: nat, b: nat)
    requires a <= b
    ensures Span(g, a) <= Span(g, b)
  {
    hide Span;
    if a < b { SpanMono(g, a, b); }
  }

  lemma ExposeOnDisk(d: seq<Sector>, s: seq<nat>, dsect: nat, pos: nat, b: Sector, dirty: bool, data: seq<Byte>, n: nat)
    requires OnDisk(d, s, dsect, pos, b, dirty, data) && |data| <= n <= 512 * |s|
    ensures OnDisk(d, s, dsect, pos, b, dirty, data + Exposed(Image(d, dsect, b), s, |data|, n))
  {
    HoldsExposed(Image(d, dsect, b), s, data, n);
  }

  /** The file loses sectors at its end: the buffer must not stand for one of them. */
  lemma ShrinkImage(d: seq<Sector>, s: seq<nat>, s1: seq<nat>, dsect: nat, pos: nat, b: Sector, dirty: bool,
      data: seq<Byte>, n: nat)
    requires OnDisk(d, s, dsect, pos, b, dirty, data) && s1 <= s && n <= |data| && n <= 512 * |s1|
    ensures OnDisk(d, s1, dsect, pos, b, dirty, data[..n]) <==> dsect == 0 || pos < |s1|
  {
    assert forall i, j :: 0 <= i < j < |s1| ==> s[i] != s[j];
  }
}
