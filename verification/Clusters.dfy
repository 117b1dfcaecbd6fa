// Cluster chains over the FAT seen as an array of entries: fat[c] is the successor of cluster c,
// 0 when c is free, and any value from |fat| on when c ends a chain.
module Clusters {

  type Fat = seq<nat>

  // ----- links, paths, chains -----

  predicate IsCluster(fat: Fat, c: nat)
  {
    2 <= c < |fat|
  }

  predicate Link(fat: Fat, c: nat, d: nat)
  {
    IsCluster(fat, c) && IsCluster(fat, d) && fat[c] == d
  }

  predicate Path(fat: Fat, p: seq<nat>)
  {
    && (forall i :: 0 <= i < |p| ==> IsCluster(fat, p[i]))
    && (forall i :: 0 <= i < |p| - 1 ==> fat[p[i]] == p[i + 1])
  }

  /** A complete chain: a path whose last cluster carries an end mark. */
  predicate Chain(fat: Fat, p: seq<nat>)
  {
    |p| > 0 && Path(fat, p) && fat[p[|p| - 1]] >= |fat|
  }

  ghost predicate NoDangling(fat: Fat)
  {
    forall c: nat, d: nat :: Link(fat, c, d) ==> fat[d] != 0
  }

  ghost predicate SinglePred(fat: Fat)
  {
    forall c: nat, e: nat, d: nat :: Link(fat, c, d) && Link(fat, e, d) ==> c == e
  }

  ghost predicate Acyclic(fat: Fat)
  {
    forall p: seq<nat> :: |p| >= 2 && Path(fat, p) ==> p[0] != p[|p| - 1]
  }

  /** No link to a free cluster, at most one predecessor per cluster, no cycle. */
  ghost predicate WellFormed(fat: Fat)
  {
    NoDangling(fat) && SinglePred(fat) && Acyclic(fat)
  }

  /** No cluster links to c. */
  ghost predicate IsHead(fat: Fat, c: nat)
  {
    forall b: nat :: !Link(fat, b, c)
  }

  // ----- the single entry updates keep the FAT well-formed -----

  /** Marking a free cluster "last link". */
  lemma MarkEnd(fat: Fat, n: nat, mark: nat)
    requires WellFormed(fat) && IsCluster(fat, n) && fat[n] == 0 && mark >= |fat|
    ensures WellFormed(fat[n := mark])
    ensures IsHead(fat, n) && IsHead(fat[n := mark], n)
  {
    var f := fat[n := mark];
    assert forall c: nat, d: nat :: Link(f, c, d) ==> Link(fat, c, d);
    forall p: seq<nat> | |p| >= 2 && Path(f, p)
      ensures p[0] != p[|p| - 1]
    {
      PathBack(fat, n, mark, p);
    }
  }

  /** A path over the updated FAT that never leaves cluster n is a path over the old one. */
  lemma PathBack(fat: Fat, n: nat, v: nat, p: seq<nat>)
    requires n < |fat| && Path(fat[n := v], p)
    requires forall i :: 0 <= i < |p| - 1 ==> p[i] != n || fat[n] == v || v < 2 || v >= |fat|
    ensures Path(fat, p)
  {
    forall i | 0 <= i < |p| - 1
      ensures fat[p[i]] == p[i + 1]
    {
      assert IsCluster(fat, p[i + 1]);
    }
  }

  /** Linking a new one-cluster chain n behind the end cluster c. */
  lemma Join(fat: Fat, c: nat, n: nat)
    requires WellFormed(fat) && IsCluster(fat, c) && IsCluster(fat, n) && c != n
    requires fat[c] >= |fat| && fat[n] >= |fat| && IsHead(fat, n)
    ensures WellFormed(fat[c := n])
  {
    var f := fat[c := n];
    assert forall a: nat, d: nat :: Link(f, a, d) ==> (a == c && d == n) || Link(fat, a, d);
    forall p: seq<nat> | |p| >= 2 && Path(f, p)
      ensures p[0] != p[|p| - 1]
    {
      forall i | 0 <= i < |p| - 1
        ensures p[i] != n
      {
        assert IsCluster(f, p[i + 1]);
      }
      if i :| 0 <= i < |p| - 1 && p[i] == c {
        assert p[i + 1] == n;
        assert p[|p| - 1] == n;
      } else {
        PathBack(fat, c, n, p);
      }
    }
  }

  /** Emptying a head cluster; its successor becomes a head. */
  lemma FreeHead(fat: Fat, c: nat)
    requires WellFormed(fat) && IsCluster(fat, c) && IsHead(fat, c)
    ensures WellFormed(fat[c := 0])
    ensures IsHead(fat[c := 0], fat[c])
  {
    var f := fat[c := 0];
    forall a: nat, d: nat | Link(f, a, d)
      ensures Link(fat, a, d) && a != c && d != c
    {
      assert Link(fat, a, d);
    }
    assert IsCluster(fat, fat[c]) ==> Link(fat, c, fat[c]);
    forall p: seq<nat> | |p| >= 2 && Path(f, p)
      ensures p[0] != p[|p| - 1]
    {
      PathBack(fat, c, 0, p);
    }
  }

  /** Ending a chain at c; the cut-off successor becomes a head. */
  lemma Cut(fat: Fat, c: nat, mark: nat)
    requires WellFormed(fat) && IsCluster(fat, c) && mark >= |fat|
    ensures fat[c] != 0 ==> WellFormed(fat[c := mark])
    ensures IsHead(fat[c := mark], fat[c])
  {
    var f := fat[c := mark];
    assert forall a: nat, d: nat :: Link(f, a, d) ==> Link(fat, a, d) && a != c;
    assert IsCluster(fat, fat[c]) ==> Link(fat, c, fat[c]);
    forall p: seq<nat> | |p| >= 2 && Path(f, p)
      ensures p[0] != p[|p| - 1]
    {
      PathBack(fat, c, mark, p);
    }
  }

  // ----- facts about chains -----

  lemma PathSlice(fat: Fat, p: seq<nat>, i: nat, j: nat)
    requires Path(fat, p) && i <= j <= |p|
    ensures Path(fat, p[i..j])
  {
  }

  /** The clusters of a path are pairwise different. */
  lemma PathDistinct(fat: Fat, p: seq<nat>, i: nat, j: nat)
    requires Acyclic(fat) && Path(fat, p) && i < j < |p|
    ensures p[i] != p[j]
  {
    PathSlice(fat, p, i, j + 1);
    var q := p[i..j + 1];
    assert q[0] == p[i] && q[|q| - 1] == p[j];
  }

  /** Two chains that share a cluster and both start at a head are the same up to that cluster. */
  lemma {:induction false} HeadsMeet(fat: Fat, p: seq<nat>, q: seq<nat>, i: nat, j: nat)
    requires SinglePred(fat) && Path(fat, p) && Path(fat, q)
    requires i < |p| && j < |q| && p[i] == q[j]
    requires IsHead(fat, p[0]) && IsHead(fat, q[0])
    ensures p[0] == q[0]
    decreases i
  {
    if i == 0 {
      if j > 0 { assert Link(fat, q[j - 1], q[j]); }
    } else {
      assert Link(fat, p[i - 1], p[i]);
      if j == 0 {
      } else {
        assert Link(fat, q[j - 1], q[j]);
        HeadsMeet(fat, p, q, i - 1, j - 1);
      }
    }
  }

  /** A chain none of whose clusters was written is still a chain. */
  lemma ChainFrame(fat: Fat, fat': Fat, p: seq<nat>)
    requires Chain(fat, p) && |fat'| == |fat|
    requires forall i :: 0 <= i < |p| ==> IsCluster(fat, p[i]) && fat'[p[i]] == fat[p[i]]
    ensures Chain(fat', p)
  {
  }

  // ----- create_chain on the abstract FAT -----

  /** Allocate the free cluster n, linking it behind c unless c is 0. */
  function Allocated(fat: Fat, c: nat, n: nat, mark: nat): Fat
    requires c < |fat| && n < |fat|
  {
    var f := fat[n := mark];
    if c == 0 then f else f[c := n]
  }

  /** The cluster a chain is stretched from: its last one, or 0 when there is none. */
  function TailOf(p: seq<nat>): nat
  {
    if p == [] then 0 else p[|p| - 1]
  }

  /** Allocation extends the chain that ends in c by n and leaves all other chains alone. */
  lemma AllocatedChain(fat: Fat, p: seq<nat>, n: nat, mark: nat)
    requires WellFormed(fat) && Chain(fat, p)
    requires IsCluster(fat, n) && fat[n] == 0 && mark >= |fat|
    ensures Chain(Allocated(fat, p[|p| - 1], n, mark), p + [n])
    ensures n !in p
    ensures forall q :: Chain(fat, q) && q[|q| - 1] != p[|p| - 1] ==>
      Chain(Allocated(fat, p[|p| - 1], n, mark), q)
  {
    var c := p[|p| - 1];
    var f := Allocated(fat, c, n, mark);
    forall q, i | Chain(fat, q) && 0 <= i < |q|
      ensures q[i] != n && (i < |q| - 1 ==> q[i] != c)
    {
      assert i < |q| - 1 ==> IsCluster(fat, q[i + 1]);
    }
    forall q | Chain(fat, q) && q[|q| - 1] != c
      ensures Chain(f, q)
    {
      ChainFrame(fat, f, q);
    }
    assert forall i :: 0 <= i < |p| ==> (p + [n])[i] == p[i];
  }

  lemma AllocatedNew(fat: Fat, n: nat, mark: nat)
    requires WellFormed(fat) && IsCluster(fat, n) && fat[n] == 0 && mark >= |fat|
    ensures Chain(Allocated(fat, 0, n, mark), [n])
    ensures forall q :: Chain(fat, q) ==> Chain(Allocated(fat, 0, n, mark), q)
  {
    var f := Allocated(fat, 0, n, mark);
    forall q | Chain(fat, q)
      ensures Chain(f, q)
    {
      forall i | 0 <= i < |q|
        ensures IsCluster(fat, q[i]) && f[q[i]] == fat[q[i]]
      {
        assert i < |q| - 1 ==> IsCluster(fat, q[i + 1]);
      }
    }
  }

  // ----- counting free clusters -----

  /** Number of free clusters below k. */
  function Zeros(fat: Fat, k: nat): (n: nat)
    requires k <= |fat|
    ensures n <= k
  {
    if k <= 2 then 0
    else Zeros(fat, k - 1) + (if fat[k - 1] == 0 then 1 else 0)
  }

  function FreeCount(fat: Fat): nat
  {
    Zeros(fat, |fat|)
  }

  lemma {:induction false} ZerosUpdate(fat: Fat, c: nat, v: nat, k: nat)
    requires IsCluster(fat, c) && k <= |fat|
    ensures Zeros(fat[c := v], k) == Zeros(fat, k) + (if c >= k then 0
      else (if v == 0 then 1 else 0) - (if fat[c] == 0 then 1 else 0))
  {
    if k > 2 { ZerosUpdate(fat, c, v, k - 1); }
  }

  lemma {:induction false} ZerosNone(fat: Fat, k: nat)
    requires k <= |fat|
    ensures Zeros(fat, k) == 0 <==> forall c :: 2 <= c < k ==> fat[c] != 0
  {
    if k > 2 { ZerosNone(fat, k - 1); }
  }

  lemma {:induction false} ZerosBound(fat: Fat, k: nat)
    requires 2 <= k <= |fat|
    ensures Zeros(fat, k) <= k - 2
  {
    if k > 2 { ZerosBound(fat, k - 1); }
  }

  // ----- remove_chain on the abstract FAT -----

  /** Follow the links from c, emptying each cluster; stop at a value that is no cluster or below 2. */
  function RemoveFrom(fat: Fat, c: nat): (f: Fat)
    ensures |f| == |fat|
    decreases |fat| - FreeCount(fat)
  {
    if !IsCluster(fat, c) || fat[c] < 2 then fat
    else
      ZerosUpdate(fat, c, 0, |fat|);
      RemoveFrom(fat[c := 0], fat[c])
  }

  /** Whether the walk of RemoveFrom ends at an entry holding 1. */
  predicate EndsInOne(fat: Fat, c: nat)
    decreases |fat| - FreeCount(fat)
  {
    IsCluster(fat, c) && fat[c] != 0 &&
    (fat[c] == 1 || (ZerosUpdate(fat, c, 0, |fat|); EndsInOne(fat[c := 0], fat[c])))
  }

  ghost predicate Walk(fat: Fat, p: seq<nat>, c: nat, x: nat)
  {
    |p| > 0 && p[0] == c && p[|p| - 1] == x && Path(fat, p) && fat[x] >= 2
  }

  /** Following links from c arrives at the occupied cluster x. */
  ghost predicate Reaches(fat: Fat, c: nat, x: nat)
  {
    exists p :: Walk(fat, p, c, x)
  }

  lemma {:induction false} RemoveKeepsZero(fat: Fat, c: nat, x: nat)
    requires x < |fat| && fat[x] == 0
    ensures RemoveFrom(fat, c)[x] == 0
    decreases |fat| - FreeCount(fat)
  {
    if IsCluster(fat, c) && fat[c] >= 2 {
      ZerosUpdate(fat, c, 0, |fat|);
      RemoveKeepsZero(fat[c := 0], fat[c], x);
    }
  }

  lemma WalkTail(fat: Fat, p: seq<nat>, c: nat, x: nat, i: nat)
    requires Walk(fat, p, c, x) && i < |p|
    ensures Walk(fat, p[i..], p[i], x)
  {
    PathSlice(fat, p, i, |p|);
  }

  /** The part of a walk behind its last visit to c does not depend on the entry of c. */
  lemma {:induction false} LeaveForGood(fat: Fat, c: nat, p: seq<nat>, x: nat)
    requires Walk(fat, p, c, x) && x != c
    ensures Reaches(fat[c := 0], fat[c], x)
    decreases |p|
  {
    WalkTail(fat, p, c, x, 1);
    var q := p[1..];
    if i :| 0 <= i < |q| && q[i] == c {
      WalkTail(fat, q, q[0], x, i);
      LeaveForGood(fat, c, q[i..], x);
    } else {
      assert Walk(fat[c := 0], q, fat[c], x);
    }
  }

  lemma FirstStep(fat: Fat, p: seq<nat>, c: nat, x: nat)
    requires Walk(fat, p, c, x)
    ensures IsCluster(fat, c) && fat[c] >= 2
  {
    if |p| > 1 { assert IsCluster(fat, p[1]); }
  }

  lemma PrependStep(fat: Fat, c: nat, x: nat)
    requires IsCluster(fat, c) && fat[c] >= 2 && Reaches(fat[c := 0], fat[c], x)
    ensures Reaches(fat, c, x)
  {
    var q :| Walk(fat[c := 0], q, fat[c], x);
    var p := [c] + q;
    forall i | 0 <= i < |p| - 1
      ensures fat[p[i]] == p[i + 1]
    {
      if i > 0 { assert fat[c := 0][q[i - 1]] == q[i]; }
    }
    assert Walk(fat, p, c, x);
  }

  /** On any FAT, cyclic ones included, exactly the clusters reached from c are emptied. */
  lemma {:induction false} RemoveExact(fat: Fat, c: nat, x: nat)
    requires IsCluster(fat, x)
    ensures RemoveFrom(fat, c)[x] == if Reaches(fat, c, x) then 0 else fat[x]
    decreases |fat| - FreeCount(fat)
  {
    if !IsCluster(fat, c) || fat[c] < 2 {
      if Reaches(fat, c, x) {
        var p :| Walk(fat, p, c, x);
        FirstStep(fat, p, c, x);
      }
    } else {
      ZerosUpdate(fat, c, 0, |fat|);
      if x == c {
        RemoveKeepsZero(fat[c := 0], fat[c], c);
        assert Walk(fat, [c], c, c);
      } else {
        RemoveExact(fat[c := 0], fat[c], x);
        if p :| Walk(fat, p, c, x) { LeaveForGood(fat, c, p, x); }
        if Reaches(fat[c := 0], fat[c], x) { PrependStep(fat, c, x); }
      }
    }
  }

  /** Emptying a chain p whose clusters are pairwise different because p is a path of some acyclic FAT. */
  lemma {:induction false} RemoveSuffix(fat0: Fat, fat: Fat, p: seq<nat>)
    requires Acyclic(fat0) && Path(fat0, p) && Chain(fat, p) && |fat| == |fat0|
    ensures forall x :: 0 <= x < |fat| ==> RemoveFrom(fat, p[0])[x] == if x in p then 0 else fat[x]
    ensures !EndsInOne(fat, p[0])
    ensures FreeCount(RemoveFrom(fat, p[0])) == FreeCount(fat) + |p|
    decreases |p|
  {
    var c := p[0];
    var f := fat[c := 0];
    ZerosUpdate(fat, c, 0, |fat|);
    if |p| == 1 {
    } else {
      var q := p[1..];
      forall i | 0 <= i < |q|
        ensures q[i] != c
      {
        PathDistinct(fat0, p, 0, i + 1);
      }
      PathSlice(fat0, p, 1, |p|);
      PathSlice(fat, p, 1, |p|);
      ChainFrame(fat, f, q);
      RemoveSuffix(fat0, f, q);
      assert p == [c] + q;
    }
  }

  /** A chain of a well-formed FAT is emptied completely and nothing else is. */
  lemma RemoveChainExact(fat: Fat, p: seq<nat>)
    requires WellFormed(fat) && Chain(fat, p)
    ensures forall x :: 0 <= x < |fat| ==> RemoveFrom(fat, p[0])[x] == if x in p then 0 else fat[x]
    ensures !EndsInOne(fat, p[0])
    ensures FreeCount(RemoveFrom(fat, p[0])) == FreeCount(fat) + |p|
  {
    RemoveSuffix(fat, fat, p);
  }

  /** One round of remove_chain: empty c and go on with its successor. */
  lemma RemoveStep(fat: Fat, c: nat)
    requires IsCluster(fat, c) && fat[c] >= 2
    ensures RemoveFrom(fat[c := 0], fat[c]) == RemoveFrom(fat, c)
    ensures EndsInOne(fat[c := 0], fat[c]) == EndsInOne(fat, c)
    ensures FreeCount(fat[c := 0]) == FreeCount(fat) + 1 <= |fat|
    ensures WellFormed(fat) && IsHead(fat, c) ==> WellFormed(fat[c := 0]) && IsHead(fat[c := 0], fat[c])
  {
    ZerosUpdate(fat, c, 0, |fat|);
    if WellFormed(fat) && IsHead(fat, c) { FreeHead(fat, c); }
  }

  lemma RemoveStop(fat: Fat, c: nat)
    requires IsCluster(fat, c) ==> fat[c] < 2
    ensures RemoveFrom(fat, c) == fat
    ensures EndsInOne(fat, c) <==> IsCluster(fat, c) && fat[c] == 1
  {
  }

  // ----- the search for a free cluster -----

  /** c lies behind s and before e when going up from s and wrapping around at the end of the FAT. */
  predicate Between(s: nat, c: nat, e: nat)
  {
    if s < e then s < c < e else c > s || c < e
  }

  /** No cluster is free on the way up from s to e. */
  ghost predicate NoneFree(fat: Fat, s: nat, e: nat)
  {
    forall c: nat :: IsCluster(fat, c) && Between(s, c, e) ==> fat[c] != 0
  }

  /** r is the first free cluster on the way up from s. */
  ghost predicate NearestFree(fat: Fat, s: nat, r: nat)
  {
    IsCluster(fat, r) && fat[r] == 0 && NoneFree(fat, s, r)
  }

  /** That is the first one behind s, or from 2 on if there is none. */
  lemma NearestIs(fat: Fat, s: nat, r: nat)
    requires NearestFree(fat, s, r)
    ensures IsCluster(fat, r) && fat[r] == 0
    ensures r > s ==> forall c :: 2 <= c && s < c < r ==> fat[c] != 0
    ensures r <= s ==> forall c :: (s < c < |fat| && 2 <= c) || 2 <= c < r ==> fat[c] != 0
  {
    forall c: nat | 2 <= c < |fat| && Between(s, c, r)
      ensures fat[c] != 0
    {
      assert IsCluster(fat, c);
    }
  }

  /** The clusters a search from s has passed once it stands at e. */
  ghost predicate NoneSeen(fat: Fat, s: nat, e: nat)
  {
    forall c: nat :: IsCluster(fat, c) && (if e >= s then s < c <= e else c > s || c <= e) ==> fat[c] != 0
  }

  /** Some entry holds the reserved value 1. */
  ghost predicate HasOne(fat: Fat)
  {
    exists c: nat :: IsCluster(fat, c) && fat[c] == 1
  }

  ghost predicate Full(fat: Fat)
  {
    forall c: nat :: IsCluster(fat, c) ==> fat[c] != 0
  }

  /** Both updates of an allocation: the table stays well-formed after each. */
  lemma AllocatedWellFormed(fat: Fat, c: nat, n: nat, mark: nat)
    requires WellFormed(fat) && IsCluster(fat, n) && fat[n] == 0 && mark >= |fat|
    requires c == 0 || (IsCluster(fat, c) && fat[c] != 0)
    ensures WellFormed(fat[n := mark]) && WellFormed(Allocated(fat, c, n, mark))
  {
    hide WellFormed;
    MarkEnd(fat, n, mark);
    if c != 0 {
      var f: Fat := fat[n := mark];
      var g: Fat := f[c := mark];
      Cut(f, c, mark);
      assert forall a: nat :: Link(g, a, n) ==> Link(f, a, n);
      Join(g, c, n);
      assert g[c := n] == f[c := n];
    }
  }

  /**
   * Linking a free cluster behind c, whatever follows c in its chain p: the chain goes on with the new cluster
   * exactly if c was its last one; otherwise the clusters behind c form a chain that nothing leads to.
   */
  lemma AllocatedBehind(fat: Fat, p: seq<nat>, i: nat, n: nat, mark: nat)
    requires WellFormed(fat) && Chain(fat, p) && i < |p| && IsCluster(fat, n) && fat[n] == 0 && mark >= |fat|
    ensures p[i] < |fat|
    ensures var f := Allocated(fat, p[i], n, mark);
      && WellFormed(f) && Chain(f, p[..i + 1] + [n])
      && (Chain(f, p + [n]) <==> i + 1 == |p|)
      && (i + 1 < |p| ==> Chain(f, p[i + 1..]) && IsHead(f, p[i + 1]))
  {
    hide WellFormed;
    ChainEntry(fat, p, i);
    AllocatedWellFormed(fat, p[i], n, mark);
    var f, q := Allocated(fat, p[i], n, mark), p[..i + 1] + [n];
    NotInChain(fat, p, n);
    PathsDistinct(fat, p);
    assert f[n] == mark && f[p[i]] == n && forall x :: 0 <= x < |fat| && x != n && x != p[i] ==> f[x] == fat[x];
    assert forall k :: 0 <= k <= i ==> q[k] == p[k];
    if i + 1 < |p| {
      var r := p[i + 1..];
      assert forall k :: 0 <= k < |r| ==> r[k] == p[i + 1 + k] && r[k] != p[i] && r[k] != n;
      var d := p[i + 1];
      OnlyLink(fat, p, i, d);
      assert forall a: nat :: Link(f, a, d) ==> Link(fat, a, d);
      assert (p + [n])[i] == p[i] && (p + [n])[i + 1] == p[i + 1] != n;
    } else {
      assert q == p + [n];
    }
  }

  lemma NotInChain(fat: Fat, p: seq<nat>, n: nat)
    requires Chain(fat, p) && IsCluster(fat, n) && fat[n] == 0
    ensures n !in p
  {
    if n in p {
      var i :| 0 <= i < |p| && p[i] == n;
      ChainEntry(fat, p, i);
    }
  }

  /** Nothing but its predecessor leads to a cluster of a chain. */
  lemma OnlyLink(fat: Fat, p: seq<nat>, i: nat, d: nat)
    requires WellFormed(fat) && Path(fat, p) && i + 1 < |p| && d == p[i + 1]
    ensures forall a: nat :: Link(fat, a, d) ==> a == p[i]
  {
    assert Link(fat, p[i], d);
  }

  /** A chain of two clusters whose second one is lost when a third one is linked behind the first. */
  lemma LostExample()
    ensures var t: Fat := [0xFF8, 0xFFF, 3, 0xFFF, 0]; var f := Allocated(t, 2, 4, 0xFFF);
      && WellFormed(t) && Chain(t, [2, 3]) && NearestFree(t, 2, 4)
      && Chain(f, [2, 4]) && f[3] != 0 && IsHead(f, 3)
  {
    var t: Fat := [0xFF8, 0xFFF, 3, 0xFFF, 0];
    ExampleWellFormed(t);
    assert Link(t, 2, 3);
    assert Chain(t, [2, 3]);
    AllocatedBehind(t, [2, 3], 0, 4, 0xFFF);
    assert [2, 3][..1] + [4] == [2, 4];
    assert [2, 3][1..] == [3];
  }

  lemma ExampleWellFormed(t: Fat)
    requires t == [0xFF8, 0xFFF, 3, 0xFFF, 0]
    ensures WellFormed(t)
  {
    assert forall a: nat, b: nat :: Link(t, a, b) ==> a == 2 && b == 3;
    forall p: seq<nat> | |p| >= 2 && Path(t, p) ensures p[0] != p[|p| - 1] {
      assert Link(t, p[0], p[1]) && Link(t, p[|p| - 2], p[|p| - 1]);
    }
  }

  lemma AllocatedCount(fat: Fat, c: nat, n: nat, mark: nat)
    requires IsCluster(fat, n) && fat[n] == 0 && mark >= |fat|
    requires c == 0 || (IsCluster(fat, c) && fat[c] != 0)
    ensures FreeCount(fat) > 0 && FreeCount(Allocated(fat, c, n, mark)) == FreeCount(fat) - 1
  {
    ZerosUpdate(fat, n, mark, |fat|);
    if c != 0 { ZerosUpdate(fat[n := mark], c, n, |fat|); }
  }

  /** The clusters of a path are pairwise different. */
  lemma PathsDistinct(fat: Fat, p: seq<nat>)
    requires WellFormed(fat) && (p == [] || Path(fat, p))
    ensures forall i, j :: 0 <= i < j < |p| ==> p[i] != p[j]
  {
    forall i, j | 0 <= i < j < |p|
      ensures p[i] != p[j]
    {
      PathDistinct(fat, p, i, j);
    }
  }

  /** A chain grew from p to q by free clusters; no entry outside q changed. */
  ghost predicate Extends(t: Fat, p: seq<nat>, t': Fat, q: seq<nat>)
  {
    && |t'| == |t| && p <= q
    && (forall i :: |p| <= i < |q| ==> IsCluster(t, q[i]) && t[q[i]] == 0)
    && forall c: nat :: IsCluster(t, c) && c !in q ==> t'[c] == t[c]
  }

  lemma ExtendsSame(t: Fat, p: seq<nat>)
    ensures Extends(t, p, t, p)
  {
  }

  lemma ExtendsTrans(t: Fat, p: seq<nat>, t': Fat, q: seq<nat>, t'': Fat, r: seq<nat>)
    requires Extends(t, p, t', q) && Extends(t', q, t'', r)
    requires forall i, j :: 0 <= i < j < |r| ==> r[i] != r[j]
    ensures Extends(t, p, t'', r) && p <= q && q <= r
  {
    forall i | |p| <= i < |r|
      ensures IsCluster(t, r[i]) && t[r[i]] == 0
    {
      if i < |q| {
        assert r[i] == q[i];
      } else {
        assert forall j :: 0 <= j < |q| ==> q[j] == r[j];
      }
    }
    assert forall c :: c in q ==> c in r;
  }

  lemma AllocatedExtends(t: Fat, p: seq<nat>, c: nat, n: nat, mark: nat)
    requires IsCluster(t, n) && t[n] == 0 && c < |t|
    requires c == TailOf(p)
    ensures Extends(t, p, Allocated(t, c, n, mark), p + [n])
  {
    assert p != [] ==> c in p + [n];
    assert n in p + [n];
  }

  /** What the FAT says about cluster i of a chain. */
  lemma ChainEntry(t: Fat, p: seq<nat>, i: nat)
    requires Chain(t, p) && i < |p|
    ensures IsCluster(t, p[i]) && t[p[i]] >= 2
    ensures if i + 1 < |p| then t[p[i]] == p[i + 1] && IsCluster(t, p[i + 1]) else t[p[i]] >= |t|
    ensures i + 1 == |p| ==> p[i] == TailOf(p)
  {
    if i + 1 < |p| { assert IsCluster(t, p[i + 1]); }
  }

  /** Stretching a chain introduces no entry that holds 1. */
  lemma ExtendsHasOne(t: Fat, p: seq<nat>, t': Fat, q: seq<nat>)
    requires Extends(t, p, t', q) && (q == [] || Chain(t', q)) && HasOne(t')
    ensures HasOne(t)
  {
    var c: nat :| IsCluster(t', c) && t'[c] == 1;
    if c in q {
      var i :| 0 <= i < |q| && q[i] == c;
      ChainEntry(t', q, i);
      assert false;
    }
    assert IsCluster(t, c) && t[c] == 1;
  }

  /** With no free cluster, no chain grows, and none becomes free. */
  lemma ExtendsFull(t: Fat, p: seq<nat>, t': Fat, q: seq<nat>)
    requires Extends(t, p, t', q) && (q == [] || Chain(t', q)) && Full(t)
    ensures Full(t')
  {
    forall c: nat | IsCluster(t', c) ensures t'[c] != 0 {
      if c in q {
        var i :| 0 <= i < |q| && q[i] == c;
        ChainEntry(t', q, i);
      } else {
        assert IsCluster(t, c) && t'[c] == t[c];
      }
    }
  }

  /** Stretching a chain takes one free cluster for each cluster it adds. */
  lemma {:induction false} ExtendsCount(t: Fat, p: seq<nat>, t': Fat, q: seq<nat>)
    requires Extends(t, p, t', q)
    requires forall i, j :: 0 <= i < j < |q| ==> q[i] != q[j]
    requires forall i :: 0 <= i < |p| ==> IsCluster(t, p[i]) && t[p[i]] != 0
    requires forall i :: 0 <= i < |q| ==> IsCluster(t', q[i]) && t'[q[i]] != 0
    ensures FreeCount(t) + |p| == FreeCount(t') + |q|
    decreases |q|
  {
    if |q| == |p| {
      ZerosSame(t, t', |t|);
    } else {
      var q0, x := q[..|q| - 1], q[|q| - 1];
      ZerosUpdate(t', x, 0, |t|);
      assert q == q0 + [x];
      ExtendsCount(t, p, t'[x := 0], q0);
    }
  }

  /** The count depends on which entries are zero only. */
  lemma {:induction false} ZerosSame(t: Fat, t': Fat, k: nat)
    requires |t| == |t'| && k <= |t| && forall c :: 2 <= c < k ==> (t[c] == 0 <==> t'[c] == 0)
    ensures Zeros(t, k) == Zeros(t', k)
  {
    if k > 2 { ZerosSame(t, t', k - 1); }
  }

  /** A volume is full when it has no free cluster. */
  lemma FullCount(t: Fat)
    ensures Full(t) <==> FreeCount(t) == 0
  {
    ZerosNone(t, |t|);
    if Full(t) { assert forall c :: 2 <= c < |t| ==> IsCluster(t, c); }
  }

  /** The chain and the free clusters together stay the same in number, from one state of the volume to a later one. */
  lemma ChainAndFree(t: Fat, p: seq<nat>, t': Fat, q: seq<nat>)
    requires Extends(t, p, t', q) && (p == [] || Chain(t, p)) && (q == [] || Chain(t', q))
    requires forall i, j :: 0 <= i < j < |q| ==> q[i] != q[j]
    ensures |p| + FreeCount(t) == |q| + FreeCount(t')
  {
    hide Extends;
    forall i | 0 <= i < |p| ensures IsCluster(t, p[i]) && t[p[i]] != 0 { ChainEntry(t, p, i); }
    forall i | 0 <= i < |q| ensures IsCluster(t', q[i]) && t'[q[i]] != 0 { ChainEntry(t', q, i); }
    ExtendsCount(t, p, t', q);
  }

  /** Following n links from c. */
  function Follow(fat: Fat, c: nat, n: nat): nat
    decreases n
  {
    if n == 0 || c >= |fat| then c else Follow(fat, fat[c], n - 1)
  }

  /** A chain lists the clusters in the order in which the links visit them. */
  lemma {:induction false} FollowChain(fat: Fat, p: seq<nat>, i: nat)
    requires Path(fat, p) && i < |p|
    ensures Follow(fat, p[0], i) == p[i]
    decreases i
  {
    if i > 0 {
      PathSlice(fat, p, 1, |p|);
      FollowChain(fat, p[1..], i - 1);
    }
  }

  /** Removing from a head keeps the table well-formed. */
  lemma {:induction false} RemoveWellFormed(fat: Fat, c: nat)
    requires WellFormed(fat) && IsHead(fat, c)
    ensures WellFormed(RemoveFrom(fat, c))
    decreases |fat| - FreeCount(fat)
  {
    if IsCluster(fat, c) && fat[c] >= 2 {
      ZerosUpdate(fat, c, 0, |fat|);
      RemoveStep(fat, c);
      RemoveWellFormed(fat[c := 0], fat[c]);
    } else {
      RemoveStop(fat, c);
    }
  }

  /** The first cluster of a well-formed chain to which nothing links. */
  lemma CutFacts(fat: Fat, p: seq<nat>, c: nat, mark: nat)
    requires WellFormed(fat) && Chain(fat, p) && c + 1 < |p| && mark >= |fat|
    ensures var f := fat[p[c] := mark];
      WellFormed(f) && Chain(f, p[..c + 1]) && Chain(f, p[c + 1..]) && IsHead(f, p[c + 1])
      && FreeCount(f) == FreeCount(fat)
  {
    var f := fat[p[c] := mark];
    ChainEntry(fat, p, c);
    Cut(fat, p[c], mark);
    ZerosUpdate(fat, p[c], mark, |fat|);
    PathsDistinct(fat, p);
    PathSlice(fat, p, c + 1, |p|);
    ChainFrame(fat, f, p[c + 1..]);
    assert Chain(f, p[..c + 1]);
  }

  /** f_truncate on the abstract FAT: end the chain behind cluster c and free the rest of it. */
  function Truncated(fat: Fat, p: seq<nat>, c: nat, mark: nat): Fat
    requires c + 1 < |p| && p[c] < |fat|
  {
    RemoveFrom(fat[p[c] := mark], p[c + 1])
  }

  /** The front of the chain stays, the rest becomes free, and no other entry changes. */
  lemma TruncatedExact(fat: Fat, p: seq<nat>, c: nat, mark: nat)
    requires WellFormed(fat) && Chain(fat, p) && c + 1 < |p| && mark >= |fat|
    ensures p[c] < |fat|
    ensures var f := Truncated(fat, p, c, mark);
      && WellFormed(f) && Chain(f, p[..c + 1])
      && FreeCount(f) == FreeCount(fat) + |p| - (c + 1)
      && (forall x :: 0 <= x < |fat| ==> f[x] == if x in p[c + 1..] then 0 else if x == p[c] then mark else fat[x])
    ensures !EndsInOne(fat[p[c] := mark], p[c + 1])
  {
    var f1 := fat[p[c] := mark];
    var tail := p[c + 1..];
    CutFacts(fat, p, c, mark);
    RemoveChainExact(f1, tail);
    RemoveWellFormed(f1, tail[0]);
    PathsDistinct(fat, p);
    var f := RemoveFrom(f1, tail[0]);
    var front := p[..c + 1];
    forall i | 0 <= i < |front|
      ensures IsCluster(f1, front[i]) && f[front[i]] == f1[front[i]]
    {
      assert front[i] !in tail;
    }
    ChainFrame(f1, f, front);
  }

  /** The chain was cut from p to q: the clusters cut off are free, q ends with a mark, nothing else changed. */
  ghost predicate Released(t0: Fat, t1: Fat, p: seq<nat>, q: seq<nat>)
  {
    && |t1| == |t0| && q <= p
    && forall x :: 0 <= x < |t0| ==>
         if x in p[|q|..] then t1[x] == 0
         else if q != [] && x == q[|q| - 1] then t1[x] >= |t1|
         else t1[x] == t0[x]
  }

  lemma TruncatedReleased(fat: Fat, p: seq<nat>, c: nat, mark: nat)
    requires WellFormed(fat) && Chain(fat, p) && c + 1 < |p| && mark >= |fat|
    ensures p[c] < |fat|
    ensures var f := Truncated(fat, p, c, mark);
      && WellFormed(f) && Chain(f, p[..c + 1]) && Released(fat, f, p, p[..c + 1])
      && FreeCount(f) == FreeCount(fat) + |p| - (c + 1)
  {
    TruncatedExact(fat, p, c, mark);
  }

  lemma NothingReleased(t: Fat, p: seq<nat>)
    requires Chain(t, p)
    ensures Released(t, t, p, p)
  {
    ChainEntry(t, p, |p| - 1);
  }

  /** A FAT without links is well-formed. */
  lemma NoLinks(fat: Fat)
    requires forall c: nat :: IsCluster(fat, c) ==> !IsCluster(fat, fat[c])
    ensures WellFormed(fat)
  {
    assert forall c: nat, d: nat :: !Link(fat, c, d);
    forall p: seq<nat> | |p| >= 2 ensures !Path(fat, p) { NoPath(fat, p); }
  }

  lemma NoPath(fat: Fat, p: seq<nat>)
    requires |p| >= 2 && forall c: nat, d: nat :: !Link(fat, c, d)
    ensures !Path(fat, p)
  {
    assert !Link(fat, p[0], p[1]);
  }

  /** The number of free clusters when just those from b on are free. */
  lemma {:induction false} ZerosFrom(fat: Fat, b: nat, k: nat)
    requires 2 <= b && k <= |fat|
    requires forall c :: 2 <= c < k ==> (fat[c] == 0 <==> c >= b)
    ensures Zeros(fat, k) == if k <= b then 0 else k - b
  {
    if k > 2 { ZerosFrom(fat, b, k - 1); }
  }
}
