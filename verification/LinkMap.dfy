// The cluster link map table of fast seek: pairs (length, first cluster) of the contiguous fragments
// of a chain, stored from index 1 on and terminated by a zero length.
module LinkMap {
  import opened Clusters

  /** From index pos on, the table describes exactly the clusters of chain. */
  ghost predicate Describes(tbl: seq<nat>, pos: nat, chain: seq<nat>)
    decreases |chain|
  {
    if chain == [] then pos < |tbl| && tbl[pos] == 0
    else
      && pos + 1 < |tbl|
      && 0 < tbl[pos] <= |chain|
      && Run(chain, tbl[pos], tbl[pos + 1])
      && Describes(tbl, pos + 2, chain[tbl[pos]..])
  }

  /** The first n clusters of chain are top, top + 1, ... */
  predicate Run(chain: seq<nat>, n: nat, top: nat)
    requires n <= |chain|
  {
    forall i :: 0 <= i < n ==> chain[i] == top + i
  }

  /** The first f pairs of the table describe chain. */
  ghost predicate Stored(tbl: seq<nat>, f: nat, chain: seq<nat>)
  {
    if f == 0 then chain == []
    else
      && 2 * f < |tbl|
      && 0 < tbl[2 * f - 1] <= |chain|
      && Run(chain[|chain| - tbl[2 * f - 1]..], tbl[2 * f - 1], tbl[2 * f])
      && Stored(tbl, f - 1, chain[..|chain| - tbl[2 * f - 1]])
  }

  /** Storing another pair behind the first f. */
  lemma StoredAppend(tbl: seq<nat>, tbl': seq<nat>, f: nat, chain: seq<nat>, run: seq<nat>, top: nat)
    requires Stored(tbl, f, chain) && |tbl'| == |tbl| && 2 * f + 2 < |tbl|
    requires forall i :: 0 < i <= 2 * f ==> tbl'[i] == tbl[i]
    requires |run| > 0 && Run(run, |run|, top)
    requires tbl'[2 * f + 1] == |run| && tbl'[2 * f + 2] == top
    ensures Stored(tbl', f + 1, chain + run)
  {
    StoredFrame(tbl, tbl', f, chain);
    assert (chain + run)[|chain|..] == run;
    assert (chain + run)[..|chain|] == chain;
  }

  lemma {:induction false} StoredFrame(tbl: seq<nat>, tbl': seq<nat>, f: nat, chain: seq<nat>)
    requires Stored(tbl, f, chain) && |tbl'| == |tbl|
    requires forall i :: 0 < i <= 2 * f < |tbl| ==> tbl'[i] == tbl[i]
    ensures Stored(tbl', f, chain)
  {
    if f > 0 {
      StoredFrame(tbl, tbl', f - 1, chain[..|chain| - tbl[2 * f - 1]]);
    }
  }

  /** One more pair in front. */
  lemma DescribesStep(tbl: seq<nat>, pos: nat, run: seq<nat>, rest: seq<nat>)
    requires Describes(tbl, pos + 2, rest) && pos + 1 < |tbl|
    requires 0 < |run| == tbl[pos] && Run(run, |run|, tbl[pos + 1])
    ensures Describes(tbl, pos, run + rest)
  {
    assert (run + rest)[|run|..] == rest;
  }

  /** The pairs read forwards are the pairs as stored. */
  lemma {:induction false} StoredDescribes(tbl: seq<nat>, f: nat, chain: seq<nat>, rest: seq<nat>)
    requires Stored(tbl, f, chain) && Describes(tbl, 2 * f + 1, rest)
    ensures Describes(tbl, 1, chain + rest)
    decreases f
  {
    hide Describes;
    if f == 0 {
      assert chain + rest == rest;
    } else {
      var n := tbl[2 * f - 1];
      var front, run := chain[..|chain| - n], chain[|chain| - n..];
      DescribesStep(tbl, 2 * f - 1, run, rest);
      StoredDescribes(tbl, f - 1, front, run + rest);
      assert front + (run + rest) == chain + rest;
    }
  }

  /** Number of maximal contiguous fragments of a chain. */
  function Fragments(chain: seq<nat>): nat
  {
    if |chain| <= 1 then |chain|
    else
      var joined := chain[|chain| - 1] == chain[|chain| - 2] + 1;
      Fragments(chain[..|chain| - 1]) + (if joined then 0 else 1)
  }

  /** The fragment count of a chain extended by a further contiguous fragment. */
  lemma {:induction false} FragmentsAppend(chain: seq<nat>, run: seq<nat>, top: nat)
    requires |run| > 0 && Run(run, |run|, top)
    requires chain != [] ==> chain[|chain| - 1] + 1 != top
    ensures Fragments(chain + run) == Fragments(chain) + 1
    decreases |run|
  {
    var all := chain + run;
    assert all[..|all| - 1] == chain + run[..|run| - 1];
    if |run| == 1 {
      assert all[..|all| - 1] == chain;
    } else {
      FragmentsAppend(chain, run[..|run| - 1], top);
    }
  }

  /** Items a table needs for a chain: length and top of each fragment, the size and the terminator. */
  function ItemsNeeded(chain: seq<nat>): nat
  {
    2 * Fragments(chain) + 2
  }

  /** The size and the terminator, and two items for each fragment. */
  lemma ItemsExamples()
    ensures ItemsNeeded([]) == 2 && ItemsNeeded([5, 6, 7]) == 4 && ItemsNeeded([5, 6, 9]) == 6
  {
    assert [5, 6, 7][..2] == [5, 6] && [5, 6][..1] == [5] && [5, 6, 9][..2] == [5, 6];
  }

  /** What clmt_clust answers for a cluster order. */
  function Mapped(chain: seq<nat>, order: nat): nat
  {
    if order < |chain| then chain[order] else 0
  }

  /** What one round of the lookup reads. */
  lemma FirstPair(tbl: seq<nat>, pos: nat, chain: seq<nat>)
    requires Describes(tbl, pos, chain)
    ensures pos < |tbl| && (tbl[pos] == 0 <==> chain == [])
    ensures tbl[pos] != 0 ==>
      && pos + 1 < |tbl| && tbl[pos] <= |chain|
      && Describes(tbl, pos + 2, chain[tbl[pos]..])
      && forall i :: 0 <= i < |chain| ==>
           if i < tbl[pos] then Mapped(chain, i) == tbl[pos + 1] + i
           else Mapped(chain, i) == Mapped(chain[tbl[pos]..], i - tbl[pos])
  {
  }

  /** Clusters i .. i + n - 1 of the chain are top, top + 1, ... */
  predicate RunAt(chain: seq<nat>, i: nat, n: nat, top: nat)
  {
    i + n <= |chain| && forall k :: i <= k < i + n ==> chain[k] == top + (k - i)
  }

  /** cl is what follows the fragment of n clusters from cluster i on, and does not continue it. */
  predicate Follows(chain: seq<nat>, i: nat, n: nat, cl: nat, limit: nat)
  {
    && 0 < n && i + n <= |chain|
    && cl != chain[i + n - 1] + 1
    && if i + n < |chain| then cl == chain[i + n] < limit else cl >= limit
  }

  /** The table after the fragments of the first i clusters; ulen items are needed for them, tlen are given. */
  ghost predicate Progress(tbl: seq<nat>, tlen: nat, chain: seq<nat>, i: nat, ulen: nat, next: nat)
  {
    && i <= |chain| && tlen <= |tbl|
    && ulen == ItemsNeeded(chain[..i])
    && (ulen <= tlen ==> next == ulen - 1 && Stored(tbl, next / 2, chain[..i]))
  }

  /** One more fragment, stored if the table has room. */
  lemma ProgressStep(tbl: seq<nat>, tbl': seq<nat>, tlen: nat, chain: seq<nat>, i: nat, ulen: nat, next: nat, n: nat,
      top: nat, next': nat)
    requires Progress(tbl, tlen, chain, i, ulen, next) && |tbl'| == |tbl|
    requires 0 < n && RunAt(chain, i, n, top) && (i > 0 ==> chain[i - 1] + 1 != top)
    requires ulen + 2 <= tlen ==> tbl' == tbl[next := n][next + 1 := top] && next' == next + 2
    ensures Progress(tbl', tlen, chain, i + n, ulen + 2, next')
  {
    hide Stored, Fragments;
    var run := chain[i..i + n];
    assert chain[..i + n] == chain[..i] + run;
    FragmentsAppend(chain[..i], run, top);
    if ulen + 2 <= tlen {
      StoredAppend(tbl, tbl', next / 2, chain[..i], run, top);
    }
  }

  /** The terminator and the item count complete the table. */
  lemma ProgressEnd(tbl: seq<nat>, tlen: nat, chain: seq<nat>, ulen: nat, next: nat)
    requires Progress(tbl, tlen, chain, |chain|, ulen, next) && 2 <= ulen <= tlen
    ensures Describes(tbl[0 := ulen][next := 0], 1, chain)
  {
    hide Stored, Fragments;
    var t := tbl[0 := ulen][next := 0];
    assert chain[..|chain|] == chain && chain + [] == chain;
    StoredFrame(tbl, t, next / 2, chain);
    StoredDescribes(t, next / 2, chain, []);
  }

  lemma ProgressStart(tbl: seq<nat>, tlen: nat, chain: seq<nat>)
    requires tlen <= |tbl|
    ensures Progress(tbl, tlen, chain, 0, 2, 1)
  {
  }

  lemma ProgressBounds(tbl: seq<nat>, tlen: nat, chain: seq<nat>, ulen: nat, next: nat)
    requires Progress(tbl, tlen, chain, |chain|, ulen, next)
    ensures ulen == ItemsNeeded(chain) >= 2
    ensures ulen <= tlen ==> next == ulen - 1
  {
    assert chain[..|chain|] == chain;
  }
}
