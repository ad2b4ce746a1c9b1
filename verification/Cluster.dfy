/** Greedy clustering of per-node traces by start time. */
module Cluster {
  import opened Correlate
  import opened Permutations

  predicate Sorted(ts: seq<Trace>) {
    Ordered((t: Trace) => t.start, ts)
  }

  type Batch = g: seq<Trace> | g != [] witness [Trace("", 0, "", 0, 0, [])]

  /** The groups built by one pass: a trace joins the last group while it starts within
      `window` of that group's first trace. */
  function Clusters(window: int, ts: seq<Trace>): seq<Batch> {
    if ts == [] then []
    else
      Extend(window, Clusters(window, ts[..|ts| - 1]), ts[|ts| - 1])
  }

  function Head(g: Batch): int {
    g[0].start
  }

  /** The groups after one more trace. */
  function Extend(window: int, gs: seq<Batch>, t: Trace): seq<Batch> {
    if gs != [] && t.start - Head(gs[|gs| - 1]) <= window then gs[..|gs| - 1] + [gs[|gs| - 1] + [t]]
    else gs + [[t]]
  }

  lemma ClustersSnoc(window: int, init: seq<Trace>, t: Trace)
    ensures Clusters(window, init + [t]) == Extend(window, Clusters(window, init), t)
  {
    assert (init + [t])[..|init|] == init;
  }

  function Flatten(gs: seq<Batch>): seq<Trace> {
    if gs == [] then [] else Flatten(gs[..|gs| - 1]) + gs[|gs| - 1]
  }

  lemma FlattenExtend(window: int, gs: seq<Batch>, t: Trace)
    ensures Flatten(Extend(window, gs, t)) == Flatten(gs) + [t]
  {
    var hs := Extend(window, gs, t);
    if |hs| == |gs| {
      var init, last := gs[..|gs| - 1], gs[|gs| - 1];
      assert hs[..|hs| - 1] == init;
      assert Flatten(init) + (last + [t]) == (Flatten(init) + last) + [t];
    } else {
      assert hs[..|hs| - 1] == gs;
    }
  }

  /** Every trace is in exactly one group, and order is kept. */
  lemma {:induction false} ClustersPartition(window: int, ts: seq<Trace>)
    ensures Flatten(Clusters(window, ts)) == ts
  {
    if ts != [] {
      var init, t := ts[..|ts| - 1], ts[|ts| - 1];
      ClustersPartition(window, init);
      ClustersSnoc(window, init, t);
      assert ts == init + [t];
      hide Clusters;
      FlattenExtend(window, Clusters(window, init), t);
    }
  }

  function Max(a: int, b: int): int {
    if a >= b then a else b
  }

  /** Each group holds traces of `ts` that start at most the window after its head. */
  ghost predicate Within(window: int, ts: seq<Trace>, gs: seq<Batch>) {
    forall k, t :: 0 <= k < |gs| && t in gs[k] ==> t in ts && Head(gs[k]) <= t.start <= Head(gs[k]) + Max(window, 0)
  }

  /** Heads are more than a window apart. */
  ghost predicate Apart(window: int, gs: seq<Batch>) {
    forall j, k :: 0 <= j < k < |gs| ==> Head(gs[j]) + window < Head(gs[k]) && Head(gs[j]) <= Head(gs[k])
  }

  ghost predicate Grouped(gs: seq<Batch>, t: Trace) {
    exists k :: 0 <= k < |gs| && t in gs[k]
  }

  ghost predicate Covered(ts: seq<Trace>, gs: seq<Batch>) {
    forall t :: t in ts ==> Grouped(gs, t)
  }

  ghost predicate Spread(window: int, ts: seq<Trace>, gs: seq<Batch>) {
    Within(window, ts, gs) && Apart(window, gs) && Covered(ts, gs)
  }

  lemma GroupedStays(gs: seq<Batch>, hs: seq<Batch>, t: Trace)
    requires Grouped(gs, t) && |gs| <= |hs|
    requires forall k :: 0 <= k < |gs| ==> forall u :: u in gs[k] ==> u in hs[k]
    ensures Grouped(hs, t)
  {
    var k :| 0 <= k < |gs| && t in gs[k];
    assert t in hs[k];
  }

  lemma CoveredGrows(init: seq<Trace>, t: Trace, gs: seq<Batch>, hs: seq<Batch>)
    requires Covered(init, gs) && 0 < |hs| && |gs| <= |hs| && t in hs[|hs| - 1]
    requires forall k :: 0 <= k < |gs| ==> forall u :: u in gs[k] ==> u in hs[k]
    ensures Covered(init + [t], hs)
  {
    forall u | u in init + [t] ensures Grouped(hs, u) {
      if u in init { GroupedStays(gs, hs, u); }
    }
  }

  /** The last group's head starts no later than the next trace. */
  lemma HeadBefore(window: int, init: seq<Trace>, t: Trace, gs: seq<Batch>, k: nat)
    requires Sorted(init + [t]) && Within(window, init, gs) && k < |gs|
    ensures Head(gs[k]) <= t.start
  {
    assert gs[k][0] in gs[k];
    var i :| 0 <= i < |init| && init[i] == gs[k][0];
    assert (init + [t])[i] == init[i] && (init + [t])[|init|] == t;
  }

  lemma ApartGrows(window: int, init: seq<Trace>, t: Trace, gs: seq<Batch>)
    requires Sorted(init + [t]) && Within(window, init, gs) && Apart(window, gs)
    requires gs == [] || t.start - Head(gs[|gs| - 1]) > window
    ensures Apart(window, gs + [[t]])
  {
    hide Within, Sorted;
    var hs: seq<Batch> := gs + [[t]];
    forall j, k | 0 <= j < k < |hs|
      ensures Head(hs[j]) + window < Head(hs[k]) && Head(hs[j]) <= Head(hs[k])
    {
      if k == |gs| { HeadBefore(window, init, t, gs, j); }
    }
  }

  lemma SpreadGrows(window: int, init: seq<Trace>, t: Trace, gs: seq<Batch>)
    requires Sorted(init + [t]) && Spread(window, init, gs)
    requires gs == [] || t.start - Head(gs[|gs| - 1]) > window
    ensures Spread(window, init + [t], gs + [[t]])
  {
    hide Covered, Sorted, Apart;
    CoveredGrows(init, t, gs, gs + [[t]]);
    ApartGrows(window, init, t, gs);
  }

  lemma SpreadJoins(window: int, init: seq<Trace>, t: Trace, gs: seq<Batch>)
    requires Sorted(init + [t]) && Spread(window, init, gs)
    requires gs != [] && t.start - Head(gs[|gs| - 1]) <= window
    ensures Spread(window, init + [t], gs[..|gs| - 1] + [gs[|gs| - 1] + [t]])
  {
    hide Covered, Sorted;
    var n := |gs| - 1;
    var hs: seq<Batch> := gs[..n] + [gs[n] + [t]];
    CoveredGrows(init, t, gs, hs);
    HeadBefore(window, init, t, gs, n);
    assert forall k :: 0 <= k < |gs| ==> Head(hs[k]) == Head(gs[k]);
  }

  lemma {:induction false} GroupsSpread(window: int, ts: seq<Trace>)
    requires Sorted(ts)
    ensures Spread(window, ts, Clusters(window, ts))
  {
    hide Spread, Clusters, Sorted;
    if ts != [] {
      var init, t := ts[..|ts| - 1], ts[|ts| - 1];
      assert ts == init + [t];
      SortedInit(init, t);
      GroupsSpread(window, init);
      var gs := Clusters(window, init);
      ClustersSnoc(window, init, t);
      if gs != [] && t.start - Head(gs[|gs| - 1]) <= window {
        SpreadJoins(window, init, t, gs);
      } else {
        SpreadGrows(window, init, t, gs);
      }
    } else {
      SpreadNone(window);
    }
  }

  lemma SortedInit(init: seq<Trace>, t: Trace)
    requires Sorted(init + [t])
    ensures Sorted(init)
  {
    assert forall i :: 0 <= i < |init| ==> (init + [t])[i] == init[i];
  }

  lemma SpreadNone(window: int)
    ensures Clusters(window, []) == [] && Spread(window, [], [])
  {
  }

  // ---- optimality ----

  /** A family of blocks that covers `ts`, each block of diameter at most `window`. */
  ghost predicate IsCover(window: int, ts: seq<Trace>, blocks: seq<set<Trace>>) {
    && (forall t :: t in ts ==> exists k :: 0 <= k < |blocks| && t in blocks[k])
    && (forall k, t, u :: 0 <= k < |blocks| && t in blocks[k] && u in blocks[k] ==> t.start - u.start <= window)
  }

  lemma {:induction false} Pigeonhole(b: seq<nat>, m: nat)
    requires forall i :: 0 <= i < |b| ==> b[i] < m
    requires forall i, j :: 0 <= i < j < |b| ==> b[i] != b[j]
    ensures |b| <= m
    decreases m
  {
    if b != [] {
      if m - 1 in b {
        var i :| 0 <= i < |b| && b[i] == m - 1;
        var c := b[..i] + b[i + 1..];
        assert forall k :: 0 <= k < |c| ==> c[k] == b[if k < i then k else k + 1];
        Pigeonhole(c, m - 1);
      } else {
        assert 0 <= b[0] < m;
        Pigeonhole(b, m - 1);
      }
    }
  }

  lemma BlockOf(window: int, ts: seq<Trace>, gs: seq<Batch>, blocks: seq<set<Trace>>, k: nat) returns (j: nat)
    requires Within(window, ts, gs) && IsCover(window, ts, blocks) && k < |gs|
    ensures j < |blocks| && gs[k][0] in blocks[j]
  {
    assert gs[k][0] in gs[k] && gs[k][0] in ts;
    j :| 0 <= j < |blocks| && gs[k][0] in blocks[j];
  }

  lemma HeadsInDistinctBlocks(window: int, gs: seq<Batch>, blocks: seq<set<Trace>>, b: seq<nat>)
    requires Apart(window, gs) && |b| == |gs|
    requires forall k, t, u :: 0 <= k < |blocks| && t in blocks[k] && u in blocks[k] ==> t.start - u.start <= window
    requires forall k :: 0 <= k < |b| ==> b[k] < |blocks| && gs[k][0] in blocks[b[k]]
    ensures |b| <= |blocks|
  {
    forall i, j | 0 <= i < j < |b| ensures b[i] != b[j] {
      assert Head(gs[i]) + window < Head(gs[j]);
    }
    Pigeonhole(b, |blocks|);
  }

  lemma SpreadIsMinimal(window: int, ts: seq<Trace>, gs: seq<Batch>, blocks: seq<set<Trace>>)
    requires Spread(window, ts, gs) && IsCover(window, ts, blocks)
    ensures |gs| <= |blocks|
  {
    hide Within, Covered;
    var b: seq<nat> := [];
    while |b| < |gs|
      invariant |b| <= |gs|
      invariant forall k :: 0 <= k < |b| ==> b[k] < |blocks| && gs[k][0] in blocks[b[k]]
    {
      var j := BlockOf(window, ts, gs, blocks, |b|);
      b := b + [j];
    }
    HeadsInDistinctBlocks(window, gs, blocks, b);
  }

  /** Greedy is optimal: no cover by blocks of diameter at most the window has fewer blocks. */
  lemma GreedyIsOptimal(window: int, ts: seq<Trace>, blocks: seq<set<Trace>>)
    requires Sorted(ts) && IsCover(window, ts, blocks)
    ensures |Clusters(window, ts)| <= |blocks|
  {
    hide *;
    GroupsSpread(window, ts);
    SpreadIsMinimal(window, ts, Clusters(window, ts), blocks);
  }

  ghost function AsBlocks(gs: seq<Batch>): (bs: seq<set<Trace>>)
    ensures |bs| == |gs|
    ensures forall k, t :: 0 <= k < |gs| ==> (t in bs[k] <==> t in gs[k])
  {
    seq(|gs|, k requires 0 <= k < |gs| => set t | t in gs[k])
  }

  /** A negative window admits no cover, except of nothing. */
  lemma NoCover(window: int, ts: seq<Trace>, blocks: seq<set<Trace>>)
    requires window < 0 && ts != []
    ensures !IsCover(window, ts, blocks)
  {
    if forall t :: t in ts ==> exists k :: 0 <= k < |blocks| && t in blocks[k] {
      assert ts[0] in ts;
      var k :| 0 <= k < |blocks| && ts[0] in blocks[k];
      assert ts[0].start - ts[0].start > window;
    }
  }

  /** And the groups themselves are such a cover exactly when there is one at all, which is
      when the window is not negative or there is nothing to cover. */
  lemma GroupsCover(window: int, ts: seq<Trace>)
    requires Sorted(ts)
    ensures IsCover(window, ts, AsBlocks(Clusters(window, ts))) <==> exists blocks :: IsCover(window, ts, blocks)
    ensures IsCover(window, ts, AsBlocks(Clusters(window, ts))) <==> window >= 0 || ts == []
  {
    hide Clusters, Apart;
    GroupsSpread(window, ts);
    var gs := Clusters(window, ts);
    var bs := AsBlocks(gs);
    if window < 0 && ts != [] {
      forall blocks ensures !IsCover(window, ts, blocks) { NoCover(window, ts, blocks); }
    } else {
      forall t | t in ts ensures exists k :: 0 <= k < |bs| && t in bs[k] {
        assert Grouped(gs, t);
        var k :| 0 <= k < |gs| && t in gs[k];
        assert t in bs[k];
      }
    }
  }

  // ---- the order in which nodes are polled does not matter ----

  /** The group of `us` that holds trace `t`. */
  lemma GroupIn(window: nat, ts: seq<Trace>, us: seq<Trace>, gs: seq<Batch>, hs: seq<Batch>, k: nat, t: Trace)
    returns (j: nat)
    requires Spread(window, ts, gs) && Spread(window, us, hs) && SameMembers(ts, us) && k < |gs| && t in gs[k]
    ensures j < |hs| && t in hs[j]
    ensures Head(gs[k]) <= t.start <= Head(gs[k]) + window && Head(hs[j]) <= t.start <= Head(hs[j]) + window
  {
    assert Grouped(hs, t);
    j :| 0 <= j < |hs| && t in hs[j];
  }

  lemma HeadsBelow(window: nat, ts: seq<Trace>, us: seq<Trace>, gs: seq<Batch>, hs: seq<Batch>, k: nat)
    requires Spread(window, ts, gs) && Spread(window, us, hs) && SameMembers(ts, us) && k < |gs|
    requires k > 0 ==> k - 1 < |hs| && Head(hs[k - 1]) == Head(gs[k - 1])
    ensures k < |hs| && Head(hs[k]) <= Head(gs[k])
  {
    hide Within, Covered;
    var j := GroupIn(window, ts, us, gs, hs, k, gs[k][0]);
    assert k > 0 ==> Head(gs[k - 1]) + window < Head(gs[k]);
  }

  lemma {:induction false} HeadsAgree(window: nat, ts: seq<Trace>, us: seq<Trace>, gs: seq<Batch>, hs: seq<Batch>,
                                     k: nat)
    requires Spread(window, ts, gs) && Spread(window, us, hs) && SameMembers(ts, us) && k < |gs|
    ensures k < |hs| && Head(hs[k]) == Head(gs[k])
  {
    hide Spread;
    if k > 0 { HeadsAgree(window, ts, us, gs, hs, k - 1); }
    HeadsBelow(window, ts, us, gs, hs, k);
    HeadsBelow(window, us, ts, hs, gs, k);
  }

  lemma SameGroup(window: nat, ts: seq<Trace>, us: seq<Trace>, gs: seq<Batch>, hs: seq<Batch>, k: nat, t: Trace)
    requires Spread(window, ts, gs) && Spread(window, us, hs) && SameMembers(ts, us)
    requires k < |gs| && t in gs[k]
    ensures k < |hs| && t in hs[k]
  {
    hide Within, Covered;
    HeadsAgree(window, ts, us, gs, hs, k);
    var j := GroupIn(window, ts, us, gs, hs, k, t);
  }

  lemma {:induction false} FlattenCount(gs: seq<Batch>, k: nat, t: Trace)
    requires k < |gs| && forall j :: 0 <= j < |gs| && j != k ==> t !in gs[j]
    ensures multiset(Flatten(gs))[t] == multiset(gs[k])[t]
  {
    var n := |gs| - 1;
    if k < n {
      FlattenCount(gs[..n], k, t);
    } else {
      NotFlattened(gs[..n], t);
    }
  }

  lemma {:induction false} NotFlattened(gs: seq<Batch>, t: Trace)
    requires forall j :: 0 <= j < |gs| ==> t !in gs[j]
    ensures t !in Flatten(gs)
  {
    if gs != [] { NotFlattened(gs[..|gs| - 1], t); }
  }

  /** A group holds a trace as often as the whole list does. */
  lemma GroupCount(window: nat, ts: seq<Trace>, k: nat, t: Trace)
    requires Sorted(ts) && k < |Clusters(window, ts)| && t in Clusters(window, ts)[k]
    ensures multiset(Clusters(window, ts)[k])[t] == multiset(ts)[t]
  {
    hide Clusters, Covered;
    var gs := Clusters(window, ts);
    GroupsSpread(window, ts);
    ClustersPartition(window, ts);
    forall j | 0 <= j < |gs| && j != k ensures t !in gs[j] {
      if j < k {
        assert Head(gs[j]) + window < Head(gs[k]);
      } else {
        assert Head(gs[k]) + window < Head(gs[j]);
      }
    }
    FlattenCount(gs, k, t);
  }

  lemma SameGroups(window: nat, ts: seq<Trace>, us: seq<Trace>)
    requires Sorted(ts) && Sorted(us) && Permutes(ts, us)
    ensures |Clusters(window, ts)| == |Clusters(window, us)|
    ensures forall k :: 0 <= k < |Clusters(window, ts)| ==>
              multiset(Clusters(window, ts)[k]) == multiset(Clusters(window, us)[k])
  {
    hide Clusters, Spread, Sorted;
    PermutesMembers(ts, us);
    var gs, hs := Clusters(window, ts), Clusters(window, us);
    GroupsSpread(window, ts);
    GroupsSpread(window, us);
    if |gs| > 0 { HeadsAgree(window, ts, us, gs, hs, |gs| - 1); }
    if |hs| > 0 { HeadsAgree(window, us, ts, hs, gs, |hs| - 1); }
    forall k | 0 <= k < |gs| ensures multiset(gs[k]) == multiset(hs[k]) {
      forall t ensures multiset(gs[k])[t] == multiset(hs[k])[t] {
        if t in gs[k] {
          SameGroup(window, ts, us, gs, hs, k, t);
          GroupCount(window, ts, k, t);
          GroupCount(window, us, k, t);
        } else if t in hs[k] {
          SameGroup(window, us, ts, hs, gs, k, t);
        }
      }
    }
  }

  /** Each trace a group of its own. */
  function Singles(ts: seq<Trace>): (gs: seq<Batch>)
    ensures |gs| == |ts| && forall i :: 0 <= i < |ts| ==> gs[i] == [ts[i]]
  {
    seq(|ts|, i requires 0 <= i < |ts| => [ts[i]])
  }

  lemma {:induction false} NegativeWindow(window: int, ts: seq<Trace>)
    requires window < 0 && Sorted(ts)
    ensures Clusters(window, ts) == Singles(ts)
  {
    if ts == [] {
      SpreadNone(window);
    } else {
      hide Clusters;
      var init, t := ts[..|ts| - 1], ts[|ts| - 1];
      ClustersSnoc(window, init, t);
      assert ts == init + [t];
      SortedInit(init, t);
      NegativeWindow(window, init);
      if init != [] { assert ts[|init| - 1].start <= ts[|init|].start; }
    }
  }

  /** The groups as unordered bags of traces. */
  ghost function Bags(gs: seq<Batch>): (r: seq<multiset<Trace>>)
    ensures |r| == |gs| && forall i :: 0 <= i < |gs| ==> r[i] == multiset(gs[i])
  {
    seq(|gs|, i requires 0 <= i < |gs| => multiset(gs[i]))
  }

  lemma SinglesPermute(ts: seq<Trace>, us: seq<Trace>)
    requires Permutes(ts, us)
    ensures Permutes(Bags(Singles(ts)), Bags(Singles(us)))
  {
    var bag := (t: Trace) => multiset{t};
    MapPermutes(bag, ts, us);
    assert Bags(Singles(ts)) == Map(bag, ts) && Bags(Singles(us)) == Map(bag, us);
  }

  /** The grouping is independent of polling order and of how the sort breaks ties: any two
      sorted orders of the same traces give the same bags of traces, for every window, and
      in the same places when the window is not negative. */
  lemma GroupingIsInvariant(window: int, ts: seq<Trace>, us: seq<Trace>)
    requires Sorted(ts) && Sorted(us) && Permutes(ts, us)
    ensures Permutes(Bags(Clusters(window, ts)), Bags(Clusters(window, us)))
    ensures window >= 0 ==> Bags(Clusters(window, ts)) == Bags(Clusters(window, us))
  {
    hide Clusters, Singles, Sorted;
    if window >= 0 {
      SameGroups(window, ts, us);
      assert Bags(Clusters(window, ts)) == Bags(Clusters(window, us));
    } else {
      NegativeWindow(window, ts);
      NegativeWindow(window, us);
      SinglesPermute(ts, us);
    }
  }

  // ---- the pass over the polled traces ----

  method SortByStart(all: seq<Trace>) returns (ts: seq<Trace>)
    ensures Sorted(ts) && Permutes(ts, all)
  {
    ts := SortBy((t: Trace) => t.start, all);
  }

  /** Sort the polled traces and cut them into groups. */
  method GroupTraces(window: int, all: seq<Trace>) returns (groups: seq<Batch>)
    ensures exists ts :: Sorted(ts) && Permutes(ts, all) && groups == Clusters(window, ts)
  {
    hide Clusters, Sorted;
    var sorted := SortByStart(all);
    groups := [];
    assert groups == Clusters(window, sorted[..0]) by { SpreadNone(window); }
    for i := 0 to |sorted|
      invariant groups == Clusters(window, sorted[..i])
    {
      var t, n := sorted[i], |groups|;
      assert sorted[..i + 1] == sorted[..i] + [t];
      ClustersSnoc(window, sorted[..i], t);
      if n > 0 && t.start - groups[n - 1][0].start <= window {
        groups := groups[..n - 1] + [groups[n - 1] + [t]];
      } else {
        groups := groups + [[t]];
      }
    }
    assert sorted[..|sorted|] == sorted;
  }
}
