/** One refresh of the trace aggregator: sort, cluster, merge. */
module Aggregator {
  import opened Correlate
  import opened Cluster
  import opened Permutations
  import opened Timeline

  /** `dts` are the merged timelines of `groups`, numbered from 1, with their links, roots
      and nodes. */
  ghost predicate Merged(groups: seq<Batch>, dts: seq<DTrace>) {
    && |dts| == |groups|
    && forall i :: 0 <= i < |dts| ==>
         && dts[i].id == i + 1
         && IsTimeline(Placed(groups[i]), dts[i]) && WellFormed(dts[i])
         && Elected(groups[i], dts[i].link) && RootsOf(groups[i], dts[i].roots)
         && Names(groups[i], dts[i].nodes)
  }

  method Build(window: int, all: seq<Trace>) returns (dts: seq<DTrace>)
    ensures exists ts :: Sorted(ts) && Permutes(ts, all) && Merged(Clusters(window, ts), dts)
  {
    hide Clusters, IsTimeline, WellFormed, Placed, Sorted, Elected, RootsOf, Names;
    var groups := GroupTraces(window, all);
    dts := [];
    for i := 0 to |groups|
      invariant Merged(groups[..i], dts)
    {
      var dt := Merge(i + 1, groups[i]);
      dts := dts + [dt];
    }
    assert groups[..|groups|] == groups;
  }

  // ---- no span is lost or shown twice ----

  /** The spans of a merged trace without their offsets. */
  function Stripped(spans: seq<DSpan>): (r: seq<DSpan>)
    ensures |r| == |spans| && forall i :: 0 <= i < |r| ==> r[i] == spans[i].(offsetMs := 0)
  {
    seq(|spans|, i requires 0 <= i < |spans| => spans[i].(offsetMs := 0))
  }

  function Shown(dts: seq<DTrace>): seq<DSpan> {
    if dts == [] then [] else Shown(dts[..|dts| - 1]) + Stripped(dts[|dts| - 1].spans)
  }

  lemma {:induction false} PlacedUnset(g: seq<Trace>)
    ensures forall s :: s in Placed(g) ==> s.offsetMs == 0
  {
    if g != [] { PlacedUnset(g[..|g| - 1]); }
  }

  lemma TimelineShows(g: seq<Trace>, dt: DTrace)
    requires IsTimeline(Placed(g), dt)
    ensures multiset(Stripped(dt.spans)) == multiset(Placed(g))
  {
    PlacedUnset(g);
    var sorted: seq<DSpan> :| Permutes(sorted, Placed(g)) && ByTime(sorted) &&
                              dt.spans == WithOffsets(sorted) && dt.start == StartOf(sorted);
    forall i | 0 <= i < |sorted| ensures sorted[i].offsetMs == 0 {
      assert sorted[i] in multiset(sorted);
    }
    assert Stripped(dt.spans) == sorted;
  }

  lemma {:induction false} PlacedAppend(xs: seq<Trace>, ys: seq<Trace>)
    ensures Placed(xs + ys) == Placed(xs) + Placed(ys)
  {
    hide PlacedOf;
    if ys == [] {
      assert xs + ys == xs;
    } else {
      var init, t := ys[..|ys| - 1], ys[|ys| - 1];
      PlacedAppend(xs, init);
      assert (xs + ys)[..|xs + ys| - 1] == xs + init;
      assert Placed(xs) + (Placed(init) + PlacedOf(t)) == Placed(xs) + Placed(init) + PlacedOf(t);
    }
  }

  lemma PlacedTakeOut(xs: seq<Trace>, i: nat, t: Trace, rest: seq<Trace>)
    requires TakenOut(xs, i, t, rest)
    ensures multiset(Placed(xs)) == multiset(Placed(rest)) + multiset(Placed([t]))
  {
    hide Placed;
    var a, b := xs[..i], xs[i + 1..];
    assert xs == (a + [t]) + b;
    PlacedAppend(a, b);
    PlacedAppend(a + [t], b);
    PlacedAppend(a, [t]);
  }

  lemma {:induction false} PlacedPermutes(xs: seq<Trace>, ys: seq<Trace>)
    requires Permutes(xs, ys)
    ensures multiset(Placed(xs)) == multiset(Placed(ys))
    decreases xs
  {
    hide Placed;
    if xs == [] {
      assert |multiset(ys)| == 0 && ys == [];
    } else {
      hide Permutes;
      var t, rest := xs[0], xs[1..];
      TakeFirst(xs);
      PermutesHolds(xs, ys, t);
      var i, more := TakeOut(ys, t);
      RestPermutes(xs, 0, ys, i, t, rest, more);
      PlacedPermutes(rest, more);
      PlacedTakeOut(xs, 0, t, rest);
      PlacedTakeOut(ys, i, t, more);
    }
  }

  lemma {:induction false} GroupsShow(groups: seq<Batch>, dts: seq<DTrace>)
    requires Merged(groups, dts)
    ensures multiset(Shown(dts)) == multiset(Placed(Cluster.Flatten(groups)))
  {
    if groups != [] {
      hide Placed, IsTimeline, WellFormed, Stripped, Elected, RootsOf, Names;
      var n := |groups| - 1;
      GroupsShow(groups[..n], dts[..n]);
      TimelineShows(groups[n], dts[n]);
      PlacedAppend(Cluster.Flatten(groups[..n]), groups[n]);
    }
  }

  /** Across all merged traces of a refresh, every span of every polled trace is shown
      exactly once, at its absolute time. */
  lemma SpansConserved(window: int, all: seq<Trace>, ts: seq<Trace>, dts: seq<DTrace>)
    requires Permutes(ts, all) && Merged(Clusters(window, ts), dts)
    ensures multiset(Shown(dts)) == multiset(Placed(all))
  {
    hide Placed, Clusters, Merged;
    GroupsShow(Clusters(window, ts), dts);
    ClustersPartition(window, ts);
    PlacedPermutes(ts, all);
  }
}
