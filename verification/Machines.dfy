/** Runs of a machine whose steps are given by a relation: `moves(c, m)` says that
    configuration `c` may make move `m`, which leads to `next(m)`. */
module Machines {

  datatype Machine<!C(!new), !M(!new)> = Machine(
    moves: (C, M) -> bool,
    next: M -> C,
    known: C -> bool,  // configurations a walk may continue from
    goal: C -> bool)

  /** `cs` is a run and `ms` the moves it made. */
  ghost predicate IsRun<C(!new), M(!new)>(a: Machine<C, M>, cs: seq<C>, ms: seq<M>) {
    && |cs| == |ms| + 1
    && forall i :: 0 <= i < |ms| ==> a.moves(cs[i], ms[i]) && a.next(ms[i]) == cs[i + 1]
  }

  /** Every configuration after the first is known. */
  ghost predicate AllKnown<C(!new), M(!new)>(a: Machine<C, M>, cs: seq<C>) {
    forall i :: 1 <= i < |cs| ==> a.known(cs[i])
  }

  /** The goal is not met before the last configuration. */
  ghost predicate FirstGoal<C(!new), M(!new)>(a: Machine<C, M>, cs: seq<C>) {
    forall i :: 0 <= i < |cs| - 1 ==> !a.goal(cs[i])
  }

  ghost predicate Stuck<C(!new), M(!new)>(a: Machine<C, M>, c: C) {
    forall m :: !a.moves(c, m)
  }

  /** The goal is met in exactly `n` steps through known configurations. */
  ghost predicate ReachesIn<C(!new), M(!new)>(a: Machine<C, M>, c: C, n: nat)
    decreases n
  {
    if n == 0 then a.goal(c)
    else exists m :: a.moves(c, m) && a.known(a.next(m)) && ReachesIn(a, a.next(m), n - 1)
  }

  ghost predicate Deterministic<C(!new), M(!new)>(a: Machine<C, M>) {
    forall c, m1, m2 :: a.moves(c, m1) && a.moves(c, m2) ==> m1 == m2
  }

  lemma ReachesStep<C(!new), M(!new)>(a: Machine<C, M>, c: C, m: M, n: nat)
    requires a.moves(c, m) && a.known(a.next(m)) && ReachesIn(a, a.next(m), n)
    ensures ReachesIn(a, c, n + 1)
  {
  }

  lemma {:induction false} RunThenReach<C(!new), M(!new)>(a: Machine<C, M>, cs: seq<C>, ms: seq<M>, n: nat)
    requires IsRun(a, cs, ms) && AllKnown(a, cs) && ReachesIn(a, cs[|ms|], n)
    ensures ReachesIn(a, cs[0], |ms| + n)
    decreases |ms|
  {
    if ms != [] {
      RunThenReach(a, cs[1..], ms[1..], n);
      assert a.moves(cs[0], ms[0]) && a.next(ms[0]) == cs[1];
      ReachesStep(a, cs[0], ms[0], |ms| - 1 + n);
    }
  }

  lemma StepRunReach<C(!new), M(!new)>(a: Machine<C, M>, c: C, m: M, cs: seq<C>, ms: seq<M>, n: nat)
    requires IsRun(a, cs, ms) && a.moves(c, m) && a.next(m) == cs[0] && a.known(cs[0])
    requires AllKnown(a, cs) && ReachesIn(a, cs[|ms|], n)
    ensures ReachesIn(a, c, 1 + |ms| + n)
  {
    RunThenReach(a, cs, ms, n);
    ReachesStep(a, c, m, |ms| + n);
  }

  lemma {:induction false} ReachesRun<C(!new), M(!new)>(a: Machine<C, M>, c: C, n: nat)
    returns (cs: seq<C>, ms: seq<M>)
    requires ReachesIn(a, c, n)
    ensures IsRun(a, cs, ms) && AllKnown(a, cs) && |ms| == n && cs[0] == c && a.goal(cs[n])
    decreases n
  {
    if n == 0 {
      cs, ms := [c], [];
    } else {
      var m :| a.moves(c, m) && a.known(a.next(m)) && ReachesIn(a, a.next(m), n - 1);
      var ds, ns := ReachesRun(a, a.next(m), n - 1);
      cs, ms := [c] + ds, [m] + ns;
    }
  }

  /** Two runs of a deterministic machine from one configuration agree as far as both go. */
  lemma {:induction false} RunsAgree<C(!new), M(!new)>(a: Machine<C, M>, cs: seq<C>, ms: seq<M>,
                                                      ds: seq<C>, ns: seq<M>, i: nat)
    requires Deterministic(a) && IsRun(a, cs, ms) && IsRun(a, ds, ns) && cs[0] == ds[0]
    requires i < |cs| && i < |ds|
    ensures cs[i] == ds[i]
  {
    if i > 0 {
      RunsAgree(a, cs, ms, ds, ns, i - 1);
      assert a.moves(cs[i - 1], ms[i - 1]) && a.moves(ds[i - 1], ns[i - 1]);
    }
  }

  /** A run that meets the goal only at its end repeats no configuration. */
  lemma NoRepeat<C(!new), M(!new)>(a: Machine<C, M>, cs: seq<C>, ms: seq<M>, i: nat, j: nat)
    requires Deterministic(a) && IsRun(a, cs, ms)
    requires FirstGoal(a, cs) && a.goal(cs[|ms|])
    requires i < j <= |ms|
    ensures cs[i] != cs[j]
  {
    if cs[i] == cs[j] {
      RunsAgree(a, cs[i..], ms[i..], cs[j..], ms[j..], |ms| - j);
    }
  }

  /** A run that ended short of the goal after `limit` steps, stuck, or at an unknown
      configuration shows that a deterministic machine does not meet the goal in time. */
  lemma EndedShort<C(!new), M(!new)>(a: Machine<C, M>, cs: seq<C>, ms: seq<M>, n: nat, limit: nat)
    requires Deterministic(a) && IsRun(a, cs, ms) && FirstGoal(a, cs) && n < limit
    requires || |ms| == limit
             || (|ms| > 0 && !a.known(cs[|ms|]))
             || (!a.goal(cs[|ms|]) && Stuck(a, cs[|ms|]))
    ensures !ReachesIn(a, cs[0], n)
  {
    if ReachesIn(a, cs[0], n) {
      var ds, ns := ReachesRun(a, cs[0], n);
      if n < |ms| {
        RunsAgree(a, cs, ms, ds, ns, n);
      } else {
        RunsAgree(a, cs, ms, ds, ns, |ms|);
      }
    }
  }

  lemma RunGrows<C(!new), M(!new)>(a: Machine<C, M>, cs: seq<C>, ms: seq<M>, m: M)
    requires IsRun(a, cs, ms) && a.moves(cs[|ms|], m)
    ensures IsRun(a, cs + [a.next(m)], ms + [m])
  {
  }
}
