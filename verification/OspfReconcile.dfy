/** The OSPF reconcile: each neighbor snapshot is diffed against the previous one,
    updating the cached leaves and emitting adjacency events. */
module OspfReconcile {
  import opened Options
  import Text

  datatype Nbr = Nbr(iface: string, addr: string, state: string)

  /** `show ip ospf neighbor`: router-id -> neighbor. */
  type Snapshot = map<string, Nbr>

  datatype Leaf = Leaf(iface: string, rid: string, name: string)

  const ADJACENCY := "adjacency-state"
  const ADDRESS := "neighbor-address"

  datatype Event =
    | Transition(rid: string, iface: string, from: string, to: string)
    | Gone(rid: string, iface: string)

  /** An FRR state in the OpenConfig enumeration. */
  function StateName(state: string): string {
    match state
    case "Full" => "FULL"
    case "2-Way" => "TWO_WAY"
    case "Init" => "INIT"
    case "Down" => "DOWN"
    case "ExStart" => "EXCHANGE_START"
    case "Exchange" => "EXCHANGE"
    case "Loading" => "LOADING"
    case "Attempt" => "ATTEMPT"
    case _ => "UNKNOWN"
  }

  /** FRR writes "Full/DR" and the like. */
  function AdjState(s: string): string {
    StateName(Text.Split(s, '/')[0])
  }

  /** The part before a slash decides, whatever role stands behind it. */
  lemma AdjStateIs(state: string, role: string)
    requires '/' !in state
    ensures AdjState(state) == AdjState(state + "/" + role) == StateName(state)
  {
    hide StateName;
    Text.SplitNoSep(state, '/');
    Text.SplitFirst(state, '/', role);
    assert state + "/" + role == state + ['/'] + role;
  }

  lemma StateNames()
    ensures StateName("Full") == "FULL" && StateName("2-Way") == "TWO_WAY"
    ensures StateName("Init") == "INIT" && StateName("Down") == "DOWN"
    ensures StateName("ExStart") == "EXCHANGE_START" && StateName("Exchange") == "EXCHANGE"
    ensures StateName("Loading") == "LOADING" && StateName("Attempt") == "ATTEMPT" && StateName("") == "UNKNOWN"
  {
  }

  /** A neighbor in state "Full/DR" on eth0 has the leaves adjacency-state and neighbor-address. */
  lemma FullNeighborExample(addr: string)
    ensures var n := map["10.0.0.1" := Nbr("eth0", addr, "Full/DR")];
            && LeafValue(n, Leaf("eth0", "10.0.0.1", "adjacency-state")) == Some("FULL")
            && LeafValue(n, Leaf("eth0", "10.0.0.1", "neighbor-address")) == Some(addr)
  {
    AdjStateIs("Full", "DR");
    assert "Full" + "/" + "DR" == "Full/DR";
    StateNames();
    assert "adjacency-state"[0] != "neighbor-address"[0];
    hide StateName, Text.Split;
  }

  // ---- what a snapshot stands for ----

  function Ifaces(n: Snapshot): map<string, string> {
    map rid | rid in n :: n[rid].iface
  }

  function States(n: Snapshot): map<string, string> {
    map rid | rid in n :: AdjState(n[rid].state)
  }

  /** The leaf of a snapshot at `l`, if it has one. */
  function LeafValue(n: Snapshot, l: Leaf): Option<string> {
    if l.rid !in n || n[l.rid].iface != l.iface then None
    else if l.name == ADJACENCY then Some(AdjState(n[l.rid].state))
    else if l.name == ADDRESS then Some(n[l.rid].addr)
    else None
  }

  function ValueAt(cache: map<Leaf, string>, l: Leaf): Option<string> {
    if l in cache then Some(cache[l]) else None
  }

  /** The cache holds exactly the leaves of the snapshot. */
  ghost predicate Agrees(cache: map<Leaf, string>, n: Snapshot) {
    forall l :: ValueAt(cache, l) == LeafValue(n, l)
  }

  /** The leaf at `l` after reconciling from `prev` to `cur`: written if the snapshot has
      it, deleted with a neighbor that is gone, otherwise left alone. */
  function Reconciled(cache: map<Leaf, string>, prev: Snapshot, cur: Snapshot, l: Leaf): Option<string> {
    if LeafValue(cur, l).Some? then LeafValue(cur, l)
    else if l.rid in prev && l.rid !in cur && prev[l.rid].iface == l.iface then None
    else ValueAt(cache, l)
  }

  // ---- events ----

  function EventsFor(rid: string, prev: Snapshot, cur: Snapshot): seq<Event> {
    if rid in cur then
      if rid in prev && AdjState(prev[rid].state) != AdjState(cur[rid].state) then
        [Transition(rid, cur[rid].iface, AdjState(prev[rid].state), AdjState(cur[rid].state))]
      else []
    else if rid in prev then [Gone(rid, prev[rid].iface)]
    else []
  }

  /** The events of one neighbor, in order. */
  function Project(log: seq<Event>, rid: string): seq<Event> {
    if log == [] then []
    else
      var e := log[|log| - 1];
      Project(log[..|log| - 1], rid) + (if e.rid == rid then [e] else [])
  }

  lemma ProjectAppend(log: seq<Event>, e: Event, rid: string)
    ensures Project(log + [e], rid) == Project(log, rid) + (if e.rid == rid then [e] else [])
  {
    assert (log + [e])[..|log|] == log;
  }

  function Last(snaps: seq<Snapshot>): Snapshot {
    if snaps == [] then map[] else snaps[|snaps| - 1]
  }

  /** All events of one neighbor over a history of snapshots. */
  function LogFor(rid: string, snaps: seq<Snapshot>): seq<Event> {
    if snaps == [] then []
    else
      var before := snaps[..|snaps| - 1];
      LogFor(rid, before) + EventsFor(rid, Last(before), snaps[|snaps| - 1])
  }

  /** Each transition starts in the state the previous one ended in, the last one ended in the
      state of `now`, none is a self-loop, and a departed neighbor's last event says so. */
  predicate Chained(rid: string, log: seq<Event>, now: Snapshot) {
    && (forall i :: 0 <= i < |log| ==> log[i].rid == rid)
    && (forall i :: 0 <= i < |log| && log[i].Transition? ==> log[i].from != log[i].to)
    && (forall i :: 0 < i < |log| && log[i - 1].Transition? && log[i].Transition? ==> log[i - 1].to == log[i].from)
    && (log != [] && log[|log| - 1].Transition? ==> rid in now && log[|log| - 1].to == AdjState(now[rid].state))
    && (log != [] && rid !in now ==> log[|log| - 1].Gone?)
  }

  /** Per neighbor, the events of any history chain up to its last snapshot. */
  lemma {:induction false} TransitionsChain(rid: string, snaps: seq<Snapshot>)
    ensures Chained(rid, LogFor(rid, snaps), Last(snaps))
  {
    hide Chained, EventsFor;
    if snaps == [] {
      NothingChained(rid);
    } else {
      var before := snaps[..|snaps| - 1];
      TransitionsChain(rid, before);
      ChainStep(rid, LogFor(rid, before), Last(before), Last(snaps));
    }
  }

  lemma NothingChained(rid: string)
    ensures Chained(rid, [], map[])
  {
  }

  lemma ChainStep(rid: string, log: seq<Event>, prev: Snapshot, cur: Snapshot)
    requires Chained(rid, log, prev)
    ensures Chained(rid, log + EventsFor(rid, prev, cur), cur)
  {
    hide AdjState;
    assert log + [] == log;
  }

  lemma {:induction false} LogSplits(rid: string, before: seq<Snapshot>, more: seq<Snapshot>)
    ensures LogFor(rid, before + more) == LogFor(rid, before) + LogFor(rid, [Last(before)] + more)
  {
    hide EventsFor;
    var tail := [Last(before)] + more;
    if more == [] {
      assert before + more == before;
      FirstSeen(rid, Last(before));
      assert tail == [Last(before)];
    } else {
      var m, all := more[..|more| - 1], before + more;
      LogSplits(rid, before, m);
      assert all[..|all| - 1] == before + m && tail[..|tail| - 1] == [Last(before)] + m;
      assert Last(before + m) == Last([Last(before)] + m);
    }
  }

  /** The first snapshot of a history is no event. */
  lemma FirstSeen(rid: string, n: Snapshot)
    ensures LogFor(rid, [n]) == []
  {
    assert [n][..0] == [];
    hide AdjState;
  }

  /** What is known of a neighbor in a snapshot. */
  function StateIn(n: Snapshot, rid: string): Option<string> {
    if rid in n then Some(AdjState(n[rid].state)) else None
  }

  /** Once present, the neighbor stays present in one state. */
  ghost predicate Steady(rid: string, snaps: seq<Snapshot>) {
    forall i, j :: 0 <= i < j < |snaps| && StateIn(snaps[i], rid).Some? ==>
      StateIn(snaps[j], rid) == StateIn(snaps[i], rid)
  }

  lemma SteadySnoc(rid: string, init: seq<Snapshot>, cur: Snapshot)
    requires init != []
    ensures Steady(rid, init + [cur]) <==>
            Steady(rid, init) && (StateIn(Last(init), rid).Some? ==> StateIn(cur, rid) == StateIn(Last(init), rid))
  {
    hide StateIn;
    var all := init + [cur];
    assert all[|init|] == cur && all[|init| - 1] == Last(init);
    assert forall i :: 0 <= i < |init| ==> all[i] == init[i];
  }

  lemma StepSilent(rid: string, prev: Snapshot, cur: Snapshot)
    ensures EventsFor(rid, prev, cur) == [] <==>
            (StateIn(prev, rid).Some? ==> StateIn(cur, rid) == StateIn(prev, rid))
  {
    hide AdjState;
  }

  lemma {:induction false} SilentIff(rid: string, snaps: seq<Snapshot>)
    ensures LogFor(rid, snaps) == [] <==> Steady(rid, snaps)
  {
    hide EventsFor, StateIn;
    if |snaps| == 1 {
      assert snaps == [snaps[0]];
      FirstSeen(rid, snaps[0]);
    } else if snaps != [] {
      var init, cur := snaps[..|snaps| - 1], snaps[|snaps| - 1];
      assert snaps == init + [cur];
      SilentIff(rid, init);
      SteadySnoc(rid, init, cur);
      StepSilent(rid, Last(init), cur);
    }
  }

  /** Whether the snapshot has the neighbor on the interface. */
  predicate On(n: Snapshot, rid: string, iface: string) {
    rid in n && n[rid].iface == iface
  }

  /** A transition names the interface the neighbor is on now and both its states, a departure
      the interface it was on. */
  lemma EventsName(rid: string, prev: Snapshot, cur: Snapshot, i: nat)
    requires i < |EventsFor(rid, prev, cur)|
    ensures match EventsFor(rid, prev, cur)[i]
            case Transition(r, iface, from, to) =>
              r == rid && On(cur, rid, iface) && StateIn(prev, rid) == Some(from) && StateIn(cur, rid) == Some(to)
            case Gone(r, iface) => r == rid && On(prev, rid, iface) && rid !in cur
  {
    hide AdjState;
  }

  /** The log misses nothing: over any stretch `more` of a history a neighbor's log grows
      unless, from the snapshot before the stretch on, the neighbor once present stays
      present in one state. */
  lemma EventsComplete(rid: string, before: seq<Snapshot>, more: seq<Snapshot>)
    ensures LogFor(rid, before + more) == LogFor(rid, before) <==> Steady(rid, [Last(before)] + more)
  {
    hide LogFor, Steady;
    LogSplits(rid, before, more);
    SilentIff(rid, [Last(before)] + more);
  }

  // ---- agreement of the cache ----

  /** No neighbor of both snapshots moved to another interface. */
  predicate NoMove(prev: Snapshot, cur: Snapshot) {
    forall rid :: rid in prev && rid in cur ==> prev[rid].iface == cur[rid].iface
  }

  /** A cache that agreed with the previous snapshot agrees with the next one exactly
      when no router-id changed interface between them. */
  lemma AgreementIff(cache: map<Leaf, string>, cache': map<Leaf, string>, prev: Snapshot, cur: Snapshot)
    requires Agrees(cache, prev)
    requires forall l :: ValueAt(cache', l) == Reconciled(cache, prev, cur, l)
    ensures Agrees(cache', cur) <==> NoMove(prev, cur)
  {
    hide AdjState;
    if NoMove(prev, cur) {
      forall l ensures ValueAt(cache', l) == LeafValue(cur, l) {
        assert ValueAt(cache, l) == LeafValue(prev, l);
      }
    } else {
      var rid :| rid in prev && rid in cur && prev[rid].iface != cur[rid].iface;
      var l := Leaf(prev[rid].iface, rid, ADDRESS);
      assert ValueAt(cache, l) == LeafValue(prev, l) == Some(prev[rid].addr);
      assert ValueAt(cache', l) == Reconciled(cache, prev, cur, l);
      assert LeafValue(cur, l) == None;
    }
  }

  /** A neighbor that moves from eth0 to eth1 leaves its eth0 leaves behind. */
  lemma MovedNeighborExample(cache: map<Leaf, string>, cache': map<Leaf, string>)
    requires var prev, cur := map["10.0.0.1" := Nbr("eth0", "10.1.1.1", "Full/DR")],
                              map["10.0.0.1" := Nbr("eth1", "10.1.1.1", "Full/DR")];
             Agrees(cache, prev) && forall l :: ValueAt(cache', l) == Reconciled(cache, prev, cur, l)
    ensures ValueAt(cache', Leaf("eth0", "10.0.0.1", ADDRESS)) == Some("10.1.1.1")
    ensures !Agrees(cache', map["10.0.0.1" := Nbr("eth1", "10.1.1.1", "Full/DR")])
  {
    hide AdjState;
    var prev, cur := map["10.0.0.1" := Nbr("eth0", "10.1.1.1", "Full/DR")],
                     map["10.0.0.1" := Nbr("eth1", "10.1.1.1", "Full/DR")];
    var l := Leaf("eth0", "10.0.0.1", ADDRESS);
    assert ValueAt(cache, l) == LeafValue(prev, l);
    assert prev["10.0.0.1"].iface[3] != cur["10.0.0.1"].iface[3];
    assert !NoMove(prev, cur);
    AgreementIff(cache, cache', prev, cur);
  }

  // ---- agreement over a history ----

  /** One past the last snapshot that has the neighbor on the interface, 0 when none has. */
  function LastOn(snaps: seq<Snapshot>, rid: string, iface: string): (k: nat)
    ensures k <= |snaps| && (k > 0 ==> On(snaps[k - 1], rid, iface))
    ensures forall i :: k <= i < |snaps| ==> !On(snaps[i], rid, iface)
  {
    if snaps == [] then 0
    else if On(Last(snaps), rid, iface) then |snaps|
    else LastOn(snaps[..|snaps| - 1], rid, iface)
  }

  /** The leaf at `l` after a history: that of the neighbor's last stay on the interface,
      and nothing when the neighbor was gone right after it. */
  function Kept(snaps: seq<Snapshot>, l: Leaf): Option<string> {
    var k := LastOn(snaps, l.rid, l.iface);
    if k == 0 || (k < |snaps| && l.rid !in snaps[k]) then None else LeafValue(snaps[k - 1], l)
  }

  /** One more snapshot. */
  lemma KeptSnoc(snaps: seq<Snapshot>, cur: Snapshot, cache: map<Leaf, string>, l: Leaf)
    requires ValueAt(cache, l) == Kept(snaps, l)
    ensures Reconciled(cache, Last(snaps), cur, l) == Kept(snaps + [cur], l)
  {
    hide AdjState;
    var all := snaps + [cur];
    assert all[..|all| - 1] == snaps;
    var k := LastOn(snaps, l.rid, l.iface);
    assert LastOn(all, l.rid, l.iface) == if On(cur, l.rid, l.iface) then |all| else k;
    assert k > 0 ==> all[k - 1] == snaps[k - 1];
    assert k < |snaps| ==> all[k] == snaps[k];
  }

  /** Every stay of a neighbor on an interface that is over ended in its departure. */
  ghost predicate LeavesByDeparture(snaps: seq<Snapshot>) {
    forall rid, iface :: 0 < LastOn(snaps, rid, iface) < |snaps| ==> rid !in snaps[LastOn(snaps, rid, iface)]
  }

  /** The cache agrees with the last snapshot of a history exactly when no neighbor's last
      stay on any interface ended in a move. */
  lemma AgreesIff(cache: map<Leaf, string>, snaps: seq<Snapshot>)
    requires forall l :: ValueAt(cache, l) == Kept(snaps, l)
    ensures Agrees(cache, Last(snaps)) <==> LeavesByDeparture(snaps)
  {
    hide AdjState;
    if LeavesByDeparture(snaps) {
      forall l ensures ValueAt(cache, l) == LeafValue(Last(snaps), l) {
        assert ValueAt(cache, l) == Kept(snaps, l);
      }
    } else {
      var rid, iface :| 0 < LastOn(snaps, rid, iface) < |snaps| && rid in snaps[LastOn(snaps, rid, iface)];
      var l := Leaf(iface, rid, ADDRESS);
      assert ValueAt(cache, l) == Kept(snaps, l) && Kept(snaps, l).Some?;
      assert !On(Last(snaps), rid, iface);
    }
  }

  /** In particular it agrees when no neighbor ever moved. */
  lemma NeverMovedAgrees(snaps: seq<Snapshot>)
    requires forall i :: 0 < i < |snaps| ==> NoMove(snaps[i - 1], snaps[i])
    ensures LeavesByDeparture(snaps)
  {
    forall rid, iface | 0 < LastOn(snaps, rid, iface) < |snaps| ensures rid !in snaps[LastOn(snaps, rid, iface)] {
      var k := LastOn(snaps, rid, iface);
      assert NoMove(snaps[k - 1], snaps[k]);
    }
  }

  /** A neighbor that moves and comes back, and is gone at last, has moved and left no leaf. */
  lemma ReturnedNeighborExample()
    ensures var a, b := map["10.0.0.1" := Nbr("eth0", "10.1.1.1", "Full/DR")],
                        map["10.0.0.1" := Nbr("eth1", "10.1.1.1", "Full/DR")];
            !NoMove(a, b) && LeavesByDeparture([a, b, map[], a, map[]]) && !LeavesByDeparture([a, b, map[]])
  {
    var a: Snapshot, b: Snapshot := map["10.0.0.1" := Nbr("eth0", "10.1.1.1", "Full/DR")],
                                    map["10.0.0.1" := Nbr("eth1", "10.1.1.1", "Full/DR")];
    assert a["10.0.0.1"].iface[3] != b["10.0.0.1"].iface[3];
    var short: seq<Snapshot> := [a, b, map[]];
    assert On(short[0], "10.0.0.1", "eth0") && !On(short[1], "10.0.0.1", "eth0") && !On(short[2], "10.0.0.1", "eth0");
    assert LastOn(short, "10.0.0.1", "eth0") == 1;
    var long: seq<Snapshot> := [a, b, map[], a, map[]];
    forall rid, iface | 0 < LastOn(long, rid, iface) < |long| ensures rid !in long[LastOn(long, rid, iface)] {
      var k := LastOn(long, rid, iface);
      assert On(long[0], rid, iface) == On(long[3], rid, iface);
      assert On(long[k - 1], rid, iface) && k in {2, 4};
    }
  }

  // ---- progress of the two loops ----

  function WriteNbr(cache: map<Leaf, string>, rid: string, n: Nbr): map<Leaf, string> {
    cache[Leaf(n.iface, rid, ADJACENCY) := AdjState(n.state)][Leaf(n.iface, rid, ADDRESS) := n.addr]
  }

  function DeleteNbr(cache: map<Leaf, string>, rid: string, iface: string): map<Leaf, string> {
    map l | l in cache && !(l.iface == iface && l.rid == rid) :: cache[l]
  }

  /** The adjacency table when the neighbors in `done` have been refreshed. */
  ghost predicate StRefreshed(st: map<string, string>, prev: Snapshot, cur: Snapshot, done: set<string>) {
    && st.Keys == prev.Keys + done
    && forall rid :: rid in st ==>
         st[rid] == (if rid in done && rid in cur then AdjState(cur[rid].state)
                     else if rid in prev then AdjState(prev[rid].state) else st[rid])
  }

  ghost predicate CacheRefreshed(cache: map<Leaf, string>, was: map<Leaf, string>, cur: Snapshot, done: set<string>) {
    forall l :: ValueAt(cache, l) ==
                if LeafValue(cur, l).Some? && l.rid in done then LeafValue(cur, l) else ValueAt(was, l)
  }

  /** The log when the events of the neighbors in `done` have been added to `was`. */
  ghost predicate LogHas(log: seq<Event>, was: seq<Event>, prev: Snapshot, cur: Snapshot, done: set<string>) {
    forall rid :: Project(log, rid) == Project(was, rid) + if rid in done then EventsFor(rid, prev, cur) else []
  }

  ghost predicate CachePruned(cache: map<Leaf, string>, was: map<Leaf, string>, prev: Snapshot, gone: set<string>) {
    forall l :: ValueAt(cache, l) ==
                if l.rid in gone && l.rid in prev && prev[l.rid].iface == l.iface then None else ValueAt(was, l)
  }

  lemma StStep(st: map<string, string>, prev: Snapshot, cur: Snapshot, done: set<string>, rid: string)
    requires StRefreshed(st, prev, cur, done) && rid in cur
    ensures StRefreshed(st[rid := AdjState(cur[rid].state)], prev, cur, done + {rid})
  {
    hide AdjState;
  }

  lemma StStart(prev: Snapshot, cur: Snapshot)
    ensures StRefreshed(States(prev), prev, cur, {})
  {
    hide AdjState;
  }

  /** The table before a neighbor is refreshed tells its event. */
  lemma TransitionIs(st: map<string, string>, prev: Snapshot, cur: Snapshot, done: set<string>, rid: string)
    requires StRefreshed(st, prev, cur, done) && rid in cur && rid !in done
    ensures EventsFor(rid, prev, cur) ==
            if rid in st && st[rid] != AdjState(cur[rid].state)
            then [Transition(rid, cur[rid].iface, st[rid], AdjState(cur[rid].state))] else []
  {
    hide AdjState;
  }

  lemma CacheStep(cache: map<Leaf, string>, was: map<Leaf, string>, cur: Snapshot, done: set<string>, rid: string)
    requires CacheRefreshed(cache, was, cur, done) && rid in cur
    ensures CacheRefreshed(WriteNbr(cache, rid, cur[rid]), was, cur, done + {rid})
  {
    hide AdjState;
    forall l ensures ValueAt(WriteNbr(cache, rid, cur[rid]), l) ==
                     if LeafValue(cur, l).Some? && l.rid in done + {rid} then LeafValue(cur, l) else ValueAt(was, l)
    {
      assert ValueAt(cache, l) ==
             if LeafValue(cur, l).Some? && l.rid in done then LeafValue(cur, l) else ValueAt(was, l);
    }
  }

  lemma AtMostOne(rid: string, prev: Snapshot, cur: Snapshot)
    ensures var es := EventsFor(rid, prev, cur); es == [] || (|es| == 1 && es[0].rid == rid)
  {
    hide AdjState;
  }

  lemma LogStep(log: seq<Event>, was: seq<Event>, prev: Snapshot, cur: Snapshot, done: set<string>, rid: string)
    requires LogHas(log, was, prev, cur, done) && rid !in done
    ensures LogHas(log + EventsFor(rid, prev, cur), was, prev, cur, done + {rid})
  {
    hide EventsFor, Project;
    var es := EventsFor(rid, prev, cur);
    AtMostOne(rid, prev, cur);
    forall r
      ensures Project(log + es, r) == Project(was, r) + if r in done + {rid} then EventsFor(r, prev, cur) else []
    {
      if es == [] {
        assert log + es == log;
      } else {
        ProjectAppend(log, es[0], r);
        assert log + es == log + [es[0]];
      }
    }
  }

  lemma PruneStep(cache: map<Leaf, string>, was: map<Leaf, string>, prev: Snapshot, gone: set<string>, rid: string)
    requires CachePruned(cache, was, prev, gone) && rid in prev
    ensures CachePruned(DeleteNbr(cache, rid, prev[rid].iface), was, prev, gone + {rid})
  {
    forall l ensures ValueAt(DeleteNbr(cache, rid, prev[rid].iface), l) ==
                     if l.rid in gone + {rid} && l.rid in prev && prev[l.rid].iface == l.iface then None
                     else ValueAt(was, l)
    {
      assert ValueAt(cache, l) ==
             if l.rid in gone && l.rid in prev && prev[l.rid].iface == l.iface then None else ValueAt(was, l);
    }
  }

  lemma LogDone(log: seq<Event>, snaps: seq<Snapshot>, was: seq<Event>, cur: Snapshot, done: set<string>)
    requires LogHas(log, was, Last(snaps), cur, done) && Last(snaps).Keys + cur.Keys <= done
    requires forall rid :: Project(was, rid) == LogFor(rid, snaps)
    ensures forall rid :: Project(log, rid) == LogFor(rid, snaps + [cur])
  {
    hide AdjState;
    assert (snaps + [cur])[..|snaps|] == snaps;
  }

  lemma StDone(st: map<string, string>, prev: Snapshot, cur: Snapshot)
    requires StRefreshed(st, prev, cur, cur.Keys)
    ensures st - (prev.Keys - cur.Keys) == States(cur)
  {
    hide AdjState;
  }

  lemma CacheDone(cache: map<Leaf, string>, mid: map<Leaf, string>, was: map<Leaf, string>, prev: Snapshot,
                  cur: Snapshot)
    requires CacheRefreshed(mid, was, cur, cur.Keys) && CachePruned(cache, mid, prev, prev.Keys - cur.Keys)
    ensures forall l :: ValueAt(cache, l) == Reconciled(was, prev, cur, l)
  {
    hide AdjState;
    forall l ensures ValueAt(cache, l) == Reconciled(was, prev, cur, l) {
      assert ValueAt(mid, l) ==
             if LeafValue(cur, l).Some? && l.rid in cur.Keys then LeafValue(cur, l) else ValueAt(was, l);
    }
  }

  // ---- the collector ----

  class Ospf {
    var seen: map<string, string>
    var st: map<string, string>
    var cache: map<Leaf, string>
    var log: seq<Event>
    ghost var snaps: seq<Snapshot>

    constructor ()
      ensures Valid() && snaps == [] && cache == map[] && log == []
    {
      seen, st, cache, log, snaps := map[], map[], map[], [], [];
      new;
      AgreesIff(cache, snaps);
    }

    /** `seen` and `st` mirror the last snapshot, the log is per neighbor what the history
        of snapshots calls for, and so is the cache leaf by leaf. It agrees with the last
        snapshot exactly when no neighbor's last stay on an interface ended in a move. */
    ghost predicate Valid()
      reads this
    {
      && seen == Ifaces(Last(snaps))
      && st == States(Last(snaps))
      && (forall rid :: Project(log, rid) == LogFor(rid, snaps))
      && (forall l :: ValueAt(cache, l) == Kept(snaps, l))
      && (Agrees(cache, Last(snaps)) <==> LeavesByDeparture(snaps))
    }

    /** `output` is None when the neighbor command fails. */
    method Reconcile(output: Option<Snapshot>)
      requires Valid()
      modifies this
      ensures Valid()
      ensures st.Keys == seen.Keys
      ensures snaps == if output.None? then old(snaps) else old(snaps) + [output.value]
      ensures output.None? ==> cache == old(cache) && log == old(log)
      ensures output.Some? ==>
                forall l :: ValueAt(cache, l) == Reconciled(old(cache), Last(old(snaps)), output.value, l)
    {
      hide AdjState, Project, LogFor, EventsFor, Agrees, LeafValue, CacheRefreshed, CachePruned, LogHas;
      hide Kept, LeavesByDeparture, Reconciled;
      if output.None? { return; }
      var cur := output.value;
      ghost var prev := Last(snaps);
      Refresh(cur);
      ghost var mid := cache;
      RemoveGone(cur, old(log));
      seen := Ifaces(cur);
      snaps := snaps + [cur];
      LogDone(log, old(snaps), old(log), cur, prev.Keys + cur.Keys);
      CacheDone(cache, mid, old(cache), prev, cur);
      forall l ensures ValueAt(cache, l) == Kept(snaps, l) { KeptSnoc(old(snaps), cur, old(cache), l); }
      AgreesIff(cache, snaps);
    }

    /** First loop: write the leaves of every neighbor present, emit its transition. */
    method Refresh(cur: Snapshot)
      requires st == States(Last(snaps))
      modifies this`cache, this`st, this`log
      ensures StRefreshed(st, Last(snaps), cur, cur.Keys)
      ensures CacheRefreshed(cache, old(cache), cur, cur.Keys)
      ensures LogHas(log, old(log), Last(snaps), cur, cur.Keys)
    {
      hide AdjState, Project, LeafValue, CacheRefreshed, LogHas, WriteNbr, EventsFor, StRefreshed, States;
      ghost var prev := Last(snaps);
      var todo := cur.Keys;
      ghost var done := {};
      StStart(prev, cur);
      LogStart(log, prev, cur);
      CacheStart(cache, cur);
      while todo != {}
        invariant todo <= cur.Keys && done == cur.Keys - todo
        invariant StRefreshed(st, prev, cur, done)
        invariant CacheRefreshed(cache, old(cache), cur, done)
        invariant LogHas(log, old(log), prev, cur, done)
        decreases todo
      {
        var rid :| rid in todo;
        todo := todo - {rid};
        var n := cur[rid];
        var s := AdjState(n.state);
        TransitionIs(st, prev, cur, done, rid);
        StStep(st, prev, cur, done, rid);
        CacheStep(cache, old(cache), cur, done, rid);
        LogStep(log, old(log), prev, cur, done, rid);
        cache := WriteNbr(cache, rid, n);
        if rid in st && st[rid] != s {
          log := log + [Transition(rid, n.iface, st[rid], s)];
        } else {
          assert log + [] == log;
        }
        st := st[rid := s];
        done := done + {rid};
      }
      assert done == cur.Keys;
    }

    /** Second loop: delete the subtree of every neighbor that is gone. */
    method RemoveGone(cur: Snapshot, ghost was: seq<Event>)
      requires seen == Ifaces(Last(snaps))
      requires StRefreshed(st, Last(snaps), cur, cur.Keys)
      requires LogHas(log, was, Last(snaps), cur, cur.Keys)
      modifies this`cache, this`st, this`log
      ensures st == States(cur)
      ensures CachePruned(cache, old(cache), Last(snaps), Last(snaps).Keys - cur.Keys)
      ensures LogHas(log, was, Last(snaps), cur, Last(snaps).Keys + cur.Keys)
    {
      hide AdjState, Project, CachePruned, LogHas, StRefreshed, States;
      ghost var prev := Last(snaps);
      var todo := seen.Keys;
      ghost var gone := {};
      PruneStart(cache, prev);
      assert cur.Keys + gone == cur.Keys && st == old(st) - gone;
      while todo != {}
        invariant todo <= seen.Keys && gone == prev.Keys - todo - cur.Keys
        invariant st == old(st) - gone
        invariant CachePruned(cache, old(cache), prev, gone)
        invariant LogHas(log, was, prev, cur, cur.Keys + gone)
        decreases todo
      {
        var rid :| rid in todo;
        todo := todo - {rid};
        if rid !in cur {
          var iface := seen[rid];
          PruneStep(cache, old(cache), prev, gone, rid);
          LogStep(log, was, prev, cur, cur.Keys + gone, rid);
          cache := DeleteNbr(cache, rid, iface);
          log := log + [Gone(rid, iface)];
          st := st - {rid};
          assert cur.Keys + gone + {rid} == cur.Keys + (gone + {rid});
          gone := gone + {rid};
        }
      }
      assert gone == prev.Keys - cur.Keys && cur.Keys + gone == prev.Keys + cur.Keys;
      StDone(old(st), prev, cur);
    }
  }

  lemma LogStart(log: seq<Event>, prev: Snapshot, cur: Snapshot)
    ensures LogHas(log, log, prev, cur, {})
  {
  }

  lemma CacheStart(cache: map<Leaf, string>, cur: Snapshot)
    ensures CacheRefreshed(cache, cache, cur, {})
  {
  }

  lemma PruneStart(cache: map<Leaf, string>, prev: Snapshot)
    ensures CachePruned(cache, cache, prev, {})
  {
  }
}
