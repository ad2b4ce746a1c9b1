/** The control-plane path walk: from a start node, follow IP routes and MPLS label
    operations over a fixed snapshot of every node's tables until the destination's
    owner holds the packet with an empty label stack. */
module PathTrace {
  import opened Options
  import opened RouteTable
  import opened Machines
  import Text

  datatype LfibUpdate = LfibUpdate(leaf: string, value: string)

  /** An LFIB entry; the empty string stands for an absent leaf. */
  datatype Lfib = Lfib(outLabel: string, nexthop: string, iface: string)

  /** What every `get` of one walk returns. */
  datatype Snapshot = Snapshot(
    lib: Inet,
    ip2node: map<string, string>,
    aft: map<string, seq<AftUpdate>>,
    lfib: map<string, map<string, seq<LfibUpdate>>>)
  {
    function Routes(node: string): seq<AftUpdate> {
      if node in aft then aft[node] else []
    }

    function LabelLeaves(node: string, lbl: string): seq<LfibUpdate> {
      if node in lfib && lbl in lfib[node] then lfib[node][lbl] else []
    }

    function NodeOf(ip: string): string {
      if ip in ip2node then ip2node[ip] else OFF_INVENTORY
    }

    /** Go's zero value for a missing key is the empty string. */
    function Owner(dst: string): string {
      if dst in ip2node then ip2node[dst] else ""
    }
  }

  const OFF_INVENTORY := "?"
  const MAX_STEPS: nat := 24

  datatype Kind =
    | Ip(vrf: string, prefix: string)
    | IpPush(vrf: string, prefix: string, labels: string)
    | Swap(top: string, out: string)
    | PopPhp(top: string)
    | PopVrf(top: string, vrf: string)
    | Dest
    | DropNoRoute
    | DropNoLfib(top: string)
    | DropOffInventory

  datatype Hop = Hop(index: nat, node: string, kind: Kind, nexthop: string)

  datatype Config = Config(node: string, stack: seq<string>)

  /** One forwarding step: what is recorded, and where the packet goes. */
  datatype Move = Move(kind: Kind, nexthop: string, next: Config)

  // ---- the forwarding machine ----

  function LastLeaf(ups: seq<LfibUpdate>, leaf: string): string {
    if ups == [] then ""
    else if ups[|ups| - 1].leaf == leaf then ups[|ups| - 1].value
    else LastLeaf(ups[..|ups| - 1], leaf)
  }

  function LfibOf(s: Snapshot, node: string, lbl: string): Lfib {
    var ups := s.LabelLeaves(node, lbl);
    Lfib(LastLeaf(ups, "out-label"), LastLeaf(ups, "next-hop"), LastLeaf(ups, "interface"))
  }

  function MplsMove(s: Snapshot, c: Config): Option<Move>
    requires c.stack != []
  {
    var top, rest := c.stack[0], c.stack[1..];
    var e := LfibOf(s, c.node, top);
    if e == Lfib("", "", "") then None
    else if e.outLabel != "" then
      Some(Move(Swap(top, e.outLabel), e.nexthop, Config(s.NodeOf(e.nexthop), Text.Split(e.outLabel, ',') + rest)))
    else if e.nexthop != "" then Some(Move(PopPhp(top), e.nexthop, Config(s.NodeOf(e.nexthop), rest)))
    else Some(Move(PopVrf(top, e.iface), "", Config(c.node, rest)))
  }

  function IpMove(s: Snapshot, r: Route): Move {
    if r.labels != "" then
      Move(IpPush(r.vrf, r.prefix, r.labels), r.nexthop, Config(s.NodeOf(r.nexthop), Text.Split(r.labels, ',')))
    else Move(Ip(r.vrf, r.prefix), r.nexthop, Config(s.NodeOf(r.nexthop), []))
  }

  ghost predicate Moves(s: Snapshot, dst: string, c: Config, m: Move) {
    if c.stack == [] then
      exists r :: IsAnswer(s.lib, s.Routes(c.node), dst, r) && r != NO_ROUTE && m == IpMove(s, r)
    else MplsMove(s, c) == Some(m)
  }

  predicate Arrived(s: Snapshot, dst: string, c: Config) {
    s.Owner(dst) == c.node && c.stack == []
  }

  /** The forwarding machine for packets to `dst`. */
  ghost function Forwarding(s: Snapshot, dst: string): Machine<Config, Move> {
    Machine.Machine(
      (c: Config, m: Move) => Moves(s, dst, c, m),
      (m: Move) => m.next,
      (c: Config) => c.node != OFF_INVENTORY,
      (c: Config) => Arrived(s, dst, c))
  }

  // ---- what a move means ----

  /** The node a next hop belongs to, "?" when it is in no inventory. */
  predicate GoesTo(s: Snapshot, ip: string, node: string) {
    node == if ip in s.ip2node then s.ip2node[ip] else "?"
  }

  /** The leaves published for a label at a node. */
  function LeavesAt(s: Snapshot, node: string, lbl: string): seq<LfibUpdate> {
    if node in s.lfib && lbl in s.lfib[node] then s.lfib[node][lbl] else []
  }

  /** A label operation, read off the leaves: an out-label swaps, a next hop alone pops before
      the egress, and neither pops into the VRF named as interface, on the same node. */
  lemma LabelMove(s: Snapshot, dst: string, c: Config, m: Move)
    requires c.stack != [] && Moves(s, dst, c, m)
    ensures var top, ups := c.stack[0], LeavesAt(s, c.node, c.stack[0]);
            var out, via, vrf := LastLeaf(ups, "out-label"), LastLeaf(ups, "next-hop"), LastLeaf(ups, "interface");
            && m.kind == (if out != "" then Swap(top, out) else if via != "" then PopPhp(top) else PopVrf(top, vrf))
            && m.nexthop == via
            && m.next.stack == (if out != "" then Text.Split(out, ',') else []) + c.stack[1..]
            && (out != "" || via != "" ==> GoesTo(s, via, m.next.node))
            && (out == "" && via == "" ==> vrf != "" && m.next.node == c.node)
  {
  }

  /** There is an operation exactly when one of the three leaves is there. */
  lemma LabelMoveIff(s: Snapshot, dst: string, c: Config)
    requires c.stack != []
    ensures var ups := LeavesAt(s, c.node, c.stack[0]);
            (exists m :: Moves(s, dst, c, m)) <==>
            LastLeaf(ups, "out-label") != "" || LastLeaf(ups, "next-hop") != "" || LastLeaf(ups, "interface") != ""
  {
    if MplsMove(s, c).Some? { assert Moves(s, dst, c, MplsMove(s, c).value); }
  }

  /** An IP hop, read off the answer of the lookup. */
  lemma IpHop(s: Snapshot, dst: string, c: Config, m: Move) returns (r: Route)
    requires c.stack == [] && Moves(s, dst, c, m)
    ensures IsAnswer(s.lib, if c.node in s.aft then s.aft[c.node] else [], dst, r) && r.prefix != ""
    ensures m.kind == if r.labels == "" then Ip(r.vrf, r.prefix) else IpPush(r.vrf, r.prefix, r.labels)
    ensures m.nexthop == r.nexthop && GoesTo(s, r.nexthop, m.next.node)
    ensures m.next.stack == if r.labels == "" then [] else Text.Split(r.labels, ',')
  {
    r :| IsAnswer(s.lib, s.Routes(c.node), dst, r) && r != NO_ROUTE && m == IpMove(s, r);
    NoRouteMeans(s.lib, s.Routes(c.node), dst, r);
  }

  /** There is an IP hop exactly when the lookup on the node's leaves answers with a route. */
  lemma IpHopIff(s: Snapshot, dst: string, c: Config)
    requires c.stack == []
    ensures var ups := if c.node in s.aft then s.aft[c.node] else [];
            (exists m :: Moves(s, dst, c, m)) <==> exists r :: IsAnswer(s.lib, ups, dst, r) && r.prefix != ""
  {
    var ups := if c.node in s.aft then s.aft[c.node] else [];
    if m :| Moves(s, dst, c, m) {
      var r := IpHop(s, dst, c, m);
    }
    if r :| IsAnswer(s.lib, ups, dst, r) && r.prefix != "" {
      assert Moves(s, dst, c, IpMove(s, r));
    }
  }

  /** A move leads to the owner of its next hop; only an egress pop stays on the node. */
  lemma MoveGoes(s: Snapshot, dst: string, c: Config, m: Move)
    requires Moves(s, dst, c, m)
    ensures if m.kind.PopVrf? then m.next.node == c.node else GoesTo(s, m.nexthop, m.next.node)
  {
    if c.stack == [] { var r := IpHop(s, dst, c, m); } else { LabelMove(s, dst, c, m); }
  }

  /** Lookups are unambiguous when no node's table names a network twice. */
  lemma CanonicalIsDeterministic(s: Snapshot, dst: string)
    requires forall node :: Canonical(s.lib, Table(s.Routes(node)))
    ensures Deterministic(Forwarding(s, dst))
  {
    forall c, m1, m2 | Moves(s, dst, c, m1) && Moves(s, dst, c, m2) ensures m1 == m2 {
      if c.stack == [] {
        var r1 :| IsAnswer(s.lib, s.Routes(c.node), dst, r1) && r1 != NO_ROUTE && m1 == IpMove(s, r1);
        var r2 :| IsAnswer(s.lib, s.Routes(c.node), dst, r2) && r2 != NO_ROUTE && m2 == IpMove(s, r2);
        LongestUnique(s.lib, s.Routes(c.node), dst, r1, r2);
      }
    }
  }

  // ---- the walk ----

  function HopsOf(cs: seq<Config>, ms: seq<Move>): seq<Hop>
    requires |cs| == |ms| + 1
  {
    seq(|ms|, i requires 0 <= i < |ms| => Hop(i + 1, cs[i].node, ms[i].kind, ms[i].nexthop))
  }

  /** A finished walk: the run it followed, up to the first arrival, the first unknown
      next hop, the first stuck configuration or the 24th step, and the hops reported. */
  ghost predicate WalkOf(s: Snapshot, start: string, dst: string, cs: seq<Config>, ms: seq<Move>,
                         hops: seq<Hop>, reached: bool)
  {
    var a, n := Forwarding(s, dst), |ms|;
    && IsRun(a, cs, ms) && cs[0] == Config(start, []) && FirstGoal(a, cs)
    && if reached then
         && n < MAX_STEPS && AllKnown(a, cs) && Arrived(s, dst, cs[n])
         && hops == HopsOf(cs, ms) + [Hop(n + 1, cs[n].node, Dest, "")]
       else
         || (n == MAX_STEPS && AllKnown(a, cs) && hops == HopsOf(cs, ms))
         || (0 < n <= MAX_STEPS && AllKnown(a, cs[..n]) && cs[n].node == OFF_INVENTORY
             && hops == HopsOf(cs, ms) + [Hop(n + 1, OFF_INVENTORY, DropOffInventory, "")])
         || (n < MAX_STEPS && AllKnown(a, cs) && !Arrived(s, dst, cs[n]) && Stuck(a, cs[n])
             && hops == HopsOf(cs, ms) +
                  [Hop(n + 1, cs[n].node, if cs[n].stack == [] then DropNoRoute else DropNoLfib(cs[n].stack[0]), "")])
  }

  method MplsLookup(ups: seq<LfibUpdate>) returns (e: Lfib)
    ensures e == Lfib(LastLeaf(ups, "out-label"), LastLeaf(ups, "next-hop"), LastLeaf(ups, "interface"))
  {
    e := Lfib("", "", "");
    for i := 0 to |ups|
      invariant e == Lfib(LastLeaf(ups[..i], "out-label"), LastLeaf(ups[..i], "next-hop"),
                          LastLeaf(ups[..i], "interface"))
    {
      assert ups[..i + 1][..i] == ups[..i];
      match ups[i].leaf {
        case "out-label" => e := e.(outLabel := ups[i].value);
        case "next-hop" => e := e.(nexthop := ups[i].value);
        case "interface" => e := e.(iface := ups[i].value);
        case _ =>
      }
    }
    assert ups[..|ups|] == ups;
  }

  lemma NoRouteIsStuck(s: Snapshot, dst: string, c: Config)
    requires c.stack == [] && IsAnswer(s.lib, s.Routes(c.node), dst, NO_ROUTE)
    ensures Stuck(Forwarding(s, dst), c)
  {
    forall m ensures !Moves(s, dst, c, m) {
      if Moves(s, dst, c, m) {
        var r :| IsAnswer(s.lib, s.Routes(c.node), dst, r) && r != NO_ROUTE && m == IpMove(s, r);
        NoRouteMeans(s.lib, s.Routes(c.node), dst, r);
        NoRouteMeans(s.lib, s.Routes(c.node), dst, NO_ROUTE);
      }
    }
  }

  /** One IP hop: the route is looked up, and its labels, if any, become the stack. */
  method IpPhase(s: Snapshot, node: string, dst: string) returns (m: Option<Move>)
    ensures m.None? ==> Stuck(Forwarding(s, dst), Config(node, []))
    ensures m.Some? ==> Moves(s, dst, Config(node, []), m.value)
  {
    var r := RouteLookup(s.lib, s.Routes(node), dst);
    NoRouteMeans(s.lib, s.Routes(node), dst, r);
    if r.nexthop == "" && r.labels == "" && r.prefix == "" {
      NoRouteIsStuck(s, dst, Config(node, []));
      return None;
    }
    var stack, kind := [], Ip(r.vrf, r.prefix);
    if r.labels != "" {
      stack := Text.Split(r.labels, ',');
      kind := IpPush(r.vrf, r.prefix, r.labels);
    }
    m := Some(Move(kind, r.nexthop, Config(s.NodeOf(r.nexthop), stack)));
    assert m.value == IpMove(s, r);
  }

  /** One label operation: swap, penultimate-hop pop, or egress pop into a VRF. */
  method MplsPhase(s: Snapshot, node: string, stack: seq<string>) returns (m: Option<Move>)
    requires stack != []
    ensures m == MplsMove(s, Config(node, stack))
  {
    var top, rest := stack[0], stack[1..];
    var e := MplsLookup(s.LabelLeaves(node, top));
    if e.outLabel == "" && e.nexthop == "" && e.iface == "" {
      return None;
    }
    if e.outLabel != "" {
      var newTop := Text.Split(e.outLabel, ',');
      m := Some(Move(Swap(top, e.outLabel), e.nexthop, Config(s.NodeOf(e.nexthop), newTop + rest)));
    } else if e.nexthop != "" {
      m := Some(Move(PopPhp(top), e.nexthop, Config(s.NodeOf(e.nexthop), rest)));
    } else {
      m := Some(Move(PopVrf(top, e.iface), "", Config(node, rest)));
    }
  }

  /** Each hop is at the owner of the previous hop's next hop, or where an egress pop left it. */
  ghost predicate Linked(s: Snapshot, start: string, hops: seq<Hop>) {
    && hops != [] && hops[0].node == start
    && forall i :: 0 < i < |hops| ==>
         if hops[i - 1].kind.PopVrf? then hops[i].node == hops[i - 1].node
         else GoesTo(s, hops[i - 1].nexthop, hops[i].node)
  }

  lemma WalkIsLinked(s: Snapshot, start: string, dst: string, cs: seq<Config>, ms: seq<Move>,
                     hops: seq<Hop>, reached: bool)
    requires WalkOf(s, start, dst, cs, ms, hops, reached)
    ensures Linked(s, start, hops)
  {
    hide Moves, GoesTo;
    forall i | 0 < i <= |ms|
      ensures if ms[i - 1].kind.PopVrf? then cs[i].node == cs[i - 1].node else GoesTo(s, ms[i - 1].nexthop, cs[i].node)
    {
      assert Forwarding(s, dst).moves(cs[i - 1], ms[i - 1]) && ms[i - 1].next == cs[i];
      MoveGoes(s, dst, cs[i - 1], ms[i - 1]);
    }
  }

  /** Where a reached walk ends: at the owner of the destination. */
  predicate EndsAtOwner(s: Snapshot, dst: string, hops: seq<Hop>) {
    && hops != [] && hops[|hops| - 1].kind.Dest?
    && hops[|hops| - 1].node == if dst in s.ip2node then s.ip2node[dst] else ""
  }

  /** Every walk numbers its hops 1, 2, ... and reports at most 25 of them. */
  lemma HopsNumbered(s: Snapshot, start: string, dst: string, cs: seq<Config>, ms: seq<Move>,
                     hops: seq<Hop>, reached: bool)
    requires WalkOf(s, start, dst, cs, ms, hops, reached)
    ensures 0 < |hops| <= 25
    ensures forall i :: 0 <= i < |hops| ==> hops[i].index == i + 1
  {
    hide Moves;
  }

  /** With unambiguous lookups a walk reports "reached" exactly when the machine gets to
      the destination within 23 steps; a destination 24 steps away is not found. */
  lemma ReachedIff(s: Snapshot, start: string, dst: string, cs: seq<Config>, ms: seq<Move>,
                   hops: seq<Hop>, reached: bool)
    requires WalkOf(s, start, dst, cs, ms, hops, reached) && Deterministic(Forwarding(s, dst))
    ensures reached <==> exists n: nat :: n <= 23 && ReachesIn(Forwarding(s, dst), Config(start, []), n)
  {
    hide Moves;
    var a := Forwarding(s, dst);
    if reached {
      RunThenReach(a, cs, ms, 0);
      assert ReachesIn(a, Config(start, []), |ms|);
    } else {
      forall n: nat | n < MAX_STEPS ensures !ReachesIn(a, Config(start, []), n) {
        EndedShort(a, cs, ms, n, MAX_STEPS);
      }
    }
  }

  /** The path walk: its hops are those of some walk, each at the owner of the one before's next
      hop, and with unambiguous lookups it says "reached" exactly when the destination is at
      most 23 steps away. */
  method Trace(s: Snapshot, start: string, dst: string) returns (hops: seq<Hop>, reached: bool)
    ensures exists cs, ms :: WalkOf(s, start, dst, cs, ms, hops, reached)
    ensures Deterministic(Forwarding(s, dst)) ==>
              (reached <==> exists n: nat :: n <= 23 && ReachesIn(Forwarding(s, dst), Config(start, []), n))
    ensures Linked(s, start, hops) && (reached ==> EndsAtOwner(s, dst, hops))
  {
    ghost var cs, ms;
    hops, reached, cs, ms := Walk(s, start, dst);
    WalkIsLinked(s, start, dst, cs, ms, hops, reached);
    assert reached ==> EndsAtOwner(s, dst, hops) by { hide Linked, Forwarding; }
    hide WalkOf, Linked;
    if Deterministic(Forwarding(s, dst)) {
      ReachedIff(s, start, dst, cs, ms, hops, reached);
    }
  }

  /** The state of a walk that has not finished: the run so far and its hops. */
  ghost predicate Underway(s: Snapshot, start: string, dst: string, cs: seq<Config>, ms: seq<Move>, hops: seq<Hop>) {
    && IsRun(Forwarding(s, dst), cs, ms) && cs[0] == Config(start, [])
    && FirstGoal(Forwarding(s, dst), cs) && AllKnown(Forwarding(s, dst), cs)
    && hops == HopsOf(cs, ms)
  }

  lemma UnderwayGrows(s: Snapshot, start: string, dst: string, cs: seq<Config>, ms: seq<Move>, hops: seq<Hop>, m: Move)
    requires Underway(s, start, dst, cs, ms, hops) && !Arrived(s, dst, cs[|ms|])
    requires Forwarding(s, dst).moves(cs[|ms|], m)
    ensures var cs', ms', hops' := cs + [m.next], ms + [m], hops + [Hop(|ms| + 1, cs[|ms|].node, m.kind, m.nexthop)];
            && IsRun(Forwarding(s, dst), cs', ms') && FirstGoal(Forwarding(s, dst), cs')
            && hops' == HopsOf(cs', ms')
            && AllKnown(Forwarding(s, dst), cs'[..|ms'|])
            && (m.next.node != OFF_INVENTORY ==> Underway(s, start, dst, cs', ms', hops'))
  {
    hide Moves;
    RunGrows(Forwarding(s, dst), cs, ms, m);
    assert (cs + [m.next])[..|ms| + 1] == cs;
  }

  method Walk(s: Snapshot, start: string, dst: string)
    returns (hops: seq<Hop>, reached: bool, ghost cs: seq<Config>, ghost ms: seq<Move>)
    ensures WalkOf(s, start, dst, cs, ms, hops, reached)
  {
    hide Moves;
    hops := [];
    var node, stack, n := start, [], 1;
    cs, ms := [Config(node, stack)], [];
    for i := 0 to MAX_STEPS
      invariant |ms| == i && |cs| == i + 1 && n == i + 1 && cs[i] == Config(node, stack)
      invariant Underway(s, start, dst, cs, ms, hops)
    {
      if s.Owner(dst) == node && stack == [] {
        hops := hops + [Hop(n, node, Dest, "")];
        return hops, true, cs, ms;
      }
      var m := NextMove(s, node, stack, dst);
      if m.None? {
        hops := hops + [Hop(n, node, if stack == [] then DropNoRoute else DropNoLfib(stack[0]), "")];
        return hops, false, cs, ms;
      }
      UnderwayGrows(s, start, dst, cs, ms, hops, m.value);
      hops := hops + [Hop(n, node, m.value.kind, m.value.nexthop)];
      cs, ms := cs + [m.value.next], ms + [m.value];
      n := n + 1;
      node, stack := m.value.next.node, m.value.next.stack;
      if node == OFF_INVENTORY {
        hops := hops + [Hop(n, OFF_INVENTORY, DropOffInventory, "")];
        return hops, false, cs, ms;
      }
    }
    return hops, false, cs, ms;
  }

  /** The IP phase while the stack is empty, the MPLS phase otherwise. */
  method NextMove(s: Snapshot, node: string, stack: seq<string>, dst: string) returns (m: Option<Move>)
    ensures m.None? ==> Stuck(Forwarding(s, dst), Config(node, stack))
    ensures m.Some? ==> Forwarding(s, dst).moves(Config(node, stack), m.value)
  {
    if stack == [] {
      m := IpPhase(s, node, dst);
    } else {
      m := MplsPhase(s, node, stack);
    }
  }

  // ---- what a reached walk shows ----

  /** A walk that reports "reached" visits no (node, stack) twice. */
  lemma LoopFree(s: Snapshot, start: string, dst: string, cs: seq<Config>, ms: seq<Move>, hops: seq<Hop>,
                 i: nat, j: nat)
    requires WalkOf(s, start, dst, cs, ms, hops, true) && Deterministic(Forwarding(s, dst))
    requires i < j <= |ms|
    ensures cs[i] != cs[j]
  {
    hide Moves;
    NoRepeat(Forwarding(s, dst), cs, ms, i, j);
  }

  /** The label operation a hop records, replayed on a stack. */
  function Replay(stack: seq<string>, k: Kind): Option<seq<string>> {
    match k
    case Ip(_, _) => if stack == [] then Some([]) else None
    case IpPush(_, _, labels) => if stack == [] then Some(Text.Split(labels, ',')) else None
    case Swap(top, out) => if stack != [] && stack[0] == top then Some(Text.Split(out, ',') + stack[1..]) else None
    case PopPhp(top) => if stack != [] && stack[0] == top then Some(stack[1..]) else None
    case PopVrf(top, _) => if stack != [] && stack[0] == top then Some(stack[1..]) else None
    case Dest => if stack == [] then Some([]) else None
    case _ => None
  }

  function ReplayAll(stack: seq<string>, hops: seq<Hop>): Option<seq<string>>
    decreases hops
  {
    if hops == [] then Some(stack)
    else
      match Replay(stack, hops[0].kind)
      case None => None
      case Some(t) => ReplayAll(t, hops[1..])
  }

  /** Labels a hop adds to the stack, net; and labels it removes. */
  function Added(k: Kind): int {
    match k
    case IpPush(_, _, labels) => |Text.Split(labels, ',')|
    case Swap(_, out) => |Text.Split(out, ',')| - 1
    case _ => 0
  }

  function Removed(k: Kind): nat {
    if k.PopPhp? || k.PopVrf? then 1 else 0
  }

  function SumAdded(hops: seq<Hop>): int {
    if hops == [] then 0 else Added(hops[0].kind) + SumAdded(hops[1..])
  }

  function SumRemoved(hops: seq<Hop>): nat {
    if hops == [] then 0 else Removed(hops[0].kind) + SumRemoved(hops[1..])
  }

  lemma {:induction false} LabelBalance(stack: seq<string>, hops: seq<Hop>)
    requires ReplayAll(stack, hops).Some?
    ensures |stack| + SumAdded(hops) - SumRemoved(hops) == |ReplayAll(stack, hops).value|
    decreases hops
  {
    if hops != [] {
      LabelBalance(Replay(stack, hops[0].kind).value, hops[1..]);
    }
  }

  /** A move's recorded operation does to the stack what the move did. */
  lemma MoveReplays(s: Snapshot, dst: string, c: Config, m: Move)
    requires Forwarding(s, dst).moves(c, m)
    ensures Replay(c.stack, m.kind) == Some(m.next.stack)
  {
  }

  lemma {:induction false} RunReplays(s: Snapshot, dst: string, cs: seq<Config>, ms: seq<Move>, tail: seq<Hop>, n: nat)
    requires IsRun(Forwarding(s, dst), cs, ms) && n <= |ms|
    ensures ReplayAll(cs[n].stack, HopsOf(cs, ms)[n..] + tail) == ReplayAll(cs[|ms|].stack, tail)
    decreases |ms| - n
  {
    hide Moves, Replay;
    var hs := HopsOf(cs, ms);
    if n == |ms| {
      assert hs[n..] + tail == tail;
    } else {
      RunReplays(s, dst, cs, ms, tail, n + 1);
      assert Forwarding(s, dst).moves(cs[n], ms[n]) && ms[n].next == cs[n + 1];
      MoveReplays(s, dst, cs[n], ms[n]);
      assert (hs[n..] + tail)[1..] == hs[n + 1..] + tail;
      assert (hs[n..] + tail)[0] == hs[n];
    }
  }

  /** Replaying the hops of a reached walk from the empty stack ends empty: every label
      pushed, or gained by a swap, is popped. */
  lemma ReachedConservesLabels(s: Snapshot, start: string, dst: string, cs: seq<Config>, ms: seq<Move>,
                               hops: seq<Hop>)
    requires WalkOf(s, start, dst, cs, ms, hops, true)
    ensures ReplayAll([], hops) == Some([])
    ensures SumAdded(hops) == SumRemoved(hops)
  {
    hide Moves;
    var tail := [Hop(|ms| + 1, cs[|ms|].node, Dest, "")];
    RunReplays(s, dst, cs, ms, tail, 0);
    assert HopsOf(cs, ms)[0..] == HopsOf(cs, ms);
    assert tail[1..] == [];
    LabelBalance([], hops);
  }

  // ---- tunnels ----

  function Lift(c: Config, rest: seq<string>): Config {
    c.(stack := c.stack + rest)
  }

  function LiftMove(m: Move, rest: seq<string>): Move {
    m.(next := Lift(m.next, rest))
  }

  function LiftAll(cs: seq<Config>, rest: seq<string>): (r: seq<Config>)
    ensures |r| == |cs| && forall i :: 0 <= i < |cs| ==> r[i] == Lift(cs[i], rest)
  {
    seq(|cs|, i requires 0 <= i < |cs| => Lift(cs[i], rest))
  }

  function LiftMoves(ms: seq<Move>, rest: seq<string>): (r: seq<Move>)
    ensures |r| == |ms| && forall i :: 0 <= i < |ms| ==> r[i] == LiftMove(ms[i], rest)
  {
    seq(|ms|, i requires 0 <= i < |ms| => LiftMove(ms[i], rest))
  }

  /** A run of MPLS steps that may empty the stack only at its end. */
  ghost predicate IsTunnel(s: Snapshot, dst: string, cs: seq<Config>, ms: seq<Move>) {
    IsRun(Forwarding(s, dst), cs, ms) && forall i :: 0 <= i < |ms| ==> cs[i].stack != []
  }

  lemma MoveIgnoresRest(s: Snapshot, c: Config, rest: seq<string>)
    requires c.stack != []
    ensures MplsMove(s, Lift(c, rest)) ==
            match MplsMove(s, c) case None => None case Some(m) => Some(LiftMove(m, rest))
  {
    assert (c.stack + rest)[1..] == c.stack[1..] + rest;
    var e := LfibOf(s, c.node, c.stack[0]);
    assert Text.Split(e.outLabel, ',') + (c.stack[1..] + rest) == Text.Split(e.outLabel, ',') + c.stack[1..] + rest;
  }

  /** A tunnel never looks below its own labels: from the same node with `rest` beneath,
      and for any destination, the machine makes the same moves and leaves `rest` untouched. */
  lemma TunnelOpacity(s: Snapshot, dst: string, dst': string, cs: seq<Config>, ms: seq<Move>, rest: seq<string>)
    requires IsTunnel(s, dst, cs, ms)
    ensures IsTunnel(s, dst', LiftAll(cs, rest), LiftMoves(ms, rest))
  {
    forall i | 0 <= i < |ms|
      ensures Moves(s, dst', LiftAll(cs, rest)[i], LiftMoves(ms, rest)[i])
    {
      assert Moves(s, dst, cs[i], ms[i]);
      MoveIgnoresRest(s, cs[i], rest);
    }
  }

  /** And that is the only thing it can do: any run from there follows the lifted tunnel. */
  lemma {:induction false} TunnelForced(s: Snapshot, dst: string, cs: seq<Config>, ms: seq<Move>, rest: seq<string>,
                                        ds: seq<Config>, ns: seq<Move>, i: nat)
    requires IsTunnel(s, dst, cs, ms)
    requires IsRun(Forwarding(s, dst), ds, ns) && ds[0] == Lift(cs[0], rest)
    requires i <= |ms| && i <= |ns|
    ensures ds[i] == Lift(cs[i], rest)
  {
    if i > 0 {
      TunnelForced(s, dst, cs, ms, rest, ds, ns, i - 1);
      assert Moves(s, dst, cs[i - 1], ms[i - 1]) && Moves(s, dst, ds[i - 1], ns[i - 1]);
      MoveIgnoresRest(s, cs[i - 1], rest);
    }
  }

  lemma LiftedRun(s: Snapshot, dst: string, cs: seq<Config>, ms: seq<Move>, rest: seq<string>)
    requires IsTunnel(s, dst, cs, ms) && AllKnown(Forwarding(s, dst), cs)
    ensures IsRun(Forwarding(s, dst), LiftAll(cs, rest), LiftMoves(ms, rest))
    ensures AllKnown(Forwarding(s, dst), LiftAll(cs, rest))
  {
    TunnelOpacity(s, dst, dst, cs, ms, rest);
  }

  lemma ForwardingNext(s: Snapshot, dst: string, m: Move)
    ensures Forwarding(s, dst).next(m) == m.next
    ensures Forwarding(s, dst).known(m.next) <==> m.next.node != OFF_INVENTORY
  {
  }

  /** End-to-end L3VPN: the ingress move pushes a transport label over the VPN labels
      `inner`, a transport LSP of any length carries it to the egress, and from there the
      VPN labels lead to the destination in `n` steps; the whole path is then one run of
      1 + |lsp| + n steps. */
  lemma TunnelDelivers(s: Snapshot, start: string, dst: string, ingress: Move, inner: seq<string>,
                       cs: seq<Config>, ms: seq<Move>, n: nat)
    requires Forwarding(s, dst).moves(Config(start, []), ingress)
    requires IsTunnel(s, dst, cs, ms) && AllKnown(Forwarding(s, dst), cs) && cs[|ms|].stack == []
    requires ingress.next == Lift(cs[0], inner) && cs[0].node != OFF_INVENTORY
    requires ReachesIn(Forwarding(s, dst), Config(cs[|ms|].node, inner), n)
    ensures ReachesIn(Forwarding(s, dst), Config(start, []), 1 + |ms| + n)
  {
    hide Forwarding, ReachesIn, AllKnown;
    LiftedRun(s, dst, cs, ms, inner);
    ForwardingNext(s, dst, ingress);
    var ds := LiftAll(cs, inner);
    assert [] + inner == inner;
    assert ds[0] == Lift(cs[0], inner) && ds[|ms|] == Config(cs[|ms|].node, inner);
    StepRunReach(Forwarding(s, dst), Config(start, []), ingress, ds, LiftMoves(ms, inner), n);
  }
}
