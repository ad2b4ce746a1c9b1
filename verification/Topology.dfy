/** The topology exporter's edge merge: each link is observed from both ends, in an order
    set by Go's map iteration; the merged edges should not depend on that order. */
module Topology {
  import opened Permutations
  import Text

  datatype Layer = Physical | Ospf | Bgp | Mpls

  function LayerName(l: Layer): string {
    match l
    case Physical => "physical"
    case Ospf => "ospf"
    case Bgp => "bgp"
    case Mpls => "mpls"
  }

  const VLAN := "vlan"

  /** One call of addEdge (between inventory nodes) or addPseudo (VLAN and MAC nodes). */
  datatype Obs =
    | Fabric(layer: Layer, a: string, b: string, detail: string)
    | Pseudo(a: string, b: string, detail: string)
  {
    function LayerText(): string {
      if Fabric? then LayerName(layer) else VLAN
    }

    function Flip(): Obs {
      if Fabric? then Fabric(layer, b, a, detail) else Pseudo(b, a, detail)
    }
  }

  datatype Edge = Edge(layer: string, src: string, dst: string, detail: string)

  function KeyOf(layer: string, x: string, y: string): string {
    layer + "|" + x + "|" + y
  }

  /** An edge that a later observation of the same pair may replace. */
  predicate Soft(e: Edge) {
    e.layer != VLAN && Text.HasSuffix(e.detail, "=default")
  }

  /** Observations that yield an edge. */
  predicate Accepted(inv: set<string>, o: Obs) {
    o.a != o.b && if o.Fabric? then o.a in inv && o.b in inv else o.a != "" && o.b != ""
  }

  /** The edge of an accepted observation: end points in order. */
  function EdgeOf(o: Obs): Edge {
    if Text.Less(o.b, o.a) then Edge(o.LayerText(), o.b, o.a, o.detail) else Edge(o.LayerText(), o.a, o.b, o.detail)
  }

  function KeyFor(e: Edge): string {
    KeyOf(e.layer, e.src, e.dst)
  }

  // ---- the merge ----

  function Put(m: map<string, Edge>, e: Edge): map<string, Edge> {
    if KeyFor(e) in m && !Soft(m[KeyFor(e)]) then m else m[KeyFor(e) := e]
  }

  function Merge(inv: set<string>, obs: seq<Obs>): map<string, Edge> {
    if obs == [] then map[]
    else
      var m, o := Merge(inv, obs[..|obs| - 1]), obs[|obs| - 1];
      if Accepted(inv, o) then Put(m, EdgeOf(o)) else m
  }

  /** `e` is the edge of some accepted observation. */
  ghost predicate Seen(inv: set<string>, obs: seq<Obs>, e: Edge) {
    exists o :: o in obs && Accepted(inv, o) && EdgeOf(o) == e
  }

  /** What the merge keeps: an observed edge, and a replaceable one only when nothing
      more specific was observed for that pair. */
  lemma {:induction false} MergeKeeps(inv: set<string>, obs: seq<Obs>)
    ensures forall k :: k in Merge(inv, obs) ==> Seen(inv, obs, Merge(inv, obs)[k]) && KeyFor(Merge(inv, obs)[k]) == k
    ensures forall e :: Seen(inv, obs, e) ==>
              KeyFor(e) in Merge(inv, obs) && (Soft(Merge(inv, obs)[KeyFor(e)]) ==> Soft(e))
  {
    hide Soft, EdgeOf, KeyFor, Accepted;
    if obs != [] {
      var init, o := obs[..|obs| - 1], obs[|obs| - 1];
      MergeKeeps(inv, init);
      assert obs == init + [o];
      forall e ensures Seen(inv, obs, e) <==> Seen(inv, init, e) || (Accepted(inv, o) && EdgeOf(o) == e) {
        SeenSnoc(inv, init, o, e);
      }
    }
  }

  lemma SeenSnoc(inv: set<string>, init: seq<Obs>, o: Obs, e: Edge)
    ensures Seen(inv, init + [o], e) <==> Seen(inv, init, e) || (Accepted(inv, o) && EdgeOf(o) == e)
  {
    hide EdgeOf, Accepted;
    var obs := init + [o];
    assert o in obs && forall p :: p in init ==> p in obs;
  }

  /** For each pair: at most one distinct specific edge, and if there is none, at most
      one distinct edge. */
  ghost predicate Settled(inv: set<string>, obs: seq<Obs>) {
    forall d, e :: Seen(inv, obs, d) && Seen(inv, obs, e) && KeyFor(d) == KeyFor(e) && d != e ==>
      || Soft(d) != Soft(e)
      || (Soft(d) && exists h :: Seen(inv, obs, h) && KeyFor(h) == KeyFor(d) && !Soft(h))
  }

  ghost predicate SameSeen(inv: set<string>, obs: seq<Obs>, obs': seq<Obs>) {
    forall e :: Seen(inv, obs, e) <==> Seen(inv, obs', e)
  }

  /** A settled set of observations merges to one edge map, whatever their order and
      however often each is repeated. */
  lemma SettledMerges(inv: set<string>, obs: seq<Obs>, obs': seq<Obs>)
    requires Settled(inv, obs) && SameSeen(inv, obs, obs')
    ensures Merge(inv, obs) == Merge(inv, obs')
  {
    hide Merge, Seen, Soft, KeyFor;
    var m, m' := Merge(inv, obs), Merge(inv, obs');
    MergeKeeps(inv, obs);
    MergeKeeps(inv, obs');
    forall k | k in m ensures k in m' && m[k] == m'[k] {
      assert Seen(inv, obs, m[k]) && Seen(inv, obs', m[k]);
      assert Seen(inv, obs', m'[k]) && Seen(inv, obs, m'[k]);
    }
    forall k | k in m' ensures k in m {
      assert Seen(inv, obs', m'[k]);
    }
  }

  // ---- necessity ----

  lemma {:induction false} FirstWins(inv: set<string>, o: Obs, rest: seq<Obs>)
    requires Accepted(inv, o) && !Soft(EdgeOf(o))
    ensures var m := Merge(inv, [o] + rest); KeyFor(EdgeOf(o)) in m && m[KeyFor(EdgeOf(o))] == EdgeOf(o)
  {
    hide Soft, EdgeOf, KeyFor, Accepted;
    var obs := [o] + rest;
    if rest == [] {
      assert obs[..0] == [];
    } else {
      assert obs[..|obs| - 1] == [o] + rest[..|rest| - 1];
      FirstWins(inv, o, rest[..|rest| - 1]);
    }
  }

  lemma LastWins(inv: set<string>, rest: seq<Obs>, o: Obs)
    requires Accepted(inv, o)
    requires forall e :: Seen(inv, rest, e) && KeyFor(e) == KeyFor(EdgeOf(o)) ==> Soft(e)
    ensures var m := Merge(inv, rest + [o]); KeyFor(EdgeOf(o)) in m && m[KeyFor(EdgeOf(o))] == EdgeOf(o)
  {
    hide Soft, EdgeOf, KeyFor, Accepted, Seen;
    assert (rest + [o])[..|rest|] == rest;
    MergeKeeps(inv, rest);
  }

  lemma PermutesSeen(inv: set<string>, obs: seq<Obs>, obs': seq<Obs>)
    requires Permutes(obs, obs')
    ensures SameSeen(inv, obs, obs')
  {
    PermutesMembers(obs, obs');
  }

  /** An order of the observations under which `d`'s pair merges to `d`. */
  lemma Favour(inv: set<string>, obs: seq<Obs>, d: Edge) returns (obs': seq<Obs>)
    requires Seen(inv, obs, d)
    requires !Soft(d) || forall e :: Seen(inv, obs, e) && KeyFor(e) == KeyFor(d) ==> Soft(e)
    ensures Permutes(obs, obs') && KeyFor(d) in Merge(inv, obs') && Merge(inv, obs')[KeyFor(d)] == d
  {
    hide Soft, EdgeOf, KeyFor, Accepted, Merge;
    var o :| o in obs && Accepted(inv, o) && EdgeOf(o) == d;
    var i, rest := TakeOut(obs, o);
    TakenOutCount(obs, i, o, rest);
    if Soft(d) {
      assert forall e :: Seen(inv, rest, e) ==> Seen(inv, obs, e);
      LastWins(inv, rest, o);
      obs' := rest + [o];
    } else {
      FirstWins(inv, o, rest);
      obs' := [o] + rest;
    }
  }

  /** The merge is independent of the order of observations exactly when they are settled. */
  lemma MergeOrderIndependence(inv: set<string>, obs: seq<Obs>)
    ensures (forall obs' | Permutes(obs, obs') :: Merge(inv, obs') == Merge(inv, obs)) <==> Settled(inv, obs)
  {
    hide Merge, Seen, Soft, KeyFor;
    if Settled(inv, obs) {
      forall obs' | Permutes(obs, obs') ensures Merge(inv, obs') == Merge(inv, obs) {
        PermutesSeen(inv, obs, obs');
        SettledMerges(inv, obs, obs');
      }
    } else {
      var d, e :| Seen(inv, obs, d) && Seen(inv, obs, e) && KeyFor(d) == KeyFor(e) && d != e &&
        Soft(d) == Soft(e) && !(Soft(d) && exists h :: Seen(inv, obs, h) && KeyFor(h) == KeyFor(d) && !Soft(h));
      var ds := Favour(inv, obs, d);
      var es := Favour(inv, obs, e);
      assert Merge(inv, ds) != Merge(inv, es);
    }
  }

  // ---- either end may report a link ----

  lemma FlipSameEdge(inv: set<string>, o: Obs)
    ensures Accepted(inv, o.Flip()) <==> Accepted(inv, o)
    ensures Accepted(inv, o) ==> EdgeOf(o.Flip()) == EdgeOf(o)
  {
    Text.LessTotal(o.a, o.b);
  }

  /** Some of the links reported from their other end. */
  ghost predicate Flipped(obs: seq<Obs>, obs': seq<Obs>) {
    |obs| == |obs'| && forall i :: 0 <= i < |obs| ==> obs'[i] == obs[i] || obs'[i] == obs[i].Flip()
  }

  /** Reporting any of the links from the other end changes nothing. */
  lemma {:induction false} FlipInvariant(inv: set<string>, obs: seq<Obs>, obs': seq<Obs>)
    requires Flipped(obs, obs')
    ensures Merge(inv, obs) == Merge(inv, obs')
  {
    if obs != [] {
      hide EdgeOf, Put, Accepted;
      var n := |obs| - 1;
      FlipInvariant(inv, obs[..n], obs'[..n]);
      FlipSameEdge(inv, obs[n]);
    }
  }

  /** Settled observations, in any order and from either end, merge to one map. */
  lemma EitherEndAnyOrder(inv: set<string>, obs: seq<Obs>, obs': seq<Obs>, obs'': seq<Obs>)
    requires Settled(inv, obs) && Permutes(obs, obs') && Flipped(obs', obs'')
    ensures Merge(inv, obs) == Merge(inv, obs'')
  {
    hide *;
    MergeOrderIndependence(inv, obs);
    FlipInvariant(inv, obs', obs'');
  }

  /** Two instances between one pair of routers: the first session seen names the edge. */
  lemma OrderMattersExample()
    ensures var inv, u, v := {"pe1", "ce1"}, Fabric(Bgp, "pe1", "ce1", "vrf=a"), Fabric(Bgp, "ce1", "pe1", "vrf=b");
            Merge(inv, [u, v]) != Merge(inv, [v, u])
  {
    var inv, u, v := {"pe1", "ce1"}, Fabric(Bgp, "pe1", "ce1", "vrf=a"), Fabric(Bgp, "ce1", "pe1", "vrf=b");
    FirstWins(inv, u, [v]);
    FirstWins(inv, v, [u]);
    assert [u] + [v] == [u, v] && [v] + [u] == [v, u];
  }

  /** Names without '|' make the key a faithful name of (layer, pair), so that settled
      observations differ in nothing but the detail. */
  lemma KeyFaithful(d: Edge, e: Edge)
    requires '|' !in d.layer && '|' !in d.src && '|' !in e.layer && '|' !in e.src
    requires KeyFor(d) == KeyFor(e)
    ensures d == e.(detail := d.detail)
  {
    assert KeyFor(d) == d.layer + ['|'] + (d.src + "|" + d.dst);
    assert KeyFor(e) == e.layer + ['|'] + (e.src + "|" + e.dst);
    Text.CutUnique(d.layer, d.src + "|" + d.dst, e.layer, e.src + "|" + e.dst, '|');
    Text.CutUnique(d.src, d.dst, e.src, e.dst, '|');
  }

  /** What one observation yields: an edge under its layer's name, from the smaller to the larger
      name, when both ends are known; a VLAN or MAC link needs two names. */
  lemma OneEdge(inv: set<string>, layer: Layer, a: string, b: string, detail: string)
    ensures var name := match layer
                        case Physical => "physical"
                        case Ospf => "ospf"
                        case Bgp => "bgp"
                        case Mpls => "mpls";
            Merge(inv, [Fabric(layer, a, b, detail)]) ==
            if a !in inv || b !in inv || a == b then map[]
            else if Text.Less(a, b) then map[name + "|" + a + "|" + b := Edge(name, a, b, detail)]
            else map[name + "|" + b + "|" + a := Edge(name, b, a, detail)]
    ensures Merge(inv, [Pseudo(a, b, detail)]) ==
            if a == "" || b == "" || a == b then map[]
            else if Text.Less(a, b) then map["vlan|" + a + "|" + b := Edge("vlan", a, b, detail)]
            else map["vlan|" + b + "|" + a := Edge("vlan", b, a, detail)]
  {
    hide Text.Less, Soft;
    Text.LessTotal(a, b);
    assert [Fabric(layer, a, b, detail)][..0] == [] && [Pseudo(a, b, detail)][..0] == [];
    assert Merge(inv, []) == map[];
    assert "vlan" + "|" + a + "|" + b == "vlan|" + a + "|" + b && "vlan" + "|" + b + "|" + a == "vlan|" + b + "|" + a;
  }

  /** A detail that ends in "=default" yields to any other one, whichever comes first. */
  lemma DefaultYields(inv: set<string>, layer: Layer, a: string, b: string, p: string, detail: string)
    requires a in inv && b in inv && a != b
    requires forall q :: detail != q + "=default"
    ensures var u, v := Fabric(layer, a, b, p + "=default"), Fabric(layer, a, b, detail);
            Merge(inv, [u, v]) == Merge(inv, [v, u]) == Merge(inv, [v])
  {
    var u, v := Fabric(layer, a, b, p + "=default"), Fabric(layer, a, b, detail);
    Text.SuffixIff(p + "=default", "=default");
    Text.SuffixIff(detail, "=default");
    hide Text.Less, Text.HasSuffix;
    assert [u, v][..1] == [u] && [v, u][..1] == [v] && [u][..0] == [] && [v][..0] == [];
    assert Soft(EdgeOf(u)) && !Soft(EdgeOf(v)) && KeyFor(EdgeOf(u)) == KeyFor(EdgeOf(v));
  }

  // ---- the builder ----

  predicate Directed(inv: set<string>, e: Edge) {
    Text.Less(e.src, e.dst) && (e.layer != VLAN ==> e.src in inv && e.dst in inv)
  }

  lemma EdgeOfDirected(inv: set<string>, o: Obs)
    requires Accepted(inv, o)
    ensures Directed(inv, EdgeOf(o))
  {
    Text.LessTotal(o.a, o.b);
  }

  /** Every merged edge runs from the smaller to the larger name, between inventory nodes
      unless it is a VLAN edge. */
  lemma MergedEdgesDirected(inv: set<string>, obs: seq<Obs>)
    ensures forall k :: k in Merge(inv, obs) ==> Directed(inv, Merge(inv, obs)[k]) && KeyFor(Merge(inv, obs)[k]) == k
  {
    hide Merge, KeyFor;
    MergeKeeps(inv, obs);
    forall k | k in Merge(inv, obs) ensures Directed(inv, Merge(inv, obs)[k]) {
      var o :| o in obs && Accepted(inv, o) && EdgeOf(o) == Merge(inv, obs)[k];
      EdgeOfDirected(inv, o);
    }
  }

  predicate KnownLayer(layer: string) {
    layer in ["physical", "ospf", "bgp", "mpls", VLAN]
  }

  /** A VLAN key never names a fabric edge. */
  lemma VlanKeysApart(d: Edge, e: Edge)
    requires KnownLayer(d.layer) && KnownLayer(e.layer) && KeyFor(d) == KeyFor(e)
    ensures d.layer == VLAN <==> e.layer == VLAN
  {
    assert KeyFor(d)[0] == d.layer[0] && KeyFor(e)[0] == e.layer[0];
  }

  class Builder {
    const inventory: set<string>
    var edges: map<string, Edge>
    ghost var obs: seq<Obs>

    constructor (inventory: set<string>)
      ensures Valid() && this.inventory == inventory && obs == []
    {
      this.inventory, edges, obs := inventory, map[], [];
    }

    /** Every edge is filed under its own key, from the smaller to the larger name. */
    ghost predicate Valid()
      reads this
    {
      && edges == Merge(inventory, obs)
      && forall k :: k in edges ==> KeyFor(edges[k]) == k && Directed(inventory, edges[k]) && KnownLayer(edges[k].layer)
    }

    method AddEdge(layer: Layer, a: string, b: string, detail: string)
      requires Valid()
      modifies this
      ensures Valid() && obs == old(obs) + [Fabric(layer, a, b, detail)]
    {
      hide Merge, Text.Less, Text.HasSuffix;
      ghost var o := Fabric(layer, a, b, detail);
      obs := obs + [o];
      MergeSnoc(inventory, old(obs), o);
      if a !in inventory { return; }
      if b !in inventory { return; }
      if a == b { return; }
      EdgeOfDirected(inventory, o);
      var x, y := a, b;
      if Text.Less(y, x) { x, y := y, x; }
      var name := LayerName(layer);
      var key := KeyOf(name, x, y);
      if key in edges && !Text.HasSuffix(edges[key].detail, "=default") { return; }
      if key in edges { VlanKeysApart(edges[key], Edge(name, x, y, detail)); }
      edges := edges[key := Edge(name, x, y, detail)];
    }

    method AddPseudo(a: string, b: string, detail: string)
      requires Valid()
      modifies this
      ensures Valid() && obs == old(obs) + [Pseudo(a, b, detail)]
    {
      hide Merge, Text.Less, Text.HasSuffix;
      ghost var o := Pseudo(a, b, detail);
      obs := obs + [o];
      MergeSnoc(inventory, old(obs), o);
      if a == "" || b == "" || a == b { return; }
      EdgeOfDirected(inventory, o);
      var x, y := a, b;
      if Text.Less(y, x) { x, y := y, x; }
      var key := KeyOf(VLAN, x, y);
      if key in edges {
        VlanKeysApart(edges[key], Edge(VLAN, x, y, detail));
        return;
      }
      edges := edges[key := Edge(VLAN, x, y, detail)];
    }

    /** The nodes of each layer are exactly the end points of its edges. */
    method LayerNodes() returns (nodes: map<string, set<string>>)
      ensures forall layer, n :: (layer in nodes && n in nodes[layer]) <==> Endpoint(edges, edges.Keys, layer, n)
    {
      nodes := map[];
      var todo := edges.Keys;
      ghost var done := {};
      while todo != {}
        invariant todo <= edges.Keys && done == edges.Keys - todo
        invariant forall layer, n :: (layer in nodes && n in nodes[layer]) <==> Endpoint(edges, done, layer, n)
        decreases todo
      {
        var k :| k in todo;
        var e := edges[k];
        var was := if e.layer in nodes then nodes[e.layer] else {};
        forall layer, n { EndpointStep(edges, done, k, layer, n); }
        todo := todo - {k};
        done := done + {k};
        nodes := nodes[e.layer := was + {e.src, e.dst}];
      }
      assert done == edges.Keys;
    }
  }

  /** `n` is an end point of one of the edges filed under `ks` in `layer`. */
  ghost predicate Endpoint(edges: map<string, Edge>, ks: set<string>, layer: string, n: string) {
    exists k :: k in ks && k in edges && edges[k].layer == layer && (n == edges[k].src || n == edges[k].dst)
  }

  lemma EndpointStep(edges: map<string, Edge>, ks: set<string>, k: string, layer: string, n: string)
    requires k in edges
    ensures Endpoint(edges, ks + {k}, layer, n) <==>
            Endpoint(edges, ks, layer, n) || (edges[k].layer == layer && (n == edges[k].src || n == edges[k].dst))
  {
    if edges[k].layer == layer && (n == edges[k].src || n == edges[k].dst) {
      assert k in ks + {k};
    }
  }

  lemma MergeSnoc(inv: set<string>, obs: seq<Obs>, o: Obs)
    ensures Merge(inv, obs + [o]) ==
            if Accepted(inv, o) then Put(Merge(inv, obs), EdgeOf(o)) else Merge(inv, obs)
  {
    assert (obs + [o])[..|obs|] == obs;
  }

  // ---- peers named by interfaces ----

  /** The first part of a dashed interface name that is neither empty nor the node itself. */
  method IfacePeer(iface: string, self: string) returns (peer: string)
    ensures peer == FirstOther(Text.Split(iface, '-'), self)
  {
    var parts := Text.Split(iface, '-');
    for i := 0 to |parts|
      invariant FirstOther(parts, self) == FirstOther(parts[i..], self)
    {
      if parts[i] != "" && parts[i] != self { return parts[i]; }
    }
    peer := "";
  }

  function FirstOther(parts: seq<string>, self: string): string {
    if parts == [] then ""
    else if parts[0] != "" && parts[0] != self then parts[0]
    else FirstOther(parts[1..], self)
  }

  lemma {:induction false} FirstOtherIn(parts: seq<string>, self: string)
    ensures FirstOther(parts, self) == "" || FirstOther(parts, self) in parts
  {
    if parts != [] { FirstOtherIn(parts[1..], self); }
  }

  /** The peer is "" exactly when there is no other part; else nothing but empty parts and the
      node itself stands before it. */
  lemma {:induction false} FirstOtherIs(parts: seq<string>, self: string)
    ensures var peer := FirstOther(parts, self);
            if forall i :: 0 <= i < |parts| ==> parts[i] == "" || parts[i] == self then peer == ""
            else exists i :: 0 <= i < |parts| && parts[i] == peer && peer != "" && peer != self &&
                             forall j :: 0 <= j < i ==> parts[j] == "" || parts[j] == self
  {
    if parts != [] && (parts[0] == "" || parts[0] == self) {
      FirstOtherIs(parts[1..], self);
      if exists i :: 0 <= i < |parts[1..]| && !(parts[1..][i] == "" || parts[1..][i] == self) {
        var peer := FirstOther(parts, self);
        var i :| 0 <= i < |parts[1..]| && parts[1..][i] == peer && peer != "" && peer != self &&
                 forall j :: 0 <= j < i ==> parts[1..][j] == "" || parts[1..][j] == self;
        assert forall j :: 0 < j < i + 1 ==> parts[j] == parts[1..][j - 1];
        assert parts[i + 1] == peer;
      } else {
        assert forall j :: 0 < j < |parts| ==> parts[j] == parts[1..][j - 1];
      }
    }
  }

  /** The interface between `x` and `y` names both, as `x-y`: each end finds the other
      exactly when neither name holds a dash. */
  lemma IfacePeersAgree(x: string, y: string)
    requires x != y && x != "" && y != ""
    ensures FirstOther(Text.Split(x + "-" + y, '-'), x) == y && FirstOther(Text.Split(x + "-" + y, '-'), y) == x
            <==> '-' !in x && '-' !in y
  {
    var parts := Text.Split(x + "-" + y, '-');
    assert x + "-" + y == x + ['-'] + y;
    if '-' !in x && '-' !in y {
      Text.SplitNoSep(y, '-');
      Text.SplitFirst(x, '-', y);
      assert [x, y][1..] == [y];
    } else {
      FirstOtherIn(parts, x);
      FirstOtherIn(parts, y);
      Text.PartsHoldNoSep(x + "-" + y, '-');
    }
  }

  /** On the interface between `a-b` and `c`, the end `c` looks for a node `a`. */
  lemma DashedPeerExample()
    ensures FirstOther(Text.Split("a-b-c", '-'), "c") == "a"
  {
    assert "a-b-c" == "a" + ['-'] + "b-c";
    Text.SplitFirst("a", '-', "b-c");
  }
}
