/** `routeLookup` of the path-trace exporter: AFT leaves are folded into a table
    keyed by prefix, then the longest usable prefix holding the destination wins. */
module RouteTable {
  import opened Options
  import opened Permutations

  /** One leaf of `.../network-instance[name=vrf]/.../ipv4-entry[prefix]/state/leaf`. */
  datatype AftUpdate = AftUpdate(vrf: string, prefix: string, leaf: string, value: string)

  datatype Entry = Entry(vrf: string, nexthop: string, labels: string)

  datatype Route = Route(vrf: string, prefix: string, nexthop: string, labels: string)

  const NEXT_HOP := "next-hop"
  const LABELS := "pushed-mpls-label-stack"
  const NO_ROUTE := Route("", "", "", "")

  type Address = a: nat | a < 0x1_0000_0000
  type Length = n: nat | n <= 32

  /** An IPv4 network: an address and how many of its leading bits count. */
  datatype Cidr = Cidr(net: Address, ones: Length)

  /** The address parsers of Go's `net` package. */
  datatype Inet = Inet(parseIp: string -> Option<Address>, parseCidr: string -> Option<Cidr>)

  /** The number without its `n` lowest bits. */
  function Halved(a: nat, n: nat): nat {
    if n == 0 then a else Halved(a / 2, n - 1)
  }

  /** The number that the `ones` leading bits form. */
  function Leading(a: Address, ones: Length): nat {
    Halved(a, 32 - ones)
  }

  /** `IPNet.Contains`: address and network agree under the mask. */
  predicate Contains(c: Cidr, ip: Address) {
    Leading(ip, c.ones) == Leading(c.net, c.ones)
  }

  // ---- the table ----

  function Apply(t: map<string, Entry>, u: AftUpdate): map<string, Entry> {
    if u.prefix == "" then t
    else
      var e := if u.prefix in t then t[u.prefix] else Entry("", "", "");
      t[u.prefix :=
        if u.leaf == NEXT_HOP then Entry(u.vrf, u.value, e.labels)
        else if u.leaf == LABELS then e.(labels := u.value)
        else e]
  }

  function Table(ups: seq<AftUpdate>): map<string, Entry> {
    if ups == [] then map[] else Apply(Table(ups[..|ups| - 1]), ups[|ups| - 1])
  }

  /** The last update of `leaf` for `prefix`. */
  ghost function LastOf(ups: seq<AftUpdate>, prefix: string, leaf: string): (r: Option<AftUpdate>)
    ensures r.Some? ==> r.value in ups && r.value.prefix == prefix && r.value.leaf == leaf
    ensures r.None? ==> forall u :: u in ups ==> !(u.prefix == prefix && u.leaf == leaf)
  {
    if ups == [] then None
    else
      var u := ups[|ups| - 1];
      if u.prefix == prefix && u.leaf == leaf then Some(u)
      else LastOf(ups[..|ups| - 1], prefix, leaf)
  }

  /** The table holds, for each prefix, the last next-hop with its network-instance
      and, independently, the last label stack. */
  lemma {:induction false} TableIsLast(ups: seq<AftUpdate>, p: string)
    ensures p in Table(ups) <==> p != "" && exists u :: u in ups && u.prefix == p
    ensures p in Table(ups) ==>
              && Table(ups)[p].nexthop ==
                 (match LastOf(ups, p, NEXT_HOP) case Some(u) => u.value case None => "")
              && Table(ups)[p].vrf ==
                 (match LastOf(ups, p, NEXT_HOP) case Some(u) => u.vrf case None => "")
              && Table(ups)[p].labels ==
                 (match LastOf(ups, p, LABELS) case Some(u) => u.value case None => "")
  {
    if ups != [] {
      var init, last := ups[..|ups| - 1], ups[|ups| - 1];
      TableIsLast(init, p);
      assert ups == init + [last];
      if p !in Table(init) && p != "" {
        assert forall u :: u in init ==> u.prefix != p;
        assert LastOf(init, p, NEXT_HOP).None? && LastOf(init, p, LABELS).None?;
      }
    }
  }

  // ---- order of the updates ----

  /** Updates of one prefix agree leaf by leaf; next-hop leaves also on the instance. */
  ghost predicate Consistent(ups: seq<AftUpdate>) {
    forall u, v :: u in ups && v in ups && u.prefix == v.prefix && u.prefix != "" && u.leaf == v.leaf ==>
      && (u.leaf == NEXT_HOP ==> u.value == v.value && u.vrf == v.vrf)
      && (u.leaf == LABELS ==> u.value == v.value)
  }

  lemma ConsistentTablesAgree(ps: seq<AftUpdate>, ups: seq<AftUpdate>)
    requires Consistent(ups) && Permutes(ps, ups)
    ensures Table(ps) == Table(ups)
  {
    PermutesMembers(ps, ups);
    forall p ensures p in Table(ps) <==> p in Table(ups) {
      TableIsLast(ps, p);
      TableIsLast(ups, p);
    }
    forall p | p in Table(ups) ensures Table(ps)[p] == Table(ups)[p] {
      TableIsLast(ps, p);
      TableIsLast(ups, p);
    }
  }

  /** Two conflicting updates: whichever comes last decides, so two orders differ. */
  lemma ConflictSplits(ups: seq<AftUpdate>, u: AftUpdate, v: AftUpdate) returns (us: seq<AftUpdate>, vs: seq<AftUpdate>)
    requires u in ups && v in ups && u.prefix == v.prefix && u.prefix != "" && u.leaf == v.leaf
    requires (u.leaf == NEXT_HOP && (u.value != v.value || u.vrf != v.vrf)) || (u.leaf == LABELS && u.value != v.value)
    ensures Permutes(us, ups) && Permutes(vs, ups) && Table(us) != Table(vs)
  {
    hide Table;
    var i :| 0 <= i < |ups| && ups[i] == u;
    var j :| 0 <= j < |ups| && ups[j] == v;
    us, vs := MoveLast(ups, i), MoveLast(ups, j);
    assert LastOf(us, u.prefix, u.leaf) == Some(u) && LastOf(vs, u.prefix, u.leaf) == Some(v);
    assert u in us && v in vs;
    TableIsLast(us, u.prefix);
    TableIsLast(vs, u.prefix);
  }

  /** The table is the same for every delivery order of the leaves exactly when
      no prefix carries two different values for one leaf. */
  lemma TableOrderIndependence(ups: seq<AftUpdate>)
    ensures (forall ps | Permutes(ps, ups) :: Table(ps) == Table(ups)) <==> Consistent(ups)
  {
    hide Table;
    if Consistent(ups) {
      forall ps | Permutes(ps, ups) ensures Table(ps) == Table(ups) {
        ConsistentTablesAgree(ps, ups);
      }
    } else {
      var u, v :| u in ups && v in ups && u.prefix == v.prefix && u.prefix != "" && u.leaf == v.leaf &&
        !((u.leaf == NEXT_HOP ==> u.value == v.value && u.vrf == v.vrf) && (u.leaf == LABELS ==> u.value == v.value));
      var us, vs := ConflictSplits(ups, u, v);
    }
  }

  /** One prefix in two instances: the delivery order decides which next hop is kept. */
  lemma OrderMattersExample()
    ensures var u, v := AftUpdate("cust", "10.0.0.0/8", NEXT_HOP, "10.1.1.1"),
                        AftUpdate("default", "10.0.0.0/8", NEXT_HOP, "10.2.2.2");
            Table([u, v]) != Table([v, u])
  {
    var u, v := AftUpdate("cust", "10.0.0.0/8", NEXT_HOP, "10.1.1.1"),
                AftUpdate("default", "10.0.0.0/8", NEXT_HOP, "10.2.2.2");
    assert u in [u, v] && v in [v, u];
    TableIsLast([u, v], "10.0.0.0/8");
    TableIsLast([v, u], "10.0.0.0/8");
  }

  // ---- one network-instance per answer ----

  /** The label stack of `p` and its next hop were published by one network-instance. */
  ghost predicate OneInstance(ups: seq<AftUpdate>, p: string) {
    var n, l := LastOf(ups, p, NEXT_HOP), LastOf(ups, p, LABELS);
    n.Some? && l.Some? ==> n.value.vrf == l.value.vrf
  }

  lemma LastTwo(ups: seq<AftUpdate>, u: AftUpdate, v: AftUpdate) returns (ps: seq<AftUpdate>)
    requires u in ups && v in ups && u.prefix == v.prefix && u.leaf == NEXT_HOP && v.leaf == LABELS
    ensures Permutes(ps, ups)
    ensures LastOf(ps, u.prefix, NEXT_HOP) == Some(u) && LastOf(ps, u.prefix, LABELS) == Some(v)
  {
    var i :| 0 <= i < |ups| && ups[i] == u;
    var us := MoveLast(ups, i);
    PermutesMembers(us, ups);
    var j :| 0 <= j < |us| && us[j] == v;
    ps := MoveLast(us, j);
    var init := ps[..|ps| - 1];
    assert init[|init| - 1] == u;
    assert LastOf(init, u.prefix, NEXT_HOP) == Some(u);
  }

  /** Next-hop and label leaves of `p` all come from one instance. */
  ghost predicate SingleInstance(ups: seq<AftUpdate>, p: string) {
    forall u, v ::
      u in ups && v in ups && u.prefix == p && v.prefix == p && u.leaf == NEXT_HOP && v.leaf == LABELS ==>
        u.vrf == v.vrf
  }

  /** Keying the table by prefix alone never mixes the next hop of one instance with
      the labels of another, whatever the order of the leaves, exactly when all
      next-hop and label leaves of the prefix come from one instance. */
  lemma MixingCondition(ups: seq<AftUpdate>, p: string)
    ensures (forall ps | Permutes(ps, ups) :: OneInstance(ps, p)) <==> SingleInstance(ups, p)
  {
    if SingleInstance(ups, p) {
      forall ps | Permutes(ps, ups) ensures OneInstance(ps, p) {
        PermutesMembers(ps, ups);
      }
    } else {
      var u, v :| u in ups && v in ups && u.prefix == p && v.prefix == p && u.leaf == NEXT_HOP && v.leaf == LABELS &&
                  u.vrf != v.vrf;
      var ps := LastTwo(ups, u, v);
      assert !OneInstance(ps, p);
    }
  }

  /** A prefix present in two instances can yield an answer no instance holds. */
  lemma MixedAnswerExample()
    ensures var ups := [AftUpdate("cust", "10.0.0.0/8", NEXT_HOP, "10.1.1.1"),
                        AftUpdate("default", "10.0.0.0/8", LABELS, "18")];
            !OneInstance(ups, "10.0.0.0/8") && Table(ups)["10.0.0.0/8"] == Entry("cust", "10.1.1.1", "18")
  {
    var ups := [AftUpdate("cust", "10.0.0.0/8", NEXT_HOP, "10.1.1.1"),
                AftUpdate("default", "10.0.0.0/8", LABELS, "18")];
    assert ups[..1][..0] == [];
    TableIsLast(ups, "10.0.0.0/8");
    assert LastOf(ups[..1], "10.0.0.0/8", NEXT_HOP) == Some(ups[0]);
    assert ups[0] in ups;
  }

  // ---- longest match ----

  /** A usable entry whose network holds `ip`. */
  predicate Matches(lib: Inet, t: map<string, Entry>, ip: Address, p: string) {
    && p in t
    && !(t[p].nexthop == "" && t[p].labels == "")
    && lib.parseCidr(p).Some?
    && Contains(lib.parseCidr(p).value, ip)
  }

  function AnswerAt(t: map<string, Entry>, p: string): Route
    requires p in t
  {
    Route(t[p].vrf, p, t[p].nexthop, t[p].labels)
  }

  /** A usable match that none is longer than. */
  ghost predicate LongestAt(lib: Inet, t: map<string, Entry>, ip: Address, p: string) {
    && Matches(lib, t, ip, p)
    && forall q :: Matches(lib, t, ip, q) ==> lib.parseCidr(q).value.ones <= lib.parseCidr(p).value.ones
  }

  /** `r` is a longest usable match, or no route when nothing matches. */
  ghost predicate IsLongest(lib: Inet, t: map<string, Entry>, ip: Address, r: Route) {
    if exists p :: Matches(lib, t, ip, p) then exists p :: LongestAt(lib, t, ip, p) && r == AnswerAt(t, p)
    else r == NO_ROUTE
  }

  ghost predicate IsAnswer(lib: Inet, ups: seq<AftUpdate>, dst: string, r: Route) {
    match lib.parseIp(dst)
    case None => r == NO_ROUTE
    case Some(ip) => IsLongest(lib, Table(ups), ip, r)
  }

  method RouteLookup(lib: Inet, ups: seq<AftUpdate>, dst: string) returns (r: Route)
    ensures IsAnswer(lib, ups, dst, r)
  {
    var byPfx: map<string, Entry> := map[];
    for i := 0 to |ups|
      invariant byPfx == Table(ups[..i])
    {
      assert ups[..i + 1][..i] == ups[..i];
      byPfx := Apply(byPfx, ups[i]);
    }
    assert ups[..|ups|] == ups;
    r := NO_ROUTE;
    var di := lib.parseIp(dst);
    if di == None { return; }
    var ip := di.value;
    var best: int := -1;
    var todo := byPfx.Keys;
    ghost var won := "";
    while todo != {}
      invariant todo <= byPfx.Keys
      invariant forall q :: Matches(lib, byPfx, ip, q) && q !in todo ==> lib.parseCidr(q).value.ones <= best
      invariant best >= 0 ==>
                  Matches(lib, byPfx, ip, won) && r == AnswerAt(byPfx, won) && best == lib.parseCidr(won).value.ones
      invariant best < 0 ==> r == NO_ROUTE
      decreases todo
    {
      var pfx :| pfx in todo;
      todo := todo - {pfx};
      var e := byPfx[pfx];
      if !(e.nexthop == "" && e.labels == "") {
        var c := lib.parseCidr(pfx);
        if c.Some? && Contains(c.value, ip) && c.value.ones > best {
          best := c.value.ones;
          r := Route(e.vrf, pfx, e.nexthop, e.labels);
          won := pfx;
        }
      }
    }
    if best >= 0 {
      assert LongestAt(lib, byPfx, ip, won);
    } else {
      assert forall q :: !Matches(lib, byPfx, ip, q);
    }
  }

  predicate SameNetwork(c: Cidr, d: Cidr) {
    c.ones == d.ones && Leading(c.net, c.ones) == Leading(d.net, d.ones)
  }

  /** No two prefix texts of the table denote the same network. */
  ghost predicate Canonical(lib: Inet, t: map<string, Entry>) {
    forall p, q ::
      && p in t && q in t && lib.parseCidr(p).Some? && lib.parseCidr(q).Some?
      && SameNetwork(lib.parseCidr(p).value, lib.parseCidr(q).value)
      ==> p == q
  }

  lemma OneLongest(lib: Inet, t: map<string, Entry>, ip: Address, p: string, q: string)
    requires Canonical(lib, t) && LongestAt(lib, t, ip, p) && LongestAt(lib, t, ip, q)
    ensures p == q
  {
    hide Leading;
  }

  lemma LongestUnique(lib: Inet, ups: seq<AftUpdate>, dst: string, r1: Route, r2: Route)
    requires Canonical(lib, Table(ups))
    requires IsAnswer(lib, ups, dst, r1) && IsAnswer(lib, ups, dst, r2)
    ensures r1 == r2
  {
    hide Table, Canonical, Contains;
    var t := Table(ups);
    if lib.parseIp(dst).Some? {
      var ip := lib.parseIp(dst).value;
      if exists p :: Matches(lib, t, ip, p) {
        var p :| LongestAt(lib, t, ip, p) && r1 == AnswerAt(t, p);
        var q :| LongestAt(lib, t, ip, q) && r2 == AnswerAt(t, q);
        OneLongest(lib, t, ip, p, q);
      }
    }
  }

  /** With consistent leaves and canonical prefixes the answer depends on neither the
      order in which the leaves arrive nor the order in which the table is walked. */
  lemma AnswerOrderIndependent(lib: Inet, ups: seq<AftUpdate>, ps: seq<AftUpdate>, dst: string, r1: Route, r2: Route)
    requires Consistent(ups) && Canonical(lib, Table(ups)) && Permutes(ps, ups)
    requires IsAnswer(lib, ups, dst, r1) && IsAnswer(lib, ps, dst, r2)
    ensures r1 == r2
  {
    ConsistentTablesAgree(ps, ups);
    LongestUnique(lib, ups, dst, r1, r2);
  }

  /** "No route" is told apart from every answer: it means nothing usable matched. */
  lemma NoRouteMeans(lib: Inet, ups: seq<AftUpdate>, dst: string, r: Route)
    requires IsAnswer(lib, ups, dst, r)
    ensures r == NO_ROUTE <==> r.prefix == ""
    ensures r == NO_ROUTE <==>
            (lib.parseIp(dst).Some? ==> forall p :: !Matches(lib, Table(ups), lib.parseIp(dst).value, p))
  {
    TableIsLast(ups, "");
  }

  // ---- the answer read off the updates and the bits ----

  /** Bit `i` of a number, bit 31 being the first of an address. */
  function Bit(a: nat, i: nat): nat {
    if i == 0 then a % 2 else Bit(a / 2, i - 1)
  }

  function Pow2(n: nat): (r: nat)
    ensures r > 0
  {
    if n == 0 then 1 else 2 * Pow2(n - 1)
  }

  /** The numbers have the same bits from `n` up to `w`. */
  predicate AgreeFrom(a: nat, b: nat, n: nat, w: nat) {
    forall i: nat :: n <= i < w ==> Bit(a, i) == Bit(b, i)
  }

  lemma NextBit(a: nat, i: nat)
    requires i > 0
    ensures Bit(a, i) == Bit(a / 2, i - 1)
  {
  }

  lemma AgreeHalved(a: nat, b: nat, n: nat, w: nat)
    requires w > 0
    ensures AgreeFrom(a, b, n + 1, w) <==> AgreeFrom(a / 2, b / 2, n, w - 1)
  {
    hide Bit;
    forall i: nat | i > 0 ensures Bit(a, i) == Bit(a / 2, i - 1) && Bit(b, i) == Bit(b / 2, i - 1) {
      NextBit(a, i);
      NextBit(b, i);
    }
    if AgreeFrom(a, b, n + 1, w) {
      forall i: nat | n <= i < w - 1 ensures Bit(a / 2, i) == Bit(b / 2, i) {
        assert Bit(a, i + 1) == Bit(b, i + 1);
      }
    }
  }

  lemma {:induction false} HalvedBits(a: nat, b: nat, n: nat, w: nat)
    requires a < Pow2(w) && b < Pow2(w) && n <= w
    ensures Halved(a, n) == Halved(b, n) <==> AgreeFrom(a, b, n, w)
    decreases w
  {
    if w > 0 {
      var m := if n == 0 then 0 else n - 1;
      HalvedBits(a / 2, b / 2, m, w - 1);
      AgreeHalved(a, b, m, w);
      if n == 0 {
        assert AgreeFrom(a, b, 0, w) <==> Bit(a, 0) == Bit(b, 0) && AgreeFrom(a, b, 1, w);
      }
    }
  }

  /** The leading bits of the address are those of the network. */
  predicate SameBits(c: Cidr, ip: Address) {
    forall i: nat :: 32 - c.ones <= i < 32 ==> Bit(ip, i) == Bit(c.net, i)
  }

  lemma Powers()
    ensures Pow2(24) == 0x100_0000 && Pow2(32) == 0x1_0000_0000
  {
    assert Pow2(8) == 256;
    assert Pow2(16) == 0x1_0000;
  }

  /** A network holds the addresses that share its leading bits; one of length 0 holds all. */
  lemma ContainsIff(c: Cidr, ip: Address)
    ensures Contains(c, ip) <==> SameBits(c, ip)
    ensures c.ones == 0 ==> Contains(c, ip)
  {
    hide Bit, Pow2;
    Powers();
    HalvedBits(ip, c.net, 32 - c.ones, 32);
    assert Contains(c, ip) <==> AgreeFrom(ip, c.net, 32 - c.ones, 32);
  }

  /** The value of the last update of a leaf; empty without one. */
  ghost function Latest(ups: seq<AftUpdate>, p: string, leaf: string): string {
    match LastOf(ups, p, leaf) case Some(u) => u.value case None => ""
  }

  /** A prefix with a next hop or labels, whose network's bits are those of `ip`. */
  ghost predicate Candidate(lib: Inet, ups: seq<AftUpdate>, ip: Address, p: string) {
    && p != "" && (Latest(ups, p, "next-hop") != "" || Latest(ups, p, "pushed-mpls-label-stack") != "")
    && lib.parseCidr(p).Some? && SameBits(lib.parseCidr(p).value, ip)
  }

  lemma MatchesMeans(lib: Inet, ups: seq<AftUpdate>, ip: Address, p: string)
    ensures Matches(lib, Table(ups), ip, p) <==> Candidate(lib, ups, ip, p)
  {
    hide Table, SameBits, Contains;
    TableIsLast(ups, p);
    if lib.parseCidr(p).Some? { ContainsIff(lib.parseCidr(p).value, ip); }
  }

  /** An answer of the lookup, read off the updates and the bits of the addresses. */
  lemma AnswerMeans(lib: Inet, ups: seq<AftUpdate>, dst: string, r: Route)
    requires IsAnswer(lib, ups, dst, r)
    ensures match lib.parseIp(dst)
            case None => r == NO_ROUTE
            case Some(ip) =>
              if exists p :: Candidate(lib, ups, ip, p) then
                && Candidate(lib, ups, ip, r.prefix)
                && (forall q :: Candidate(lib, ups, ip, q) ==>
                      lib.parseCidr(q).value.ones <= lib.parseCidr(r.prefix).value.ones)
                && r.nexthop == Latest(ups, r.prefix, "next-hop")
                && r.labels == Latest(ups, r.prefix, "pushed-mpls-label-stack")
                && r.vrf == (match LastOf(ups, r.prefix, "next-hop") case Some(u) => u.vrf case None => "")
              else r == Route("", "", "", "")
  {
    if lib.parseIp(dst).Some? {
      hide Table, Matches, Candidate;
      var ip := lib.parseIp(dst).value;
      forall p ensures Matches(lib, Table(ups), ip, p) <==> Candidate(lib, ups, ip, p) {
        MatchesMeans(lib, ups, ip, p);
      }
      TableIsLast(ups, r.prefix);
    }
  }

  /** 10.0.0.0/8 holds 10.1.1.1 and not 11.1.1.1; 0.0.0.0/0 holds both. */
  lemma PrefixExample()
    ensures Contains(Cidr(0x0A00_0000, 8), 0x0A01_0101) && !Contains(Cidr(0x0A00_0000, 8), 0x0B01_0101)
    ensures Contains(Cidr(0, 0), 0x0A01_0101) && Contains(Cidr(0, 0), 0x0B01_0101)
  {
    hide Pow2;
    Powers();
    HalvedIs(0x0A00_0000, 0x0A, 24);
    HalvedIs(0x0A01_0101, 0x0A, 24);
    HalvedIs(0x0B01_0101, 0x0B, 24);
    HalvedIs(0, 0, 32);
    HalvedIs(0x0A01_0101, 0, 32);
    HalvedIs(0x0B01_0101, 0, 32);
  }

  lemma {:induction false} HalvedIs(a: nat, k: nat, n: nat)
    requires k * Pow2(n) <= a < (k + 1) * Pow2(n)
    ensures Halved(a, n) == k
  {
    if n > 0 {
      var p := Pow2(n - 1);
      assert k * (2 * p) == 2 * (k * p) && (k + 1) * (2 * p) == 2 * ((k + 1) * p);
      hide Pow2;
      HalvedIs(a / 2, k, n - 1);
    } else {
      assert k * 1 == k;
    }
  }
}
