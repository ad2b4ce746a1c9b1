/** The forwarding-plane collector: streamed Netlink route and nexthop messages keep a
    nexthop table and the cached AFT leaves. */
module Fpm {
  import opened Options
  import opened Bytes
  import opened Netlink
  import Text

  const NL_HDR := 16
  const RT_MSG := 12
  const NH_MSG := 8

  const NEW_ROUTE := 24
  const DEL_ROUTE := 25
  const NEW_NEXTHOP := 104
  const DEL_NEXTHOP := 105

  const ENCAP_MPLS := 1
  const MPLS_DST := 1

  // ---- nexthop objects ----

  /** An absent gateway is the empty byte string. */
  datatype Nexthop = Nexthop(gw: seq<Byte>, oif: nat, group: seq<nat>, labels: seq<nat>, blackhole: bool)

  type Table = map<nat, Nexthop>

  datatype Resolution = Resolution(gw: seq<Byte>, oif: nat, blackhole: bool, labels: seq<nat>)

  const UNRESOLVED := Resolution([], 0, false, [])

  function ResolveNH(t: Table, id: nat, depth: nat): Resolution
    decreases if depth > 4 then 0 else 5 - depth
  {
    if depth > 4 || id !in t then UNRESOLVED
    else
      var nh := t[id];
      if nh.blackhole then Resolution([], 0, true, [])
      else if nh.gw != [] || nh.oif != 0 then Resolution(nh.gw, nh.oif, false, nh.labels)
      else if nh.group != [] then ResolveNH(t, nh.group[0], depth + 1)
      else UNRESOLVED
  }

  /** A blackhole, or an object with a gateway or an interface of its own. */
  predicate Concrete(t: Table, id: nat) {
    id in t && (t[id].blackhole || t[id].gw != [] || t[id].oif != 0)
  }

  /** The object `k` steps down the chain of first group members, which ends at the
      first concrete object. No bound: the chain may run round a cycle for ever. */
  function ChainAt(t: Table, id: nat, k: nat): Option<nat>
    decreases k
  {
    if k == 0 then Some(id)
    else if id in t && !Concrete(t, id) && t[id].group != [] then ChainAt(t, t[id].group[0], k - 1)
    else None
  }

  function Meaning(nh: Nexthop): Resolution {
    if nh.blackhole then Resolution([], 0, true, []) else Resolution(nh.gw, nh.oif, false, nh.labels)
  }

  lemma {:induction false} ResolveFinds(t: Table, id: nat, depth: nat, k: nat, c: nat)
    requires ChainAt(t, id, k) == Some(c) && Concrete(t, c)
    ensures ResolveNH(t, id, depth) == if depth + k <= 4 then Meaning(t[c]) else UNRESOLVED
    decreases k
  {
    if k > 0 && depth <= 4 { ResolveFinds(t, t[id].group[0], depth + 1, k - 1, c); }
  }

  lemma {:induction false} ResolveFails(t: Table, id: nat, depth: nat)
    requires forall k: nat :: ChainAt(t, id, k).Some? ==> !Concrete(t, ChainAt(t, id, k).value)
    ensures ResolveNH(t, id, depth) == UNRESOLVED
    decreases 5 - depth
  {
    assert ChainAt(t, id, 0) == Some(id);
    if depth <= 4 && id in t && t[id].group != [] {
      var next := t[id].group[0];
      forall k: nat | ChainAt(t, next, k).Some? ensures !Concrete(t, ChainAt(t, next, k).value) {
        assert ChainAt(t, id, k + 1) == ChainAt(t, next, k);
      }
      ResolveFails(t, next, depth + 1);
    }
  }

  /** Bounded resolution against the unbounded chain, for any table, cyclic ones included:
      the first concrete object is found exactly when it is among the first five objects. */
  lemma BoundedResolution(t: Table, id: nat)
    ensures forall k: nat, c | ChainAt(t, id, k) == Some(c) && Concrete(t, c) ::
              ResolveNH(t, id, 0) == if k <= 4 then Meaning(t[c]) else UNRESOLVED
    ensures (forall k: nat :: ChainAt(t, id, k).Some? ==> !Concrete(t, ChainAt(t, id, k).value)) ==>
              ResolveNH(t, id, 0) == UNRESOLVED
  {
    forall k: nat, c | ChainAt(t, id, k) == Some(c) && Concrete(t, c)
      ensures ResolveNH(t, id, 0) == if k <= 4 then Meaning(t[c]) else UNRESOLVED
    {
      ResolveFinds(t, id, 0, k, c);
    }
    if forall k: nat :: ChainAt(t, id, k).Some? ==> !Concrete(t, ChainAt(t, id, k).value) {
      ResolveFails(t, id, 0);
    }
  }

  // ---- decoding ----

  function U32(p: seq<Byte>, was: nat): nat {
    if |p| >= 4 then Le32(p) else was
  }

  function U16(p: seq<Byte>, was: nat): nat {
    if |p| >= 2 then Le16(p) else was
  }

  /** The last MPLS_IPTUNNEL_DST of a nested encapsulation, decoded. */
  function LastStack(attrs: seq<Attr>): seq<nat> {
    if attrs == [] then []
    else if attrs[|attrs| - 1].typ == MPLS_DST then StackOf(attrs[|attrs| - 1].payload)
    else LastStack(attrs[..|attrs| - 1])
  }

  method ParseMplsEncap(p: seq<Byte>) returns (labels: seq<nat>, fault: bool)
    ensures labels == LastStack(AttrsOf(p).attrs) && fault == AttrsOf(p).fault
  {
    var w := ForEachAttr(p);
    labels := [];
    for i := 0 to |w.attrs|
      invariant labels == LastStack(w.attrs[..i])
    {
      assert w.attrs[..i + 1][..i] == w.attrs[..i];
      if w.attrs[i].typ == MPLS_DST { labels := DecodeMplsStack(w.attrs[i].payload); }
    }
    assert w.attrs[..|w.attrs|] == w.attrs;
    fault := w.fault;
  }

  function GroupIds(p: seq<Byte>): seq<nat> {
    if |p| < 8 then [] else [Le32(p)] + GroupIds(p[8..])
  }

  datatype NhFields = NhFields(id: nat, oif: nat, gw: seq<Byte>, group: seq<nat>, labels: seq<nat>,
                               encap: nat, blackhole: bool, fault: bool)

  function NhField(f: NhFields, a: Attr): NhFields {
    match a.typ
    case 1 => f.(id := U32(a.payload, f.id))
    case 2 => f.(group := f.group + GroupIds(a.payload))
    case 3 => f.(blackhole := true)
    case 5 => f.(oif := U32(a.payload, f.oif))
    case 6 => f.(gw := a.payload)
    case 7 => f.(encap := U16(a.payload, f.encap))
    case 8 => f.(labels := LastStack(AttrsOf(a.payload).attrs), fault := f.fault || AttrsOf(a.payload).fault)
    case _ => f
  }

  function NhOf(attrs: seq<Attr>): NhFields {
    if attrs == [] then NhFields(0, 0, [], [], [], 0, false, false)
    else NhField(NhOf(attrs[..|attrs| - 1]), attrs[|attrs| - 1])
  }

  datatype RtFields = RtFields(dst: seq<Byte>, gw: seq<Byte>, oif: nat, table: nat, nhid: nat,
                               labels: seq<nat>, encap: nat, fault: bool)

  function RtField(f: RtFields, a: Attr): RtFields {
    match a.typ
    case 1 => f.(dst := a.payload)
    case 4 => f.(oif := U32(a.payload, f.oif))
    case 5 => f.(gw := a.payload)
    case 15 => f.(table := U32(a.payload, f.table))
    case 21 => f.(encap := U16(a.payload, f.encap))
    case 22 => f.(labels := LastStack(AttrsOf(a.payload).attrs), fault := f.fault || AttrsOf(a.payload).fault)
    case 30 => f.(nhid := U32(a.payload, f.nhid))
    case _ => f
  }

  function RtOf(attrs: seq<Attr>): RtFields {
    if attrs == [] then RtFields([], [], 0, 0, 0, [], 0, false)
    else RtField(RtOf(attrs[..|attrs| - 1]), attrs[|attrs| - 1])
  }

  /** Labels are kept only for MPLS encapsulation, or when none is named. */
  function Pushable(labels: seq<nat>, encap: nat): seq<nat> {
    if encap != 0 && encap != ENCAP_MPLS then [] else labels
  }

  // ---- what a message means ----

  /** Go's rendering of addresses and the kernel's table-to-VRF names. */
  datatype Env = Env(ipText: seq<Byte> -> string, vrfName: nat -> string)

  datatype Key = Key(vrf: string, af: string, prefix: string)

  datatype Published = Published(nexthop: string, labels: seq<nat>)

  datatype Message =
    | Ignored
    | Crash                                        // an attribute loop slices past its stream
    | SetNexthop(id: nat, nh: Option<Nexthop>)     // None deletes
    | SetRoute(key: Key, route: Option<Published>) // None deletes

  /** `net.IP.To4`: four bytes, or an IPv4-mapped sixteen; otherwise nil. */
  function To4(ip: seq<Byte>): seq<Byte> {
    if |ip| == 4 then ip
    else if |ip| == 16 && AllZero(ip[..10]) && ip[10] == 255 && ip[11] == 255 then ip[12..]
    else []
  }

  function FormatPrefix(env: Env, family: nat, dst: seq<Byte>, dstLen: nat): Option<(string, string)> {
    if family == 2 then Some((env.ipText(CopyInto(4, To4(dst))) + "/" + Text.Dec(dstLen), "ipv4-unicast"))
    else if family == 10 then Some((env.ipText(CopyInto(16, dst)) + "/" + Text.Dec(dstLen), "ipv6-unicast"))
    else None
  }

  function NexthopMessage(b: seq<Byte>, del: bool): (m: Message)
    ensures !m.SetRoute?
  {
    if |b| < NL_HDR + NH_MSG then Ignored
    else
      var w := AttrsOf(b[NL_HDR + NH_MSG..]);
      var f := NhOf(w.attrs);
      if w.fault || f.fault then Crash
      else if f.id == 0 then Ignored
      else SetNexthop(f.id, if del then None
                            else Some(Nexthop(f.gw, f.oif, f.group, Pushable(f.labels, f.encap), f.blackhole)))
  }

  function RouteMessage(env: Env, t: Table, b: seq<Byte>, del: bool): (m: Message)
    ensures !m.SetNexthop?
  {
    if |b| < NL_HDR + RT_MSG then Ignored
    else
      var rtm := b[NL_HDR..];
      var w := AttrsOf(rtm[RT_MSG..]);
      var f := RtOf(w.attrs);
      if w.fault || f.fault then Crash
      else
        match FormatPrefix(env, rtm[0], f.dst, rtm[1])
        case None => Ignored
        case Some((prefix, af)) =>
          var key := Key(env.vrfName(if f.table != 0 then f.table else rtm[4]), af, prefix);
          SetRoute(key, if del then None else Some(RouteValue(env, t, f, 6 <= rtm[7] <= 8)))
  }

  /** Next hop and labels of a route; a route without a gateway asks its nexthop object. */
  function RouteValue(env: Env, t: Table, f: RtFields, blackhole: bool): Published {
    var own := Pushable(f.labels, f.encap);
    var r := if f.gw == [] && f.nhid != 0 then ResolveNH(t, f.nhid, 0) else Resolution(f.gw, f.oif, false, []);
    Published(
      if blackhole || r.blackhole then "blackhole" else if r.gw != [] then env.ipText(r.gw) else "-",
      if own == [] then r.labels else own)
  }

  function MessageOf(env: Env, t: Table, b: seq<Byte>): Message {
    if |b| < NL_HDR then Ignored
    else
      var typ := Le16(b[4..]);
      if typ == NEW_NEXTHOP then NexthopMessage(b, false)
      else if typ == DEL_NEXTHOP then NexthopMessage(b, true)
      else if typ == NEW_ROUTE then RouteMessage(env, t, b, false)
      else if typ == DEL_ROUTE then RouteMessage(env, t, b, true)
      else Ignored
  }

  // ---- the last-writer reference ----

  /** The nexthop table as a history: per id, the last message that names it. */
  function LastNexthop(msgs: seq<seq<Byte>>, id: nat): Option<Nexthop> {
    if msgs == [] then None
    else
      var before, b := msgs[..|msgs| - 1], msgs[|msgs| - 1];
      match NexthopEffect(b)
      case SetNexthop(i, nh) => if i == id then nh else LastNexthop(before, id)
      case _ => LastNexthop(before, id)
  }

  /** Nexthop messages mean the same whatever the table. */
  function NexthopEffect(b: seq<Byte>): Message {
    if |b| < NL_HDR then Ignored
    else if Le16(b[4..]) == NEW_NEXTHOP then NexthopMessage(b, false)
    else if Le16(b[4..]) == DEL_NEXTHOP then NexthopMessage(b, true)
    else Ignored
  }

  ghost predicate IsTableAfter(msgs: seq<seq<Byte>>, t: Table) {
    forall id :: LastNexthop(msgs, id) == if id in t then Some(t[id]) else None
  }

  function TableAfter(msgs: seq<seq<Byte>>): Table {
    if msgs == [] then map[] else SetNh(TableAfter(msgs[..|msgs| - 1]), NexthopEffect(msgs[|msgs| - 1]))
  }

  function SetNh(t: Table, m: Message): Table {
    match m
    case SetNexthop(id, nh) => if nh.Some? then t[id := nh.value] else t - {id}
    case _ => t
  }

  lemma {:induction false} TableIsLastWriter(msgs: seq<seq<Byte>>)
    ensures IsTableAfter(msgs, TableAfter(msgs))
  {
    hide NexthopEffect;
    if msgs != [] { TableIsLastWriter(msgs[..|msgs| - 1]); }
  }

  /** The published route of `key` as a history: that of the last route message for the
      key, evaluated against the nexthop table at that moment. */
  function LastRoute(env: Env, msgs: seq<seq<Byte>>, key: Key): Option<Published> {
    if msgs == [] then None
    else
      var before, b := msgs[..|msgs| - 1], msgs[|msgs| - 1];
      match MessageOf(env, TableAfter(before), b)
      case SetRoute(k, r) => if k == key then r else LastRoute(env, before, key)
      case _ => LastRoute(env, before, key)
  }

  // ---- what each field of a message comes from ----

  const NHA_ID := 1
  const NHA_GROUP := 2
  const NHA_BLACKHOLE := 3
  const NHA_OIF := 5
  const NHA_GATEWAY := 6
  const NHA_ENCAP_TYPE := 7
  const NHA_ENCAP := 8

  const RTA_DST := 1
  const RTA_GATEWAY := 5
  const RTA_TABLE := 15
  const RTA_ENCAP_TYPE := 21
  const RTA_ENCAP := 22
  const RTA_NH_ID := 30

  /** The payload of the last attribute of a type that is at least `min` bytes long. */
  function LastOf(attrs: seq<Attr>, typ: nat, min: nat): Option<seq<Byte>> {
    if attrs == [] then None
    else
      var a := attrs[|attrs| - 1];
      if a.typ == typ && |a.payload| >= min then Some(a.payload) else LastOf(attrs[..|attrs| - 1], typ, min)
  }

  lemma LastStep(attrs: seq<Attr>, typ: nat, min: nat)
    requires attrs != []
    ensures var init, a := attrs[..|attrs| - 1], attrs[|attrs| - 1];
            LastOf(attrs, typ, min) ==
            if a.typ == typ && |a.payload| >= min then Some(a.payload) else LastOf(init, typ, min)
  {
  }

  function OrEmpty(p: Option<seq<Byte>>): seq<Byte> {
    match p case Some(b) => b case None => []
  }

  function Number32(p: Option<seq<Byte>>): nat {
    match p case Some(b) => if |b| >= 4 then Le32(b) else 0 case None => 0
  }

  function Number16(p: Option<seq<Byte>>): nat {
    match p case Some(b) => if |b| >= 2 then Le16(b) else 0 case None => 0
  }

  /** The labels of an encapsulation attribute. */
  function StackIn(p: Option<seq<Byte>>): seq<nat> {
    match p case Some(b) => LastStack(AttrsOf(b).attrs) case None => []
  }

  /** The ids of all group attributes, in order. */
  function AllGroups(attrs: seq<Attr>): seq<nat> {
    if attrs == [] then []
    else
      var a := attrs[|attrs| - 1];
      AllGroups(attrs[..|attrs| - 1]) + (if a.typ == NHA_GROUP then GroupIds(a.payload) else [])
  }

  predicate CleanEncap(attrs: seq<Attr>, typ: nat) {
    forall i :: 0 <= i < |attrs| && attrs[i].typ == typ ==> !AttrsOf(attrs[i].payload).fault
  }

  /** Every field of a nexthop message is that of the last attribute of its type. */
  lemma {:induction false} NhNumbersAre(attrs: seq<Attr>)
    ensures var f := NhOf(attrs);
            && f.id == Number32(LastOf(attrs, NHA_ID, 4))
            && f.oif == Number32(LastOf(attrs, NHA_OIF, 4))
            && f.encap == Number16(LastOf(attrs, NHA_ENCAP_TYPE, 2))
            && f.group == AllGroups(attrs)
  {
    hide AttrsOf, LastStack, Le32, Le16, GroupIds;
    if attrs != [] {
      NhNumbersAre(attrs[..|attrs| - 1]);
      LastStep(attrs, NHA_ID, 4);
      LastStep(attrs, NHA_OIF, 4);
      LastStep(attrs, NHA_ENCAP_TYPE, 2);
      hide LastOf;
    }
  }

  lemma {:induction false} NhBytesAre(attrs: seq<Attr>)
    ensures var f := NhOf(attrs);
            && f.gw == OrEmpty(LastOf(attrs, NHA_GATEWAY, 0))
            && (f.blackhole <==> LastOf(attrs, NHA_BLACKHOLE, 0).Some?)
            && f.labels == StackIn(LastOf(attrs, NHA_ENCAP, 0))
            && (f.fault <==> !CleanEncap(attrs, NHA_ENCAP))
  {
    hide AttrsOf, LastStack, Le32, Le16, GroupIds;
    if attrs != [] {
      NhBytesAre(attrs[..|attrs| - 1]);
      CleanStep(attrs, NHA_ENCAP);
      hide CleanEncap;
    }
  }

  lemma CleanStep(attrs: seq<Attr>, typ: nat)
    requires attrs != []
    ensures var init, a := attrs[..|attrs| - 1], attrs[|attrs| - 1];
            CleanEncap(attrs, typ) <==> CleanEncap(init, typ) && (a.typ == typ ==> !AttrsOf(a.payload).fault)
  {
    hide AttrsOf;
    var init := attrs[..|attrs| - 1];
    assert attrs == init + [attrs[|attrs| - 1]];
  }

  /** And so is every field of a route message. */
  lemma {:induction false} RtNumbersAre(attrs: seq<Attr>)
    ensures var f := RtOf(attrs);
            && f.oif == Number32(LastOf(attrs, 4, 4))
            && f.table == Number32(LastOf(attrs, RTA_TABLE, 4))
            && f.nhid == Number32(LastOf(attrs, RTA_NH_ID, 4))
            && f.encap == Number16(LastOf(attrs, RTA_ENCAP_TYPE, 2))
  {
    hide AttrsOf, LastStack, Le32, Le16;
    if attrs != [] {
      RtNumbersAre(attrs[..|attrs| - 1]);
      LastStep(attrs, 4, 4);
      LastStep(attrs, RTA_TABLE, 4);
      LastStep(attrs, RTA_NH_ID, 4);
      LastStep(attrs, RTA_ENCAP_TYPE, 2);
      hide LastOf;
    }
  }

  lemma {:induction false} RtBytesAre(attrs: seq<Attr>)
    ensures var f := RtOf(attrs);
            && f.dst == OrEmpty(LastOf(attrs, RTA_DST, 0))
            && f.gw == OrEmpty(LastOf(attrs, RTA_GATEWAY, 0))
            && f.labels == StackIn(LastOf(attrs, RTA_ENCAP, 0))
            && (f.fault <==> !CleanEncap(attrs, RTA_ENCAP))
  {
    hide AttrsOf, LastStack, Le32, Le16;
    if attrs != [] {
      RtBytesAre(attrs[..|attrs| - 1]);
      CleanStep(attrs, RTA_ENCAP);
      hide CleanEncap;
    }
  }

  /** A nexthop message, whatever the order of its attributes, is decoded to the object
      they describe: each field is that of the last attribute of its type. */
  lemma NexthopDecoded(hdr: seq<Byte>, xs: seq<RawAttr>, del: bool)
    requires |hdr| == NL_HDR + NH_MSG && (forall a :: a in xs ==> Sendable(a))
    requires CleanEncap(Plain(xs), NHA_ENCAP)
    ensures var attrs := Plain(xs);
            var id := Number32(LastOf(attrs, NHA_ID, 4));
            var encap := Number16(LastOf(attrs, NHA_ENCAP_TYPE, 2));
            NexthopMessage(hdr + EncodeAll(xs), del) ==
            if id == 0 then Ignored
            else if del then SetNexthop(id, None)
            else SetNexthop(id, Some(Nexthop(
                   OrEmpty(LastOf(attrs, NHA_GATEWAY, 0)), Number32(LastOf(attrs, NHA_OIF, 4)), AllGroups(attrs),
                   if encap in {0, 1} then StackIn(LastOf(attrs, NHA_ENCAP, 0)) else [],
                   LastOf(attrs, NHA_BLACKHOLE, 0).Some?)))
  {
    NhNumbersAre(Plain(xs));
    NhBytesAre(Plain(xs));
    AttrsRoundTrip(xs);
    hide AttrsOf, NhOf, EncodeAll, LastOf, AllGroups, Number32, Number16, StackIn, CleanEncap, OrEmpty;
    assert (hdr + EncodeAll(xs))[NL_HDR + NH_MSG..] == EncodeAll(xs);
  }

  /** A route message, whatever the order of its attributes: unless its family is unknown
      it is filed under its VRF and prefix, with its own gateway, or that of its nexthop
      object, and its own label stack, or that of the object. */
  lemma RouteDecoded(env: Env, t: Table, hdr: seq<Byte>, xs: seq<RawAttr>, del: bool)
    requires |hdr| == NL_HDR + RT_MSG && (forall a :: a in xs ==> Sendable(a))
    requires CleanEncap(Plain(xs), RTA_ENCAP)
    ensures var attrs := Plain(xs);
            var dst, gw := OrEmpty(LastOf(attrs, RTA_DST, 0)), OrEmpty(LastOf(attrs, RTA_GATEWAY, 0));
            var table, nhid := Number32(LastOf(attrs, RTA_TABLE, 4)), Number32(LastOf(attrs, RTA_NH_ID, 4));
            var own := if Number16(LastOf(attrs, RTA_ENCAP_TYPE, 2)) in {0, 1}
                       then StackIn(LastOf(attrs, RTA_ENCAP, 0)) else [];
            var via := if gw == [] && nhid != 0 then ResolveNH(t, nhid, 0) else Resolution(gw, 0, false, []);
            RouteMessage(env, t, hdr + EncodeAll(xs), del) ==
            match FormatPrefix(env, hdr[16], dst, hdr[17])
            case None => Ignored
            case Some((prefix, af)) =>
              SetRoute(Key(env.vrfName(if table != 0 then table else hdr[20]), af, prefix),
                       if del then None
                       else Some(Published(if hdr[23] in {6, 7, 8} || via.blackhole then "blackhole"
                                           else if via.gw != [] then env.ipText(via.gw) else "-",
                                           if own != [] then own else via.labels)))
  {
    RtNumbersAre(Plain(xs));
    RtBytesAre(Plain(xs));
    AttrsRoundTrip(xs);
    hide AttrsOf, RtOf, EncodeAll, LastOf, Number32, Number16, StackIn, CleanEncap, OrEmpty, ResolveNH, FormatPrefix;
    var b := hdr + EncodeAll(xs);
    assert b[NL_HDR..][RT_MSG..] == EncodeAll(xs);
    assert b[NL_HDR..][0] == hdr[16] && b[NL_HDR..][1] == hdr[17];
    assert b[NL_HDR..][4] == hdr[20] && b[NL_HDR..][7] == hdr[23];
  }

  /** A whole address is filed as it stands, an IPv4-mapped one by its last four bytes; a default
      route, which has no address bytes at all, as 0.0.0.0, like any length that is no address. */
  lemma PrefixTexts(env: Env, dst: seq<Byte>, len: nat)
    ensures |dst| == 4 ==>
              FormatPrefix(env, 2, dst, len) == Some((env.ipText(dst) + "/" + Text.Dec(len), "ipv4-unicast"))
    ensures |dst| == 16 ==>
              FormatPrefix(env, 10, dst, len) == Some((env.ipText(dst) + "/" + Text.Dec(len), "ipv6-unicast"))
    ensures |dst| == 16 && (forall i :: 0 <= i < 12 ==> dst[i] == if i < 10 then 0 else 255) ==>
              FormatPrefix(env, 2, dst, len) == Some((env.ipText(dst[12..]) + "/" + Text.Dec(len), "ipv4-unicast"))
    ensures |dst| !in {4, 16} ==>
              FormatPrefix(env, 2, dst, len) == Some((env.ipText([0, 0, 0, 0]) + "/" + Text.Dec(len), "ipv4-unicast"))
  {
    if |dst| == 4 { assert CopyInto(4, To4(dst)) == dst; }
    if |dst| == 16 {
      assert CopyInto(16, dst) == dst;
      assert |To4(dst)| == 4 ==> CopyInto(4, To4(dst)) == To4(dst);
    }
    assert CopyInto(4, []) == [0, 0, 0, 0];
  }

  // ---- the numbers of a message, as the kernel writes them ----

  /** The last attribute of a type that can hold a number holds `n`; 0 when there is none. */
  ghost predicate Carries(attrs: seq<Attr>, typ: nat, n: nat) {
    && n < 0x1_0000_0000
    && match LastOf(attrs, typ, 4)
       case None => n == 0
       case Some(p) => exists tail: seq<Byte> :: p == PutLe32(n) + tail
  }

  lemma CarriedNumber(attrs: seq<Attr>, typ: nat, n: nat)
    requires Carries(attrs, typ, n)
    ensures Number32(LastOf(attrs, typ, 4)) == n
  {
    hide LastOf, Le32;
    if LastOf(attrs, typ, 4).Some? {
      var tail: seq<Byte> :| LastOf(attrs, typ, 4).value == PutLe32(n) + tail;
      Le32RoundTrip(n, tail);
    }
  }

  /** A member of a nexthop group: its id, then its weight and three bytes of no interest. */
  datatype Member = Member(id: nat, weight: seq<Byte>)

  predicate ValidMember(m: Member) {
    m.id < 0x1_0000_0000 && |m.weight| == 4
  }

  function EncodeGroup(ms: seq<Member>): seq<Byte>
    requires forall m :: m in ms ==> ValidMember(m)
  {
    if ms == [] then [] else assert ValidMember(ms[0]); PutLe32(ms[0].id) + ms[0].weight + EncodeGroup(ms[1..])
  }

  function Ids(ms: seq<Member>): (r: seq<nat>)
    ensures |r| == |ms| && forall i :: 0 <= i < |ms| ==> r[i] == ms[i].id
  {
    seq(|ms|, i requires 0 <= i < |ms| => ms[i].id)
  }

  lemma MemberStep(m: Member, rest: seq<Byte>)
    requires ValidMember(m)
    ensures GroupIds(PutLe32(m.id) + m.weight + rest) == [m.id] + GroupIds(rest)
  {
    hide Le32, PutLe32;
    var b := PutLe32(m.id) + m.weight + rest;
    assert b == PutLe32(m.id) + (m.weight + rest) && b[8..] == rest;
    Le32RoundTrip(m.id, m.weight + rest);
  }

  /** A group attribute gives its member ids back, in order; up to seven more bytes are ignored. */
  lemma {:induction false} GroupRoundTrip(ms: seq<Member>, tail: seq<Byte>)
    requires (forall m :: m in ms ==> ValidMember(m)) && |tail| < 8
    ensures GroupIds(EncodeGroup(ms) + tail) == Ids(ms)
  {
    if ms == [] {
      assert EncodeGroup(ms) + tail == tail;
    } else {
      hide PutLe32, GroupIds;
      assert ValidMember(ms[0]);
      var rest := EncodeGroup(ms[1..]) + tail;
      assert EncodeGroup(ms) + tail == PutLe32(ms[0].id) + ms[0].weight + rest;
      MemberStep(ms[0], rest);
      GroupRoundTrip(ms[1..], tail);
      assert Ids(ms) == [ms[0].id] + Ids(ms[1..]);
    }
  }

  /** One attribute is a group, of the members `ms`; none is when there are no members. */
  ghost predicate HoldsGroup(attrs: seq<Attr>, ms: seq<Member>)
    requires forall m :: m in ms ==> ValidMember(m)
  {
    if forall i :: 0 <= i < |attrs| ==> attrs[i].typ != 2 then ms == []
    else exists i :: 0 <= i < |attrs| && attrs[i] == Attr(2, EncodeGroup(ms)) &&
                     forall j :: 0 <= j < |attrs| && j != i ==> attrs[j].typ != 2
  }

  lemma {:induction false} NoGroups(attrs: seq<Attr>)
    requires forall i :: 0 <= i < |attrs| ==> attrs[i].typ != 2
    ensures AllGroups(attrs) == []
  {
    if attrs != [] { NoGroups(attrs[..|attrs| - 1]); }
  }

  lemma {:induction false} OneGroup(attrs: seq<Attr>, i: nat)
    requires i < |attrs| && attrs[i].typ == 2 && forall j :: 0 <= j < |attrs| && j != i ==> attrs[j].typ != 2
    ensures AllGroups(attrs) == GroupIds(attrs[i].payload)
  {
    hide GroupIds;
    var n := |attrs| - 1;
    if i == n { NoGroups(attrs[..n]); } else { OneGroup(attrs[..n], i); }
  }

  lemma HeldGroup(attrs: seq<Attr>, ms: seq<Member>)
    requires (forall m :: m in ms ==> ValidMember(m)) && HoldsGroup(attrs, ms)
    ensures AllGroups(attrs) == Ids(ms)
  {
    hide AllGroups, GroupIds, EncodeGroup;
    if forall i :: 0 <= i < |attrs| ==> attrs[i].typ != 2 {
      NoGroups(attrs);
    } else {
      var i :| 0 <= i < |attrs| && attrs[i] == Attr(2, EncodeGroup(ms)) &&
               forall j :: 0 <= j < |attrs| && j != i ==> attrs[j].typ != 2;
      OneGroup(attrs, i);
      assert EncodeGroup(ms) + [] == EncodeGroup(ms);
      GroupRoundTrip(ms, []);
    }
  }

  /** A nexthop message, new or deleted, with its id, interface and group as the kernel writes
      them. */
  lemma NexthopOnWire(env: Env, t: Table, hdr: seq<Byte>, xs: seq<RawAttr>, id: nat, oif: nat, ms: seq<Member>)
    requires |hdr| == 24 && hdr[4] in {104, 105} && hdr[5] == 0 && (forall a :: a in xs ==> Sendable(a))
    requires CleanEncap(Plain(xs), 8)
    requires Carries(Plain(xs), 1, id) && id != 0 && Carries(Plain(xs), 5, oif)
    requires (forall m :: m in ms ==> ValidMember(m)) && HoldsGroup(Plain(xs), ms)
    ensures var m := MessageOf(env, t, hdr + EncodeAll(xs));
            && m.SetNexthop? && m.id == id && (m.nh.Some? <==> hdr[4] == 104)
            && (m.nh.Some? ==>
                  && m.nh.value.oif == oif && m.nh.value.group == Ids(ms)
                  && m.nh.value.gw == OrEmpty(LastOf(Plain(xs), 6, 0))
                  && (m.nh.value.blackhole <==> LastOf(Plain(xs), 3, 0).Some?)
                  && m.nh.value.labels ==
                     if Number16(LastOf(Plain(xs), 7, 2)) in {0, 1} then StackIn(LastOf(Plain(xs), 8, 0)) else [])
  {
    hide CleanEncap, AllGroups, HoldsGroup, Carries, LastOf, Number32, NexthopMessage;
    CarriedNumber(Plain(xs), 1, id);
    CarriedNumber(Plain(xs), 5, oif);
    HeldGroup(Plain(xs), ms);
    NexthopDecoded(hdr, xs, hdr[4] == 105);
    TypeOf(hdr, EncodeAll(xs));
  }

  lemma TypeOf(hdr: seq<Byte>, rest: seq<Byte>)
    requires |hdr| >= NL_HDR
    ensures var b := hdr + rest; |b| >= NL_HDR && Le16(b[4..]) == (hdr[5] as int) * 256 + hdr[4]
  {
    var b := hdr + rest;
    assert b[4..][0] == hdr[4] && b[4..][1] == hdr[5];
  }

  /** A route message, new or deleted, with its table and nexthop id as the kernel writes them: it is filed under
      the VRF of its table attribute, or of the table byte of its header without one, and what
      it has no gateway for comes from the nexthop object with that id. */
  lemma RouteOnWire(env: Env, t: Table, hdr: seq<Byte>, xs: seq<RawAttr>, table: nat, nhid: nat)
    requires |hdr| == 28 && hdr[4] in {24, 25} && hdr[5] == 0 && (forall a :: a in xs ==> Sendable(a))
    requires CleanEncap(Plain(xs), 22) && Carries(Plain(xs), 15, table) && Carries(Plain(xs), 30, nhid)
    requires hdr[16] == 2 || hdr[16] == 10
    ensures var m := MessageOf(env, t, hdr + EncodeAll(xs));
            var dst, gw := OrEmpty(LastOf(Plain(xs), 1, 0)), OrEmpty(LastOf(Plain(xs), 5, 0));
            var own := if Number16(LastOf(Plain(xs), 21, 2)) in {0, 1} then StackIn(LastOf(Plain(xs), 22, 0)) else [];
            && m.SetRoute? && (m.route.Some? <==> hdr[4] == 24)
            && m.key.vrf == env.vrfName(if table != 0 then table else hdr[20])
            && Some((m.key.prefix, m.key.af)) == FormatPrefix(env, hdr[16], dst, hdr[17])
            && (m.route.Some? ==>
                  var via := ResolveNH(t, nhid, 0);
                  m.route.value.nexthop ==
                  if hdr[23] in {6, 7, 8} then "blackhole"
                  else if gw != [] then env.ipText(gw)
                  else if nhid == 0 then "-"
                  else if via.blackhole then "blackhole"
                  else if via.gw != [] then env.ipText(via.gw)
                  else "-")
            && (m.route.Some? ==>
                  m.route.value.labels ==
                  if own == [] && gw == [] && nhid != 0 then ResolveNH(t, nhid, 0).labels else own)
  {
    hide CleanEncap, Carries, LastOf, Number32, Number16, StackIn, RouteMessage, ResolveNH;
    CarriedNumber(Plain(xs), 15, table);
    CarriedNumber(Plain(xs), 30, nhid);
    RouteDecoded(env, t, hdr, xs, hdr[4] == 25);
    TypeOf(hdr, EncodeAll(xs));
  }

  lemma RtOfSnoc(attrs: seq<Attr>, a: Attr)
    ensures RtOf(attrs + [a]) == RtField(RtOf(attrs), a)
  {
    assert (attrs + [a])[..|attrs|] == attrs;
  }

  /** An attribute of four bytes. */
  lemma FourBytes(typ: Byte, p: seq<Byte>, rest: seq<Byte>)
    requires |p| == 4
    ensures AttrsOf([8, 0, typ, 0] + p + rest) == After([Attr(typ, p)], AttrsOf(rest))
  {
    var b := [8, 0, typ, 0] + p + rest;
    assert b[2..][0] == typ && b[2..][1] == 0 && b[4..8] == p && b[8..] == rest;
  }

  lemma ExampleAttrs(dst: seq<Byte>, table: seq<Byte>, gw: seq<Byte>)
    requires |dst| == |table| == |gw| == 4
    ensures AttrsOf([8, 0, 1, 0] + dst + ([8, 0, 15, 0] + table + ([8, 0, 5, 0] + gw + []))) ==
            Walk([Attr(1, dst)] + [Attr(15, table)] + [Attr(5, gw)], false)
    ensures RtOf([Attr(1, dst)] + [Attr(15, table)] + [Attr(5, gw)]) ==
            RtFields(dst, gw, 0, Le32(table), 0, [], 0, false)
  {
    hide *;
    var third := [8, 0, 5, 0] + gw + [];
    var second := [8, 0, 15, 0] + table + third;
    FourBytes(5, gw, []);
    FourBytes(15, table, third);
    FourBytes(1, dst, second);
    WalkStep([]);
    WalksChain([Attr(1, dst)], [Attr(15, table)], [Attr(5, gw)]);
    FieldsOfThree(dst, table, gw);
  }

  lemma WalksChain(a: seq<Attr>, b: seq<Attr>, c: seq<Attr>)
    ensures After(a, After(b, After(c, Walk([], false)))) == Walk(a + b + c, false)
  {
    assert a + (b + (c + [])) == a + b + c;
  }

  lemma FieldsOfThree(dst: seq<Byte>, table: seq<Byte>, gw: seq<Byte>)
    requires |table| == 4
    ensures RtOf([Attr(1, dst)] + [Attr(15, table)] + [Attr(5, gw)]) ==
            RtFields(dst, gw, 0, Le32(table), 0, [], 0, false)
  {
    hide AttrsOf, RtOf, Le32;
    RtOfSnoc([], Attr(1, dst));
    RtOfSnoc([Attr(1, dst)], Attr(15, table));
    RtOfSnoc([Attr(1, dst)] + [Attr(15, table)], Attr(5, gw));
    assert RtOf([]) == RtFields([], [], 0, 0, 0, [], 0, false) by { NoFields(); }
    assert [] + [Attr(1, dst)] == [Attr(1, dst)];
  }

  lemma NoFields()
    ensures RtOf([]) == RtFields([], [], 0, 0, 0, [], 0, false)
  {
  }

  lemma TenAsBytes()
    ensures PutLe32(10) == [10, 0, 0, 0]
  {
  }

  /** The new route 10.0.0.0/8 via 10.1.1.1 in table 10: a header that says so and three attributes,
      byte for byte. */
  lemma RouteExample(env: Env, t: Table, hdr: seq<Byte>)
    requires |hdr| == 28 && hdr[4] == 24 && hdr[5] == 0 && hdr[16] == 2 && hdr[17] == 8 && hdr[23] == 1
    ensures MessageOf(env, t, hdr + ([8, 0, 1, 0] + [10, 0, 0, 0] +
                                     ([8, 0, 15, 0] + [10, 0, 0, 0] + ([8, 0, 5, 0] + [10, 1, 1, 1] + [])))) ==
            SetRoute(Key(env.vrfName(10), "ipv4-unicast", env.ipText([10, 0, 0, 0]) + "/" + Text.Dec(8)),
                     Some(Published(env.ipText([10, 1, 1, 1]), [])))
  {
    hide *;
    var dst: seq<Byte>, gw: seq<Byte> := [10, 0, 0, 0], [10, 1, 1, 1];
    assert dst == PutLe32(10) + [] by { TenAsBytes(); }
    Le32RoundTrip(10, []);
    ExampleAttrs(dst, dst, gw);
    ExampleRoute(env, t, hdr, dst, gw, [8, 0, 1, 0] + dst + ([8, 0, 15, 0] + dst + ([8, 0, 5, 0] + gw + [])));
  }

  lemma ExampleRoute(env: Env, t: Table, hdr: seq<Byte>, dst: seq<Byte>, gw: seq<Byte>, b: seq<Byte>)
    requires |hdr| == 28 && hdr[4] == 24 && hdr[5] == 0 && hdr[16] == 2 && hdr[17] == 8 && hdr[23] == 1
    requires |dst| == |gw| == 4
    requires !AttrsOf(b).fault && RtOf(AttrsOf(b).attrs) == RtFields(dst, gw, 0, 10, 0, [], 0, false)
    ensures MessageOf(env, t, hdr + b) ==
            SetRoute(Key(env.vrfName(10), "ipv4-unicast", env.ipText(dst) + "/" + Text.Dec(8)),
                     Some(Published(env.ipText(gw), [])))
  {
    hide AttrsOf, RtOf, FormatPrefix, MessageOf;
    assert hdr[4..][0] == 24 && hdr[4..][1] == 0;
    PrefixTexts(env, dst, 8);
    RouteHeader(env, t, hdr, b);
  }

  // ---- a label stack from the wire to the tracer ----

  /** The route's encapsulation, the last of its kind, is the nested MPLS stack `es`. */
  ghost predicate Encapsulates(xs: seq<RawAttr>, flags: nat, es: seq<Entry>) {
    && flags < 4 && es != [] && (forall e :: e in es ==> ValidEntry(e)) && 4 * |es| < 0x1_0000 - 8
    && (forall a :: a in xs ==> Sendable(a))
    && CleanEncap(Plain(xs), RTA_ENCAP)
    && LastOf(Plain(xs), RTA_ENCAP, 0) == Some(EncodeAll([RawAttr(flags, 1, EncodeStack(es), [])]))
    && Number16(LastOf(Plain(xs), RTA_ENCAP_TYPE, 2)) in {0, 1}
  }

  lemma NestedStack(flags: nat, es: seq<Entry>)
    requires flags < 4 && es != [] && (forall e :: e in es ==> ValidEntry(e)) && 4 * |es| < 0x1_0000 - 8
    ensures var w := AttrsOf(EncodeAll([RawAttr(flags, 1, EncodeStack(es), [])]));
            !w.fault && LastStack(w.attrs) == Labels(es)
  {
    hide AttrsOf, EncodeAll, EncodeStack, StackOf;
    var stack := EncodeStack(es);
    assert stack + [] == stack;
    StackRoundTrip(es, []);
    AttrsRoundTrip([RawAttr(flags, MPLS_DST, stack, [])]);
    assert Plain([RawAttr(flags, MPLS_DST, stack, [])]) == [Attr(MPLS_DST, stack)];
    assert LastStack([Attr(MPLS_DST, stack)]) == StackOf(stack);
  }

  /** The bytes of a new-route message: a Netlink and a route header, then attributes. */
  function RouteBytes(hdr: seq<Byte>, xs: seq<RawAttr>): seq<Byte>
    requires |hdr| == NL_HDR + RT_MSG && forall a :: a in xs ==> Sendable(a)
  {
    hdr + EncodeAll(xs)
  }

  /** A label stack put on a route reaches the tracer whole: the message is decoded
      without leaving the stream, and the published leaf, split on commas, lists the same
      labels in the same order, top of stack first. */
  lemma LabelsEndToEnd(env: Env, t: Table, hdr: seq<Byte>, xs: seq<RawAttr>, flags: nat, es: seq<Entry>)
    requires |hdr| == NL_HDR + RT_MSG && Le16(hdr[4..]) == NEW_ROUTE && (hdr[16] == 2 || hdr[16] == 10)
    requires Encapsulates(xs, flags, es)
    ensures var m := MessageOf(env, t, RouteBytes(hdr, xs));
            && m.SetRoute? && m.route.Some? && m.route.value.labels == Labels(es)
            && forall c: Cache :: Shows(c, m.key, m.route) ==>
                 && (m.key, PushedLabels) in c
                 && var parts := Text.Split(c[(m.key, PushedLabels)], ',');
                    (forall p :: p in parts ==> Text.IsNumber(p)) && Numbers(parts) == Labels(es)
  {
    var b := RouteBytes(hdr, xs);
    AttrsRoundTrip(xs);
    NestedStack(flags, es);
    RtNumbersAre(Plain(xs));
    RtBytesAre(Plain(xs));
    CsvRoundTrip(Labels(es));
    RouteHeader(env, t, hdr, EncodeAll(xs));
    hide MessageOf, AttrsOf, EncodeAll, RtOf, Csv, Text.Split, FormatPrefix, LastOf, CleanEncap, LastStack;
    var m := MessageOf(env, t, b);
    forall c: Cache | Shows(c, m.key, m.route)
      ensures (m.key, PushedLabels) in c && c[(m.key, PushedLabels)] == Csv(Labels(es))
    {
      assert CachedAt(c, m.key, PushedLabels) == Some(Csv(Labels(es)));
    }
  }

  lemma RouteHeader(env: Env, t: Table, hdr: seq<Byte>, attrs: seq<Byte>)
    requires |hdr| == NL_HDR + RT_MSG && Le16(hdr[4..]) == NEW_ROUTE && (hdr[16] == 2 || hdr[16] == 10)
    requires !AttrsOf(attrs).fault && !RtOf(AttrsOf(attrs).attrs).fault
    ensures var f := RtOf(AttrsOf(attrs).attrs);
            var m := MessageOf(env, t, hdr + attrs);
            && m.SetRoute? && m.route == Some(RouteValue(env, t, f, 6 <= hdr[23] <= 8))
            && m.key.vrf == env.vrfName(if f.table != 0 then f.table else hdr[20])
            && Some((m.key.prefix, m.key.af)) == FormatPrefix(env, hdr[16], f.dst, hdr[17])
  {
    var b := hdr + attrs;
    assert b[4..][0] == hdr[4..][0] && b[4..][1] == hdr[4..][1];
    assert b[NL_HDR..][RT_MSG..] == attrs;
    assert b[NL_HDR..][0] == hdr[16] && b[NL_HDR..][1] == hdr[17];
    assert b[NL_HDR..][4] == hdr[20] && b[NL_HDR..][7] == hdr[23];
  }

  // ---- the cache ----

  datatype LeafName = NextHop | PushedLabels

  type Cache = map<(Key, LeafName), string>

  function CachedAt(c: Cache, key: Key, leaf: LeafName): Option<string> {
    if (key, leaf) in c then Some(c[(key, leaf)]) else None
  }

  /** The two leaves of a route; the label leaf exists only for a non-empty stack. */
  ghost predicate Shows(c: Cache, key: Key, r: Option<Published>) {
    && CachedAt(c, key, NextHop) == (match r case None => None case Some(p) => Some(p.nexthop))
    && CachedAt(c, key, PushedLabels) ==
       (match r case None => None case Some(p) => if p.labels == [] then None else Some(Csv(p.labels)))
  }

  /** Every key shows its last route message. */
  ghost predicate Refines(env: Env, msgs: seq<seq<Byte>>, c: Cache) {
    forall key :: Shows(c, key, LastRoute(env, msgs, key))
  }

  lemma RefinesStep(env: Env, msgs: seq<seq<Byte>>, b: seq<Byte>, c: Cache, c': Cache)
    requires Refines(env, msgs, c)
    requires match MessageOf(env, TableAfter(msgs), b)
             case SetRoute(k, r) =>
               Shows(c', k, r) && forall key, leaf :: key != k ==> CachedAt(c', key, leaf) == CachedAt(c, key, leaf)
             case _ => c' == c
    ensures Refines(env, msgs + [b], c')
  {
    hide MessageOf, Csv;
    var all := msgs + [b];
    assert all[..|msgs|] == msgs;
    forall key ensures Shows(c', key, LastRoute(env, all, key)) {
      assert Shows(c, key, LastRoute(env, msgs, key));
    }
  }

  // ---- the collector ----

  class Collector {
    const env: Env
    var nh: Table
    var cache: Cache
    ghost var msgs: seq<seq<Byte>>

    constructor (env: Env)
      ensures Valid() && this.env == env && msgs == []
    {
      this.env, nh, cache, msgs := env, map[], map[], [];
    }

    /** The table and the cache are those of the last-writer histories. */
    ghost predicate Valid()
      reads this
    {
      nh == TableAfter(msgs) && Refines(env, msgs, cache)
    }

    /** `ok` is false when an attribute loop leaves its stream; nothing has changed then. */
    method HandleNetlink(b: seq<Byte>) returns (ok: bool)
      requires Valid()
      modifies this
      ensures Valid()
      ensures ok <==> !MessageOf(env, old(nh), b).Crash?
      ensures msgs == if ok then old(msgs) + [b] else old(msgs)
      ensures !ok ==> nh == old(nh) && cache == old(cache)
    {
      hide Refines, NexthopMessage, RouteMessage, Shows, CachedAt;
      ghost var c := cache;
      assert (msgs + [b])[..|msgs|] == msgs;
      if |b| < NL_HDR {
        ok := true;
      } else {
        var typ := Le16(b[4..]);
        if typ == NEW_NEXTHOP {
          ok := HandleNexthop(b, false);
        } else if typ == DEL_NEXTHOP {
          ok := HandleNexthop(b, true);
        } else if typ == NEW_ROUTE {
          ok := HandleRoute(b, false);
        } else if typ == DEL_ROUTE {
          ok := HandleRoute(b, true);
        } else {
          ok := true;
        }
      }
      if ok {
        RefinesStep(env, msgs, b, c, cache);
        msgs := msgs + [b];
      }
    }

    method HandleNexthop(b: seq<Byte>, del: bool) returns (ok: bool)
      modifies this`nh
      ensures var m := NexthopMessage(b, del); ok == !m.Crash? && nh == SetNh(old(nh), m)
    {
      if |b| < NL_HDR + NH_MSG { return true; }
      var w := ForEachAttr(b[NL_HDR + NH_MSG..]);
      var f := NexthopFields(w.attrs);
      if w.fault || f.fault { return false; }
      ok := true;
      if f.id == 0 { return; }
      var labels := f.labels;
      if f.encap != 0 && f.encap != ENCAP_MPLS { labels := []; }
      if del {
        nh := nh - {f.id};
      } else {
        nh := nh[f.id := Nexthop(f.gw, f.oif, f.group, labels, f.blackhole)];
      }
    }

    /** The attribute callback of the nexthop handler. */
    method NexthopFields(attrs: seq<Attr>) returns (f: NhFields)
      ensures f == NhOf(attrs)
    {
      f := NhOf([]);
      for i := 0 to |attrs|
        invariant f == NhOf(attrs[..i])
      {
        assert attrs[..i + 1][..i] == attrs[..i];
        var p := attrs[i].payload;
        match attrs[i].typ {
          case 1 => if |p| >= 4 { f := f.(id := Le32(p)); }
          case 2 =>
            var ids := ReadGroup(p);
            f := f.(group := f.group + ids);
          case 3 => f := f.(blackhole := true);
          case 5 => if |p| >= 4 { f := f.(oif := Le32(p)); }
          case 6 => f := f.(gw := p);
          case 7 => if |p| >= 2 { f := f.(encap := Le16(p)); }
          case 8 =>
            var labels, fault := ParseMplsEncap(p);
            f := f.(labels := labels, fault := f.fault || fault);
          case _ =>
        }
      }
      assert attrs[..|attrs|] == attrs;
    }

    /** The ids of an array of 8-byte group members. */
    method ReadGroup(b: seq<Byte>) returns (ids: seq<nat>)
      ensures ids == GroupIds(b)
    {
      ids := [];
      var p := b;
      while |p| >= 8
        invariant GroupIds(b) == ids + GroupIds(p)
        decreases |p|
      {
        assert ids + GroupIds(p) == ids + [Le32(p)] + GroupIds(p[8..]);
        ids := ids + [Le32(p)];
        p := p[8..];
      }
    }

    method HandleRoute(b: seq<Byte>, del: bool) returns (ok: bool)
      modifies this`cache
      ensures ok == !RouteMessage(env, nh, b, del).Crash?
      ensures match RouteMessage(env, nh, b, del)
              case SetRoute(k, r) =>
                && Shows(cache, k, r)
                && forall key, leaf :: key != k ==> CachedAt(cache, key, leaf) == CachedAt(old(cache), key, leaf)
              case _ => cache == old(cache)
    {
      if |b| < NL_HDR + RT_MSG { return true; }
      var rtm := b[NL_HDR..];
      var w := ForEachAttr(rtm[RT_MSG..]);
      var f := RouteFields(w.attrs);
      if w.fault || f.fault { return false; }
      ok := true;
      var table: nat := rtm[4];
      if f.table != 0 { table := f.table; }
      var pushLabels := f.labels;
      if f.encap != 0 && f.encap != ENCAP_MPLS { pushLabels := []; }
      var formatted := FormatPrefix(env, rtm[0], f.dst, rtm[1]);
      if formatted == None { return; }
      var blackhole := rtm[7] == 6 || rtm[7] == 7 || rtm[7] == 8;
      var gw := f.gw;
      if gw == [] && f.nhid != 0 {
        var r := ResolveNH(nh, f.nhid, 0);
        gw := r.gw;
        blackhole := blackhole || r.blackhole;
        if pushLabels == [] { pushLabels := r.labels; }
      }
      var nhStr := "-";
      if blackhole {
        nhStr := "blackhole";
      } else if gw != [] {
        nhStr := env.ipText(gw);
      }
      var key := Key(env.vrfName(table), formatted.value.1, formatted.value.0);
      ghost var m := RouteMessage(env, nh, b, del);
      assert m == SetRoute(key, if del then None else Some(Published(nhStr, pushLabels)));
      Publish(key, del, nhStr, pushLabels);
    }

    /** The attribute callback of the route handler. */
    method RouteFields(attrs: seq<Attr>) returns (f: RtFields)
      ensures f == RtOf(attrs)
    {
      f := RtOf([]);
      for i := 0 to |attrs|
        invariant f == RtOf(attrs[..i])
      {
        assert attrs[..i + 1][..i] == attrs[..i];
        var p := attrs[i].payload;
        match attrs[i].typ {
          case 1 => f := f.(dst := p);
          case 4 => if |p| >= 4 { f := f.(oif := Le32(p)); }
          case 5 => f := f.(gw := p);
          case 15 => if |p| >= 4 { f := f.(table := Le32(p)); }
          case 21 => if |p| >= 2 { f := f.(encap := Le16(p)); }
          case 22 =>
            var labels, fault := ParseMplsEncap(p);
            f := f.(labels := labels, fault := f.fault || fault);
          case 30 => if |p| >= 4 { f := f.(nhid := Le32(p)); }
          case _ =>
        }
      }
      assert attrs[..|attrs|] == attrs;
    }

    /** Delete both leaves, or write the next hop and write or clear the label stack. */
    method Publish(key: Key, del: bool, nhStr: string, labels: seq<nat>)
      modifies this`cache
      ensures Shows(cache, key, if del then None else Some(Published(nhStr, labels)))
      ensures forall k, leaf :: k != key ==> CachedAt(cache, k, leaf) == CachedAt(old(cache), k, leaf)
    {
      if del {
        cache := cache - {(key, NextHop), (key, PushedLabels)};
        return;
      }
      if |labels| > 0 {
        var csv := LabelsCsv(labels);
        cache := cache[(key, NextHop) := nhStr][(key, PushedLabels) := csv];
      } else {
        cache := cache - {(key, PushedLabels)};
        cache := cache[(key, NextHop) := nhStr];
      }
    }
  }
}
