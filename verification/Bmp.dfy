/** The control-plane collector: BMP route-monitoring and peer messages (RFC 7854) keep
    the cached L3VPN routes, the neighbor sessions, and the learned names of route
    distinguishers. */
module Bmp {
  import opened Bytes
  import opened Options
  import opened RouteText
  import opened Bgp
  import Text

  const PER_PEER := 42

  /** Go's rendering of an IP address of any length. */
  datatype Env = Env(ipText: seq<Byte> -> string)

  datatype Peer = Peer(addr: seq<Byte>, asn: nat, rd: string)

  /** The per-peer header, section 4.2 of RFC 7854. */
  function PerPeer(body: seq<Byte>): Option<Peer> {
    if |body| < PER_PEER then None
    else
      Some(Peer(
        if body[1] / 128 == 1 then body[10..26] else body[22..26],
        Be32(body[26..]),
        if AllZero(body[2..10]) then "" else FormatRD(body[2..10])))
  }

  /** `net.IP.IsUnspecified`: all zero, also in the IPv4-mapped form. */
  predicate IsUnspecified(ip: seq<Byte>) {
    || AllZero(ip)
    || (|ip| == 16 && AllZero(ip[..10]) && ip[10] == 255 && ip[11] == 255 && AllZero(ip[12..]))
  }

  // ---- the per-peer header on the wire ----

  /** The header of section 4.2 of RFC 7854: an IPv4 address stands last in its sixteen bytes. */
  datatype PeerHeader = PeerHeader(typ: Byte, flags: nat, rd: seq<Byte>, addr: seq<Byte>, asn: nat,
                                   id: seq<Byte>, time: seq<Byte>)

  predicate ValidHeader(h: PeerHeader) {
    && h.flags < 128 && |h.rd| == 8 && (|h.addr| == 4 || |h.addr| == 16) && h.asn < 0x1_0000_0000
    && |h.id| == 4 && |h.time| == 8
  }

  /** The top flag says that the address is an IPv6 one. */
  function FlagByte(h: PeerHeader): (f: Byte)
    requires ValidHeader(h)
  {
    if |h.addr| == 16 then 128 + h.flags else h.flags
  }

  function AddressPad(h: PeerHeader): seq<Byte> {
    if |h.addr| == 16 then [] else [0, 0, 0, 0, 0, 0, 0, 0, 0, 0, 0, 0]
  }

  function EncodeHeader(h: PeerHeader): (b: seq<Byte>)
    requires ValidHeader(h)
    ensures |b| == 42
  {
    [h.typ, FlagByte(h)] + h.rd + AddressPad(h) + h.addr + PutBe32(h.asn) + h.id + h.time
  }

  /** The header of any message gives address, AS number and distinguisher back; a distinguisher
      of zeros stands for none. */
  lemma HeaderRoundTrip(h: PeerHeader, rest: seq<Byte>)
    requires ValidHeader(h)
    ensures PerPeer(EncodeHeader(h) + rest) ==
            Some(Peer(h.addr, h.asn, if h.rd == [0, 0, 0, 0, 0, 0, 0, 0] then "" else FormatRD(h.rd)))
  {
    hide FormatRD, Be32, PutBe32, AllZero, FlagByte, AddressPad, EncodeHeader, PerPeer;
    HeaderIs(h, rest);
    var pad, asn, tail := AddressPad(h), PutBe32(h.asn), h.id + h.time + rest;
    var head: seq<Byte> := [h.typ, FlagByte(h)];
    HeaderParts(head, h.rd, pad, h.addr, asn, tail);
    Be32Append(asn, tail);
    PeerIn(head + h.rd + pad + h.addr + asn + tail, h);
    NoDistinguisher(h.rd);
  }

  lemma HeaderIs(h: PeerHeader, rest: seq<Byte>)
    requires ValidHeader(h)
    ensures |h.rd| == 8 && |h.addr| in {4, 16} && |AddressPad(h)| == 16 - |h.addr| && h.asn < 0x1_0000_0000
    ensures EncodeHeader(h) + rest ==
            [h.typ, FlagByte(h)] + h.rd + AddressPad(h) + h.addr + PutBe32(h.asn) + (h.id + h.time + rest)
  {
    var front := [h.typ, FlagByte(h)] + h.rd + AddressPad(h) + h.addr + PutBe32(h.asn);
    hide PutBe32;
    assert EncodeHeader(h) == front + h.id + h.time;
    assert front + h.id + h.time + rest == front + (h.id + h.time + rest);
  }

  lemma HeaderParts(head: seq<Byte>, rd: seq<Byte>, pad: seq<Byte>, addr: seq<Byte>, asn: seq<Byte>, tail: seq<Byte>)
    requires |head| == 2 && |rd| == 8 && |addr| in {4, 16} && |pad| == 16 - |addr| && |asn| == 4 && |tail| >= 12
    ensures var body := head + rd + pad + addr + asn + tail;
            && |body| >= 42 && body[1] == head[1] && body[2..10] == rd
            && body[26 - |addr|..26] == addr && body[26..] == asn + tail
  {
    var body := head + rd + pad + addr + asn + tail;
    var front := head + rd + pad;
    PartAt(head, rd, pad + addr + asn + tail);
    assert body == head + (rd + (pad + addr + asn + tail));
    PartAt(front, addr, asn + tail);
    assert body == front + (addr + (asn + tail));
  }

  lemma PartAt(a: seq<Byte>, b: seq<Byte>, c: seq<Byte>)
    ensures var s := a + (b + c); s[|a|..|a| + |b|] == b && s[|a| + |b|..] == c
  {
  }

  /** What is read of a body that holds the header's fields in their places. */
  lemma PeerIn(body: seq<Byte>, h: PeerHeader)
    requires ValidHeader(h) && |body| >= PER_PEER
    requires body[1] == FlagByte(h) && body[2..10] == h.rd && body[26 - |h.addr|..26] == h.addr
    requires Be32(body[26..]) == h.asn
    ensures PerPeer(body) == Some(Peer(h.addr, h.asn, if AllZero(h.rd) then "" else FormatRD(h.rd)))
  {
    hide FormatRD, Be32, AllZero;
  }

  lemma NoDistinguisher(rd: seq<Byte>)
    requires |rd| == 8
    ensures AllZero(rd) <==> rd == [0, 0, 0, 0, 0, 0, 0, 0]
  {
  }

  /** The addresses that are no neighbor's. */
  lemma UnspecifiedIff(ip: seq<Byte>)
    requires |ip| == 4 || |ip| == 16
    ensures IsUnspecified(ip) <==>
            || (forall i :: 0 <= i < |ip| ==> ip[i] == 0)
            || (|ip| == 16 && ip == [0, 0, 0, 0, 0, 0, 0, 0, 0, 0, 255, 255, 0, 0, 0, 0])
  {
    if |ip| == 16 {
      ZeroSlice(ip, 0, 10);
      ZeroSlice(ip, 12, 16);
      assert ip[..10] == ip[0..10] && ip[12..] == ip[12..16];
      MappedZero(ip);
    }
  }

  lemma ZeroSlice(b: seq<Byte>, i: nat, j: nat)
    requires i <= j <= |b|
    ensures AllZero(b[i..j]) <==> forall k :: i <= k < j ==> b[k] == 0
  {
    if AllZero(b[i..j]) {
      forall k | i <= k < j ensures b[k] == 0 { assert b[i..j][k - i] == 0; }
    }
  }

  lemma MappedZero(ip: seq<Byte>)
    requires |ip| == 16
    ensures ip == [0, 0, 0, 0, 0, 0, 0, 0, 0, 0, 255, 255, 0, 0, 0, 0] <==>
            (forall k :: 0 <= k < 10 ==> ip[k] == 0) && ip[10] == ip[11] == 255 &&
            (forall k :: 12 <= k < 16 ==> ip[k] == 0)
  {
  }

  // ---- routes ----

  type RouteKey = (string, string)  // route distinguisher, prefix

  datatype VpnRoute = VpnRoute(lbl: string, nexthop: string, targets: string, peer: string)

  type Rib = map<RouteKey, VpnRoute>

  /** One call of writeVPNRoute; no route means withdraw. */
  datatype Write = Write(key: RouteKey, route: Option<VpnRoute>)

  function Announce(env: Env, peer: seq<Byte>, rts: seq<string>, nh: seq<Byte>, n: Nlri): Write {
    Write((n.rd, n.prefix), Some(VpnRoute(Text.Dec(n.lbl), if nh == [] then "-" else env.ipText(nh),
                                          Text.Join(rts, ','), env.ipText(peer))))
  }

  function Withdraw(n: Nlri): Write {
    Write((n.rd, n.prefix), None)
  }

  function Announcements(env: Env, peer: seq<Byte>, rts: seq<string>, r: MpRoutes): (ws: seq<Write>)
    ensures |ws| == |r.nlris|
  {
    seq(|r.nlris|, i requires 0 <= i < |r.nlris| => Announce(env, peer, rts, r.nexthop, r.nlris[i]))
  }

  function Withdrawals(ns: seq<Nlri>): (ws: seq<Write>)
    ensures |ws| == |ns|
  {
    seq(|ns|, i requires 0 <= i < |ns| => Withdraw(ns[i]))
  }

  /** What one UPDATE writes: its announcements, then its withdrawals. */
  function WritesOf(env: Env, peer: seq<Byte>, u: Update): seq<Write> {
    if !u.Update? then []
    else
      (match u.reach case None => [] case Some(v) => Announcements(env, peer, u.rts, MpOf(v, false))) +
      (match u.unreach case None => [] case Some(v) => Withdrawals(MpOf(v, true).nlris))
  }

  function Put(rib: Rib, w: Write): Rib {
    match w.route case Some(r) => rib[w.key := r] case None => rib - {w.key}
  }

  function PutAll(rib: Rib, ws: seq<Write>): Rib {
    if ws == [] then rib else Put(PutAll(rib, ws[..|ws| - 1]), ws[|ws| - 1])
  }

  lemma {:induction false} PutAllAppend(rib: Rib, xs: seq<Write>, ys: seq<Write>)
    ensures PutAll(rib, xs + ys) == PutAll(PutAll(rib, xs), ys)
  {
    if ys == [] {
      assert xs + ys == xs;
    } else {
      assert (xs + ys)[..|xs + ys| - 1] == xs + ys[..|ys| - 1];
      PutAllAppend(rib, xs, ys[..|ys| - 1]);
    }
  }

  /** The last write of a key over a history. */
  function LastWrite(ws: seq<Write>, key: RouteKey): Option<VpnRoute> {
    if ws == [] then None
    else if ws[|ws| - 1].key == key then ws[|ws| - 1].route
    else LastWrite(ws[..|ws| - 1], key)
  }

  /** The cached routes are a last-writer map: whoever announced a route, the last
      announcement or withdrawal of its distinguisher and prefix decides. */
  lemma {:induction false} RibIsLastWriter(ws: seq<Write>, key: RouteKey)
    ensures var rib := PutAll(map[], ws);
            LastWrite(ws, key) == if key in rib then Some(rib[key]) else None
  {
    if ws != [] { RibIsLastWriter(ws[..|ws| - 1], key); }
  }

  /** Inside one UPDATE a withdrawal prevails over an announcement of the same route. */
  lemma {:induction false} WithdrawalPrevails(ws: seq<Write>, ns: seq<Nlri>, key: RouteKey)
    requires exists i :: 0 <= i < |ns| && (ns[i].rd, ns[i].prefix) == key
    ensures LastWrite(ws + Withdrawals(ns), key) == None
    decreases ns
  {
    var all, m := ws + Withdrawals(ns), ns[..|ns| - 1];
    assert all[..|all| - 1] == ws + Withdrawals(m);
    assert all[|all| - 1] == Withdraw(ns[|ns| - 1]);
    if all[|all| - 1].key != key { WithdrawalPrevails(ws, m, key); }
  }

  /** A monitored UPDATE, from the wire to the writes. It may announce routes `vs`, withdraw
      routes `us` and carry extended communities `cs`, each in its attribute or not at all;
      exactly these routes are written, in order, under the announced next hop and targets. */
  lemma MonitoredUpdate(env: Env, peer: seq<Byte>, hdr: seq<Byte>, withdrawn: seq<Byte>, xs: seq<PathAttr>,
                        nlri: seq<Byte>, nh: seq<Byte>, vs: seq<VpnPrefix>, us: seq<VpnPrefix>, cs: seq<seq<Byte>>)
    requires |hdr| == 18 && |withdrawn| < 0x1_0000 && (forall a :: a in xs ==> Bgp.WellFormed(a))
    requires |EncodeAttrs(xs)| < 0x1_0000
    requires |nh| < 256 && (forall v :: v in vs ==> Canonical(v)) && (forall v :: v in us ==> Canonical(v))
    requires forall c :: c in cs ==> |c| == 8
    requires LastValue(xs, MP_REACH) == Some(EncodeReach(nh, vs)) || (LastValue(xs, MP_REACH) == None && vs == [])
    requires LastValue(xs, MP_UNREACH) == Some(EncodeUnreach(us)) || (LastValue(xs, MP_UNREACH) == None && us == [])
    requires LastValue(xs, EXT_COMM) == Some(Concat(cs)) || (LastValue(xs, EXT_COMM) == None && cs == [])
    ensures WritesOf(env, peer, UpdateOf(EncodeUpdate(hdr, withdrawn, xs, nlri))) ==
            Announcements(env, peer, TargetTexts(cs), MpRoutes(NexthopOf(nh), Meanings(vs))) + Withdrawals(Meanings(us))
  {
    hide UpdateOf, EncodeUpdate, MpOf, EncodeReach, EncodeUnreach, LastValue, EncodeAttrs, Canonical, Bgp.WellFormed;
    UpdateRoundTrip(hdr, withdrawn, xs, nlri);
    ReachRoundTrip(nh, vs);
    UnreachRoundTrip(us);
    TargetsRoundTrip(cs);
  }

  /** The attributes announce `vs` under next hop `nh`, withdraw `us` and carry the communities
      `cs`, each in its attribute or not at all. */
  ghost predicate Says(xs: seq<PathAttr>, nh: seq<Byte>, vs: seq<VpnPrefix>, us: seq<VpnPrefix>, cs: seq<Community>) {
    && (forall a :: a in xs ==> Bgp.WellFormed(a)) && |nh| < 256
    && (forall v :: v in vs ==> Canonical(v)) && (forall v :: v in us ==> Canonical(v))
    && (forall c :: c in cs ==> ValidCommunity(c))
    && (LastValue(xs, 14) == Some(EncodeReach(nh, vs)) || (LastValue(xs, 14) == None && vs == []))
    && (LastValue(xs, 15) == Some(EncodeUnreach(us)) || (LastValue(xs, 15) == None && us == []))
    && (LastValue(xs, 16) == Some(EncodeCommunities(cs)) || (LastValue(xs, 16) == None && cs == []))
  }

  /** What the cache is to hold of an announced prefix. */
  ghost predicate Announced(env: Env, w: Write, v: VpnPrefix, nh: seq<Byte>, targets: seq<string>, peer: seq<Byte>) {
    && Canonical(v)
    && w.key == (FormatRD(v.rd), Dotted(v.ip) + "/" + Text.Dec(v.plen))
    && w.route.Some?
    && w.route.value.lbl == Text.Dec(v.labels[|v.labels| - 1].lbl)
    && w.route.value.nexthop == (if |nh| >= 12 then env.ipText(nh[8..12]) else "-")
    && w.route.value.targets == Text.Join(targets, ',')
    && w.route.value.peer == env.ipText(peer)
  }

  predicate Withdrawn(w: Write, v: VpnPrefix) {
    Canonical(v) && w.key == (FormatRD(v.rd), Dotted(v.ip) + "/" + Text.Dec(v.plen)) && w.route.None?
  }

  /** Each of `vs` is announced and then each of `us` withdrawn, and nothing else is written. */
  ghost predicate Writes(env: Env, ws: seq<Write>, peer: seq<Byte>, nh: seq<Byte>, vs: seq<VpnPrefix>,
                         us: seq<VpnPrefix>, targets: seq<string>)
  {
    && |ws| == |vs| + |us|
    && (forall i :: 0 <= i < |vs| ==> Announced(env, ws[i], vs[i], nh, targets, peer))
    && (forall i :: 0 <= i < |us| ==> Withdrawn(ws[|vs| + i], us[i]))
  }

  lemma ListsWritten(env: Env, peer: seq<Byte>, nh: seq<Byte>, vs: seq<VpnPrefix>, us: seq<VpnPrefix>,
                     targets: seq<string>)
    requires (forall v :: v in vs ==> Canonical(v)) && (forall v :: v in us ==> Canonical(v))
    ensures Writes(env, Announcements(env, peer, targets, MpRoutes(NexthopOf(nh), Meanings(vs))) +
                        Withdrawals(Meanings(us)), peer, nh, vs, us, targets)
  {
    hide FormatRD, Dotted, Canonical;
    var ws := Announcements(env, peer, targets, MpRoutes(NexthopOf(nh), Meanings(vs))) + Withdrawals(Meanings(us));
    forall i | 0 <= i < |vs| ensures Announced(env, ws[i], vs[i], nh, targets, peer) {
      MeaningIs(vs[i]);
      assert Meanings(vs)[i] == Meaning(vs[i]);
    }
    forall i | 0 <= i < |us| ensures Withdrawn(ws[|vs| + i], us[i]) {
      MeaningIs(us[i]);
      assert Meanings(us)[i] == Meaning(us[i]);
    }
  }

  lemma MeaningIs(v: VpnPrefix)
    requires Canonical(v)
    ensures |v.ip| == 4 && v.labels != []
    ensures Meaning(v) == Nlri(FormatRD(v.rd), Dotted(v.ip) + "/" + Text.Dec(v.plen), v.labels[|v.labels| - 1].lbl)
  {
  }

  lemma ContentWritten(env: Env, peer: seq<Byte>, xs: seq<PathAttr>, nh: seq<Byte>, vs: seq<VpnPrefix>,
                       us: seq<VpnPrefix>, cs: seq<Community>)
    requires Says(xs, nh, vs, us, cs)
    ensures Writes(env, WritesOf(env, peer, UpdateFrom(xs)), peer, nh, vs, us, Listed(cs))
  {
    ReachRoundTrip(nh, vs);
    UnreachRoundTrip(us);
    TargetsOnWire(cs);
    ListsWritten(env, peer, nh, vs, us, Listed(cs));
    hide MpOf, EncodeReach, EncodeUnreach, LastValue, Canonical, Bgp.WellFormed, Writes, Meanings;
    hide TargetsOf, Listed, EncodeCommunities, ValidCommunity;
    assert Meanings([]) == [] && Listed([]) == [] by { NothingSaid(); }
  }

  lemma NothingSaid()
    ensures Meanings([]) == [] && Listed([]) == []
  {
  }

  /** A route-monitoring message, header and all: each announced prefix is written under its
      distinguisher and prefix with bottom label, next hop, targets and the peer of the header,
      then each withdrawn one is removed, and nothing else is written. */
  lemma MonitoredMessage(env: Env, h: PeerHeader, hdr: seq<Byte>, withdrawn: seq<Byte>, xs: seq<PathAttr>,
                         nlri: seq<Byte>, nh: seq<Byte>, vs: seq<VpnPrefix>, us: seq<VpnPrefix>, cs: seq<Community>)
    requires ValidHeader(h) && |hdr| == 18 && |withdrawn| < 0x1_0000
    requires Says(xs, nh, vs, us, cs) && |EncodeAttrs(xs)| < 0x1_0000
    ensures var body := EncodeHeader(h) + EncodeUpdate(hdr, withdrawn, xs, nlri);
            && PerPeer(body).Some?
            && Writes(env, WritesOf(env, PerPeer(body).value.addr, UpdateOf(body[PER_PEER..])), h.addr,
                      nh, vs, us, Listed(cs))
  {
    hide UpdateOf, EncodeUpdate, EncodeAttrs, EncodeHeader, PerPeer, Writes, WritesOf, UpdateFrom, Listed, FormatRD;
    var update := EncodeUpdate(hdr, withdrawn, xs, nlri);
    HeaderRoundTrip(h, update);
    assert (EncodeHeader(h) + update)[42..] == update;
    UpdateRoundTrip(hdr, withdrawn, xs, nlri);
    ContentWritten(env, h.addr, xs, nh, vs, us, cs);
  }

  // ---- the VRF name in a Peer Up message ----

  /** `string(p)`: the bytes as characters. */
  function Chars(p: seq<Byte>): (s: string)
    ensures |s| == |p| && forall i :: 0 <= i < |p| ==> s[i] as int == p[i]
  {
    seq(|p|, i requires 0 <= i < |p| => p[i] as char)
  }

  /** Skip one BGP message by its own length field. */
  function SkipMessage(p: seq<Byte>): Option<seq<Byte>> {
    if |p| < 19 then None
    else
      var l := Be16(p[16..]);
      if l < 19 || l > |p| then None else Some(p[l..])
  }

  function VrfTlv(p: seq<Byte>): string
    decreases |p|
  {
    if |p| < 4 then ""
    else
      var t, l := Be16(p), Be16(p[2..]);
      if 4 + l > |p| then ""
      else if t == 3 then Chars(p[4..4 + l])
      else VrfTlv(p[4 + l..])
  }

  function PeerUpVrf(body: seq<Byte>): string {
    if |body| < PER_PEER + 20 then ""
    else
      match SkipMessage(body[PER_PEER + 20..])
      case None => ""
      case Some(p) => match SkipMessage(p) case None => "" case Some(q) => VrfTlv(q)
  }

  method ReadPeerUpVrf(body: seq<Byte>) returns (name: string)
    ensures name == PeerUpVrf(body)
  {
    hide Be16;
    name := "";
    if |body| < PER_PEER { return; }
    var p := body[PER_PEER..];
    if |p| < 20 { return; }
    p := p[20..];
    ghost var first := p;
    assert first == body[PER_PEER + 20..];
    for i := 0 to 2
      invariant if i == 0 then p == first
                else if i == 1 then SkipMessage(first) == Some(p)
                else SkipMessage(first).Some? && SkipMessage(SkipMessage(first).value) == Some(p)
    {
      if |p| < 19 { return; }
      var l := Be16(p[16..]);
      if l < 19 || l > |p| { return; }
      p := p[l..];
    }
    while |p| >= 4
      invariant VrfTlv(p) == PeerUpVrf(body)
      decreases |p|
    {
      var t, l := Be16(p), Be16(p[2..]);
      if 4 + l > |p| { break; }
      if t == 3 { return Chars(p[4..4 + l]); }
      p := p[4 + l..];
    }
  }

  datatype Tlv = Tlv(typ: nat, value: seq<Byte>)

  predicate ValidTlv(t: Tlv) {
    t.typ < 0x1_0000 && |t.value| < 0x1_0000
  }

  function EncodeTlvs(ts: seq<Tlv>): seq<Byte>
    requires forall t :: t in ts ==> ValidTlv(t)
  {
    if ts == [] then []
    else assert ValidTlv(ts[0]); PutBe16(ts[0].typ) + PutBe16(|ts[0].value|) + ts[0].value + EncodeTlvs(ts[1..])
  }

  function FirstName(ts: seq<Tlv>): string {
    if ts == [] then "" else if ts[0].typ == 3 then Chars(ts[0].value) else FirstName(ts[1..])
  }

  lemma {:induction false} TlvsRoundTrip(ts: seq<Tlv>)
    requires forall t :: t in ts ==> ValidTlv(t)
    ensures VrfTlv(EncodeTlvs(ts)) == FirstName(ts)
  {
    if ts != [] {
      var p := EncodeTlvs(ts);
      var a, b, rest := PutBe16(ts[0].typ), PutBe16(|ts[0].value|), EncodeTlvs(ts[1..]);
      var l := |ts[0].value|;
      assert p == a + (b + (ts[0].value + rest)) && p[2..] == b + (ts[0].value + rest);
      Be16Append(a, b + (ts[0].value + rest));
      Be16Append(b, ts[0].value + rest);
      assert p[4..4 + l] == ts[0].value && p[4 + l..] == rest;
      hide Be16, EncodeTlvs;
      TlvsRoundTrip(ts[1..]);
    }
  }

  /** A BGP message as it travels: its length field counts all of it. */
  predicate Framed(o: seq<Byte>) {
    |o| >= 19 && Be16(o[16..]) == |o|
  }

  lemma SkipFramed(o: seq<Byte>, rest: seq<Byte>)
    requires Framed(o)
    ensures SkipMessage(o + rest) == Some(rest)
  {
    var p := o + rest;
    assert p[16..][0] == o[16..][0] && p[16..][1] == o[16..][1] && p[|o|..] == rest;
  }

  /** The first VRF/Table Name of a Peer Up message is found behind any two OPENs and any
      other information TLVs. */
  lemma PeerUpRoundTrip(peer: seq<Byte>, ends: seq<Byte>, sent: seq<Byte>, received: seq<Byte>, ts: seq<Tlv>)
    requires |peer| == PER_PEER && |ends| == 20 && Framed(sent) && Framed(received)
    requires forall t :: t in ts ==> ValidTlv(t)
    ensures PeerUpVrf(peer + ends + sent + received + EncodeTlvs(ts)) == FirstName(ts)
  {
    hide Framed, SkipMessage, VrfTlv, ValidTlv;
    var tail := EncodeTlvs(ts);
    var body := peer + ends + sent + received + tail;
    assert body[PER_PEER + 20..] == sent + (received + tail);
    SkipFramed(sent, received + tail);
    SkipFramed(received, tail);
    TlvsRoundTrip(ts);
  }

  // ---- learning the instance of a distinguisher ----

  /** The instance a peer is filed under. */
  function InstanceOf(known: map<string, string>, rd: string, name: string): string {
    if rd == "" then "default" else if rd in known then known[rd] else if name != "" then name else rd
  }

  function Learned(known: map<string, string>, rd: string, name: string): map<string, string> {
    if rd == "" || rd in known || name == "" then known else known[rd := name]
  }

  /** A name offered for an unknown distinguisher: the Peer Up TLV, else the node's only
      non-default VRF. */
  function Offered(body: seq<Byte>, up: bool, names: seq<string>): string {
    var n := if up then PeerUpVrf(body) else "";
    if n != "" then n else if |names| == 1 then names[0] else ""
  }

  /** The distinguisher's text, "" for none. */
  function InstanceText(h: PeerHeader): string
    requires ValidHeader(h)
  {
    if h.rd == [0, 0, 0, 0, 0, 0, 0, 0] then "" else FormatRD(h.rd)
  }

  /** What a Peer Up message says on the wire: the peer of its header, and as name the first
      VRF/Table Name behind the two OPENs, or else the only VRF of the node. */
  lemma PeerUpOnWire(h: PeerHeader, ends: seq<Byte>, sent: seq<Byte>, received: seq<Byte>, ts: seq<Tlv>,
                     names: seq<string>)
    requires ValidHeader(h) && |ends| == 20 && Framed(sent) && Framed(received)
    requires forall t :: t in ts ==> ValidTlv(t)
    ensures var body := EncodeHeader(h) + ends + sent + received + EncodeTlvs(ts);
            && PerPeer(body) == Some(Peer(h.addr, h.asn, InstanceText(h)))
            && Offered(body, true, names) ==
               if FirstName(ts) != "" then FirstName(ts) else if |names| == 1 then names[0] else ""
  {
    hide EncodeHeader, PerPeer, FormatRD, PeerUpVrf, EncodeTlvs, FirstName, Framed;
    PeerUpRoundTrip(EncodeHeader(h), ends, sent, received, ts);
    var rest := ends + sent + received + EncodeTlvs(ts);
    assert EncodeHeader(h) + ends + sent + received + EncodeTlvs(ts) == EncodeHeader(h) + rest;
    HeaderRoundTrip(h, rest);
  }

  /** A Peer Down message offers no name of its own. */
  lemma PeerDownOnWire(h: PeerHeader, rest: seq<Byte>, names: seq<string>)
    requires ValidHeader(h)
    ensures var body := EncodeHeader(h) + rest;
            && PerPeer(body) == Some(Peer(h.addr, h.asn, InstanceText(h)))
            && Offered(body, false, names) == if |names| == 1 then names[0] else ""
  {
    hide EncodeHeader, PerPeer, FormatRD, PeerUpVrf;
    HeaderRoundTrip(h, rest);
  }

  // ---- the messages of one session ----

  /** A peer message: its distinguisher, "" for the default instance, and the name offered. */
  datatype Offer = Offer(rd: string, name: string)

  function LearnedAll(known: map<string, string>, ms: seq<Offer>): map<string, string> {
    if ms == [] then known
    else Learned(LearnedAll(known, ms[..|ms| - 1]), ms[|ms| - 1].rd, ms[|ms| - 1].name)
  }

  lemma LearnedSnoc(known: map<string, string>, ms: seq<Offer>, m: Offer)
    ensures LearnedAll(known, ms + [m]) == Learned(LearnedAll(known, ms), m.rd, m.name)
  {
    assert (ms + [m])[..|ms|] == ms;
  }

  /** The instance that the `i`-th message is filed under. */
  function FiledUnder(known: map<string, string>, ms: seq<Offer>, i: nat): string
    requires i < |ms|
  {
    InstanceOf(LearnedAll(known, ms[..i]), ms[i].rd, ms[i].name)
  }

  /** The names offered for a distinguisher, in order. */
  function NamesFor(ms: seq<Offer>, rd: string): seq<string> {
    if ms == [] then []
    else NamesFor(ms[..|ms| - 1], rd) + (if ms[|ms| - 1].rd == rd then [ms[|ms| - 1].name] else [])
  }

  /** The first name that is not empty. */
  function FirstOffer(names: seq<string>): string {
    if names == [] then "" else if names[0] != "" then names[0] else FirstOffer(names[1..])
  }

  lemma {:induction false} FirstOfferAppend(names: seq<string>, more: seq<string>)
    ensures FirstOffer(names + more) == if FirstOffer(names) != "" then FirstOffer(names) else FirstOffer(more)
  {
    if names == [] {
      assert names + more == more;
    } else {
      assert (names + more)[1..] == names[1..] + more;
      FirstOfferAppend(names[1..], more);
    }
  }

  /** A distinguisher keeps the first name offered for it, whatever other peers say between. */
  lemma {:induction false} FirstNameStays(ms: seq<Offer>, rd: string)
    requires rd != ""
    ensures var known, first := LearnedAll(map[], ms), FirstOffer(NamesFor(ms, rd));
            (rd in known <==> first != "") && (rd in known ==> known[rd] == first)
  {
    if ms != [] {
      var init, m := ms[..|ms| - 1], ms[|ms| - 1];
      FirstNameStays(init, rd);
      FirstOfferAppend(NamesFor(init, rd), [m.name]);
      assert [m.name][1..] == [];
      assert NamesFor(init, rd) + [] == NamesFor(init, rd);
    }
  }

  /** The session messages of one distinguisher are all filed under one instance. */
  ghost predicate OneInstance(ms: seq<Offer>, rd: string) {
    forall i, j :: 0 <= i < |ms| && 0 <= j < |ms| && ms[i].rd == ms[j].rd == rd ==>
      FiledUnder(map[], ms, i) == FiledUnder(map[], ms, j)
  }

  /** Without a distinguisher a message is filed under the default instance. With one,
      messages are filed under the distinguisher's text until a name is offered, and under
      that name from then on. */
  lemma FiledMeans(ms: seq<Offer>, rd: string, i: nat)
    requires i < |ms| && ms[i].rd == rd
    ensures FiledUnder(map[], ms, i) ==
            var first := FirstOffer(NamesFor(ms[..i + 1], rd));
            if rd == "" then "default" else if first == "" then rd else first
  {
    assert ms[..i + 1][..i] == ms[..i];
    if rd != "" { FirstNameStays(ms[..i], rd); }
    FirstOfferAppend(NamesFor(ms[..i], rd), [ms[i].name]);
    assert [ms[i].name][1..] == [];
  }

  lemma {:induction false} FirstMessage(ms: seq<Offer>, rd: string) returns (i: nat)
    requires NamesFor(ms, rd) != []
    ensures i < |ms| && ms[i].rd == rd && NamesFor(ms[..i], rd) == [] && ms[i].name == NamesFor(ms, rd)[0]
  {
    var n := |ms| - 1;
    if NamesFor(ms[..n], rd) == [] {
      i := n;
    } else {
      i := FirstMessage(ms[..n], rd);
      assert ms[..n][..i] == ms[..i];
    }
  }

  lemma {:induction false} NamesGrow(ms: seq<Offer>, i: nat, rd: string) returns (more: seq<string>)
    requires i <= |ms|
    ensures NamesFor(ms, rd) == NamesFor(ms[..i], rd) + more
  {
    if i == |ms| {
      more := [];
      assert ms[..i] == ms;
    } else {
      var n := |ms| - 1;
      var rest := NamesGrow(ms[..n], i, rd);
      assert ms[..n][..i] == ms[..i];
      more := rest + if ms[n].rd == rd then [ms[n].name] else [];
    }
  }

  lemma {:induction false} NamedMessage(ms: seq<Offer>, rd: string) returns (i: nat)
    requires FirstOffer(NamesFor(ms, rd)) != ""
    ensures i < |ms| && ms[i].rd == rd && FirstOffer(NamesFor(ms[..i + 1], rd)) == FirstOffer(NamesFor(ms, rd))
  {
    var n := |ms| - 1;
    var tail := if ms[n].rd == rd then [ms[n].name] else [];
    FirstOfferAppend(NamesFor(ms[..n], rd), tail);
    if FirstOffer(NamesFor(ms[..n], rd)) != "" {
      i := NamedMessage(ms[..n], rd);
      assert ms[..n][..i + 1] == ms[..i + 1];
    } else {
      i := n;
      assert ms[..n + 1] == ms;
    }
  }

  /** The messages of a distinguisher, among those of any others, are filed under one instance
      exactly when the first of them offers a name, or none does, or the first name offered is
      the distinguisher's own text. */
  lemma OneInstanceIff(ms: seq<Offer>, rd: string)
    requires rd != ""
    ensures var names := NamesFor(ms, rd);
            OneInstance(ms, rd) <==>
            names == [] || names[0] != "" || FirstOffer(names) == "" || FirstOffer(names) == rd
  {
    hide NamesFor, FirstOffer, FiledUnder;
    var names := NamesFor(ms, rd);
    forall i | 0 <= i < |ms| && ms[i].rd == rd
      ensures FiledUnder(map[], ms, i) in {rd, if FirstOffer(names) == "" then rd else FirstOffer(names)}
      ensures names != [] && (names[0] != "" ==> FiledUnder(map[], ms, i) == names[0])
    {
      FiledMeans(ms, rd, i);
      var more := NamesGrow(ms, i + 1, rd);
      var upTo := NamesFor(ms[..i + 1], rd);
      FirstOfferAppend(upTo, more);
      HasName(ms, i, rd);
      assert names[0] == upTo[0];
      StartsWith(upTo);
    }
    if names != [] && names[0] == "" && FirstOffer(names) != "" {
      var i := FirstMessage(ms, rd);
      var j := NamedMessage(ms, rd);
      FiledMeans(ms, rd, i);
      FiledMeans(ms, rd, j);
      OnlyName(ms, i, rd);
      StartsWith([""]);
      EmptyOffer();
    }
  }

  lemma EmptyOffer()
    ensures FirstOffer([""]) == ""
  {
    assert [""][1..] == [];
  }

  lemma StartsWith(names: seq<string>)
    ensures names != [] && names[0] != "" ==> FirstOffer(names) == names[0]
  {
  }

  lemma HasName(ms: seq<Offer>, i: nat, rd: string)
    requires i < |ms| && ms[i].rd == rd
    ensures NamesFor(ms[..i + 1], rd) != []
  {
  }

  lemma OnlyName(ms: seq<Offer>, i: nat, rd: string)
    requires i < |ms| && ms[i].rd == rd && NamesFor(ms[..i], rd) == []
    ensures NamesFor(ms[..i + 1], rd) == [ms[i].name]
  {
    assert ms[..i + 1][..i] == ms[..i];
  }

  /** A Peer Down before any name is known, then a Peer Up that brings one: the two halves of
      the session are filed apart. */
  lemma SplitSessionExample()
    ensures var ms := [Offer("65000:1", ""), Offer("65000:1", "cust")];
            FiledUnder(map[], ms, 0) == "65000:1" && FiledUnder(map[], ms, 1) == "cust"
  {
    var ms := [Offer("65000:1", ""), Offer("65000:1", "cust")];
    assert ms[..1][..0] == [] && ms[..1] == [Offer("65000:1", "")];
  }

  // ---- the collector ----

  datatype Neighbor = Neighbor(state: string, asn: Option<string>)

  class Collector {
    const env: Env
    var rdVrf: map<string, string>
    var neighbors: map<(string, string), Neighbor>
    var rib: Rib
    ghost var writes: seq<Write>
    ghost var offers: seq<Offer>  // of the peer messages that were filed

    constructor (env: Env)
      ensures Valid() && this.env == env && writes == [] && offers == [] && neighbors == map[]
    {
      this.env, rdVrf, neighbors, rib, writes, offers := env, map[], map[], map[], [], [];
    }

    ghost predicate Valid()
      reads this
    {
      rib == PutAll(map[], writes) && rdVrf == LearnedAll(map[], offers)
    }

    /** `ok` is false when the attribute loop leaves its message; nothing is written then. */
    method RouteMon(body: seq<Byte>) returns (ok: bool)
      requires Valid()
      modifies this`rib, this`writes
      ensures Valid()
      ensures PerPeer(body).None? ==> ok && writes == old(writes)
      ensures PerPeer(body).Some? ==>
                var u := UpdateOf(body[PER_PEER..]);
                && (ok <==> !u.Broken?)
                && writes == old(writes) + WritesOf(env, PerPeer(body).value.addr, u)
    {
      hide UpdateOf, MpOf, PutAll, FormatRD, Be32, AllZero, Announce, Announcements, Withdrawals, LearnedAll;
      ok := true;
      var peer := PerPeer(body);
      if peer == None { return; }
      var u := ParseUpdate(body[PER_PEER..]);
      if !u.Update? { return !u.Broken?; }
      if u.reach.Some? {
        var r := HandleMp(u.reach.value, false);
        WriteAll(Announcements(env, peer.value.addr, u.rts, r));
      }
      if u.unreach.Some? {
        var r := HandleMp(u.unreach.value, true);
        WriteAll(Withdrawals(r.nlris));
      }
    }

    method WriteAll(ws: seq<Write>)
      requires Valid()
      modifies this`rib, this`writes
      ensures Valid() && writes == old(writes) + ws
    {
      for i := 0 to |ws|
        invariant Valid() && writes == old(writes) + ws[..i]
      {
        assert writes + [ws[i]] == old(writes) + ws[..i + 1];
        PutAllAppend(map[], writes, [ws[i]]);
        assert [ws[i]][..0] == [];
        if ws[i].route.None? {
          rib := rib - {ws[i].key};
        } else {
          rib := rib[ws[i].key := ws[i].route.value];
        }
        writes := writes + [ws[i]];
      }
    }

    /** A session change is filed under the instance known or offered, and a distinguisher once
        learned keeps its name for good. `names` are the node's non-default VRFs at the time. */
    method PeerState(body: seq<Byte>, up: bool, names: seq<string>)
      requires Valid()
      modifies this`rdVrf, this`neighbors, this`offers
      ensures Valid()
      ensures forall rd :: rd in old(rdVrf) ==> rd in rdVrf && rdVrf[rd] == old(rdVrf)[rd]
      ensures PerPeer(body).None? || IsUnspecified(PerPeer(body).value.addr) ==>
                offers == old(offers) && neighbors == old(neighbors)
      ensures PerPeer(body).Some? && !IsUnspecified(PerPeer(body).value.addr) ==>
                var p, name := PerPeer(body).value, Offered(body, up, names);
                && offers == old(offers) + [Offer(p.rd, name)]
                && var key := (FiledUnder(map[], offers, |old(offers)|), env.ipText(p.addr));
                && key.0 == InstanceOf(rdVrf, p.rd, name)
                && key in neighbors && neighbors[key].state == (if up then "ESTABLISHED" else "IDLE")
                && neighbors[key].asn ==
                   (if up && p.asn != 0 then Some(Text.Dec(p.asn))
                    else if key in old(neighbors) then old(neighbors)[key].asn else None)
                && neighbors - {key} == old(neighbors) - {key}
    {
      hide Offered, FormatRD, IsUnspecified, Text.Dec, Be32, PutAll, LearnedAll, Learned, InstanceOf;
      var peer := PerPeer(body);
      if peer == None || IsUnspecified(peer.value.addr) { return; }
      var p := peer.value;
      var vrf := FindInstance(p.rd, body, up, names);
      var key := (vrf, env.ipText(p.addr));
      var asn := if key in neighbors then neighbors[key].asn else None;
      if up && p.asn != 0 { asn := Some(Text.Dec(p.asn)); }
      neighbors := neighbors[key := Neighbor(if up then "ESTABLISHED" else "IDLE", asn)];
    }

    /** The instance of a distinguisher, which is learned when a name is offered for it. */
    method FindInstance(rd: string, body: seq<Byte>, up: bool, names: seq<string>) returns (vrf: string)
      requires Valid()
      modifies this`rdVrf, this`offers
      ensures Valid() && offers == old(offers) + [Offer(rd, Offered(body, up, names))]
      ensures forall r :: r in old(rdVrf) ==> r in rdVrf && rdVrf[r] == old(rdVrf)[r]
      ensures vrf == FiledUnder(map[], offers, |old(offers)|) == InstanceOf(rdVrf, rd, Offered(body, up, names))
    {
      hide PeerUpVrf, PutAll, LearnedAll;
      ghost var offer := Offer(rd, Offered(body, up, names));
      offers := offers + [offer];
      LearnedSnoc(map[], old(offers), offer);
      assert offers[..|old(offers)|] == old(offers);
      vrf := "default";
      if rd != "" {
        var name := "";
        if rd in rdVrf {
          name := rdVrf[rd];
        } else {
          if up { name := ReadPeerUpVrf(body); }
          if name == "" && |names| == 1 { name := names[0]; }
          if name != "" {
            rdVrf := rdVrf[rd := name];
          } else {
            name := rd;
          }
        }
        vrf := name;
      }
    }
  }
}
