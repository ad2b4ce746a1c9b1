/** BGP UPDATE messages carrying labelled VPN-IPv4 routes: the decoder's loops, the wire
    format they read, and the round trips between the two. */
module Bgp {
  import opened Bytes
  import opened Options
  import opened RouteText
  import Text

  // ---- labelled VPN-IPv4 NLRI: [bits][labels][RD][prefix] ----

  datatype Nlri = Nlri(rd: string, prefix: string, lbl: nat)

  /** How many bytes a label scan takes, and the last label it read. */
  datatype Scan = Scan(used: nat, lbl: nat)

  function LabelAt(p: seq<Byte>): nat
    requires |p| >= 3
  {
    ((p[0] as int) * 65536 + (p[1] as int) * 256 + p[2]) / 16
  }

  function ScanLabels(p: seq<Byte>, lbl: nat): (s: Scan)
    ensures s.used <= |p|
    decreases |p|
  {
    if |p| < 3 then Scan(0, lbl)
    else if p[2] % 2 == 1 then Scan(3, LabelAt(p))
    else
      var s := ScanLabels(p[3..], LabelAt(p));
      Scan(3 + s.used, s.lbl)
  }

  function PrefixText(ip: seq<Byte>, bits: int): string
    requires |ip| == 4
  {
    Dotted(ip) + "/" + Text.Dec(if bits < 0 then 0 else bits)
  }

  /** The first NLRI of `p` and the bytes it takes; None when it is cut short. */
  function FirstNlri(p: seq<Byte>): (r: Option<(Nlri, nat)>)
    ensures r.Some? ==> 0 < r.value.1 <= |p|
  {
    if |p| < 1 then None
    else
      var bits: nat := p[0];
      var total := (bits + 7) / 8;
      if |p| < 1 + total then None
      else
        var data := p[1..1 + total];
        var s := ScanLabels(data, 0);
        if s.used + 8 > |data| then None
        else
          var i := s.used + 8;
          Some((Nlri(FormatRD(data[s.used..i]), PrefixText(CopyInto(4, data[i..]), bits - 8 * i), s.lbl), 1 + total))
  }

  /** The label loop: labels are read until the bottom-of-stack bit or the data's end. */
  method ReadLabels(data: seq<Byte>) returns (i: nat, lbl: nat)
    ensures ScanLabels(data, 0) == Scan(i, lbl)
  {
    i, lbl := 0, 0;
    while i + 3 <= |data|
      invariant i <= |data|
      invariant ScanLabels(data, 0) == Scan(i + ScanLabels(data[i..], lbl).used, ScanLabels(data[i..], lbl).lbl)
      decreases |data| - i
    {
      ghost var p := data[i..];
      lbl := ((data[i] as int) * 65536 + (data[i + 1] as int) * 256 + data[i + 2]) / 16;
      var bos := data[i + 2] % 2;
      assert lbl == LabelAt(p) && p[2] == data[i + 2] && p[3..] == data[i + 3..];
      i := i + 3;
      if bos == 1 { return; }
    }
  }

  method ParseVpnNlri(p: seq<Byte>) returns (n: Nlri, consumed: nat)
    ensures FirstNlri(p).None? ==> consumed == 0
    ensures FirstNlri(p).Some? ==> FirstNlri(p) == Some((n, consumed))
  {
    hide ScanLabels, FormatRD, Dotted;
    n, consumed := Nlri("", "", 0), 0;
    if |p| < 1 { return; }
    var bits: nat := p[0];
    var total := (bits + 7) / 8;
    if |p| < 1 + total { return; }
    var data := p[1..1 + total];
    var i, lbl := ReadLabels(data);
    if i + 8 > |data| { return; }
    var rd := FormatRD(data[i..i + 8]);
    i := i + 8;
    var ip := CopyInto(4, data[i..]);
    var prefixBits := bits - i * 8;
    if prefixBits < 0 { prefixBits := 0; }
    return Nlri(rd, Dotted(ip) + "/" + Text.Dec(prefixBits), lbl), 1 + total;
  }

  function NlrisOf(p: seq<Byte>): seq<Nlri>
    decreases |p|
  {
    match FirstNlri(p)
    case None => []
    case Some((n, c)) => [n] + NlrisOf(p[c..])
  }

  /** The bytes left over when the loop stops. */
  function NlriRest(p: seq<Byte>): seq<Byte>
    decreases |p|
  {
    match FirstNlri(p)
    case None => p
    case Some((_, c)) => NlriRest(p[c..])
  }

  /** A label as section 2 of RFC 8277 carries it: 20 bits, 3 bits, bottom of stack. */
  datatype Label3 = Label3(lbl: nat, exp: nat)

  datatype VpnPrefix = VpnPrefix(labels: seq<Label3>, rd: seq<Byte>, ip: seq<Byte>, plen: nat)

  /** A canonical labelled VPN-IPv4 prefix that fits the one-byte bit length. */
  predicate Canonical(v: VpnPrefix) {
    && v.labels != [] && (forall l :: l in v.labels ==> l.lbl < 0x10_0000 && l.exp < 8)
    && |v.rd| == 8 && |v.ip| == 4 && v.plen <= 32
    && v.ip == CopyInto(4, v.ip[..PrefixLen(v.plen)])
    && 24 * |v.labels| + 64 + v.plen < 256
  }

  function PrefixLen(plen: nat): (n: nat)
    requires plen <= 32
    ensures n <= 4
  {
    (plen + 7) / 8
  }

  function LabelBytes(l: Label3, bottom: bool): (b: seq<Byte>)
    requires l.lbl < 0x10_0000 && l.exp < 8
    ensures |b| == 3
  {
    [l.lbl / 4096, (l.lbl / 16) % 256, (l.lbl % 16) * 16 + l.exp * 2 + (if bottom then 1 else 0)]
  }

  function EncodeLabels(ls: seq<Label3>): (b: seq<Byte>)
    requires forall l :: l in ls ==> l.lbl < 0x10_0000 && l.exp < 8
    ensures |b| == 3 * |ls|
  {
    if ls == [] then [] else LabelBytes(ls[0], |ls| == 1) + EncodeLabels(ls[1..])
  }

  function EncodeNlri(v: VpnPrefix): (b: seq<Byte>)
    requires Canonical(v)
  {
    [24 * |v.labels| + 64 + v.plen] + EncodeLabels(v.labels) + v.rd + v.ip[..PrefixLen(v.plen)]
  }

  function Meaning(v: VpnPrefix): Nlri
    requires Canonical(v)
  {
    Nlri(FormatRD(v.rd), Dotted(v.ip) + "/" + Text.Dec(v.plen), v.labels[|v.labels| - 1].lbl)
  }

  lemma LabelValue(l: Label3, bottom: bool)
    requires l.lbl < 0x10_0000 && l.exp < 8
    ensures var b := LabelBytes(l, bottom);
            && LabelAt(b) == l.lbl
            && b[2] % 2 == if bottom then 1 else 0
  {
    var b := LabelBytes(l, bottom);
    var low := l.exp * 2 + (if bottom then 1 else 0);
    assert l.lbl == 4096 * (l.lbl / 4096) + 16 * ((l.lbl / 16) % 256) + l.lbl % 16 by {
      assert l.lbl / 16 == 256 * (l.lbl / 4096) + (l.lbl / 16) % 256;
    }
    assert (b[0] as int) * 65536 + (b[1] as int) * 256 + b[2] == 16 * l.lbl + low;
  }

  /** The scan stops behind the bottom label. */
  lemma {:induction false} ScanFinds(ls: seq<Label3>, rest: seq<Byte>, lbl: nat)
    requires ls != [] && forall l :: l in ls ==> l.lbl < 0x10_0000 && l.exp < 8
    ensures ScanLabels(EncodeLabels(ls) + rest, lbl) == Scan(3 * |ls|, ls[|ls| - 1].lbl)
    decreases ls
  {
    var w, tail := LabelBytes(ls[0], |ls| == 1), EncodeLabels(ls[1..]) + rest;
    LabelValue(ls[0], |ls| == 1);
    assert EncodeLabels(ls) + rest == w + tail;
    hide LabelBytes, EncodeLabels, ScanLabels, LabelAt;
    ScanStep(w, tail, lbl);
    if |ls| > 1 { ScanFinds(ls[1..], rest, ls[0].lbl); }
  }

  lemma ScanStep(w: seq<Byte>, tail: seq<Byte>, lbl: nat)
    requires |w| == 3
    ensures ScanLabels(w + tail, lbl) ==
            if w[2] % 2 == 1 then Scan(3, LabelAt(w))
            else Scan(3 + ScanLabels(tail, LabelAt(w)).used, ScanLabels(tail, LabelAt(w)).lbl)
  {
    var p := w + tail;
    assert p[..3] == w && p[3..] == tail && LabelAt(p) == LabelAt(w);
  }

  lemma FirstOfEncoded(v: VpnPrefix, rest: seq<Byte>)
    requires Canonical(v)
    ensures FirstNlri(EncodeNlri(v) + rest) == Some((Meaning(v), |EncodeNlri(v)|))
  {
    hide ScanLabels, EncodeLabels, FormatRD, Dotted;
    var p := EncodeNlri(v) + rest;
    var e, n := 3 * |v.labels|, PrefixLen(v.plen);
    var total := e + 8 + n;
    assert (24 * |v.labels| + 64 + v.plen + 7) / 8 == total;
    var tail := v.rd + v.ip[..n];
    var data := EncodeLabels(v.labels) + tail;
    assert p[1..1 + total] == data;
    ScanFinds(v.labels, tail, 0);
    assert data[e..e + 8] == v.rd && data[e + 8..] == v.ip[..n];
  }

  function EncodeNlris(vs: seq<VpnPrefix>): seq<Byte>
    requires forall v :: v in vs ==> Canonical(v)
  {
    if vs == [] then [] else EncodeNlri(vs[0]) + EncodeNlris(vs[1..])
  }

  function Meanings(vs: seq<VpnPrefix>): (r: seq<Nlri>)
    requires forall v :: v in vs ==> Canonical(v)
    ensures |r| == |vs| && forall i :: 0 <= i < |vs| ==> r[i] == Meaning(vs[i])
  {
    seq(|vs|, i requires 0 <= i < |vs| => assert vs[i] in vs; Meaning(vs[i]))
  }

  /** Any number of canonical NLRI are recovered in order and every byte is consumed. */
  lemma {:induction false} NlrisRoundTrip(vs: seq<VpnPrefix>)
    requires forall v :: v in vs ==> Canonical(v)
    ensures NlrisOf(EncodeNlris(vs)) == Meanings(vs) && NlriRest(EncodeNlris(vs)) == []
  {
    hide Meaning, FirstNlri, Canonical, EncodeNlri;
    if vs == [] {
      NoNlri();
    } else {
      var rest := EncodeNlris(vs[1..]);
      FirstOfEncoded(vs[0], rest);
      assert (EncodeNlri(vs[0]) + rest)[|EncodeNlri(vs[0])|..] == rest;
      NlrisRoundTrip(vs[1..]);
      assert Meanings(vs) == [Meaning(vs[0])] + Meanings(vs[1..]);
    }
  }

  lemma NoNlri()
    ensures FirstNlri([]) == None
  {
  }

  // ---- MP_REACH_NLRI and MP_UNREACH_NLRI, sections 3 and 4 of RFC 4760 ----

  datatype MpRoutes = MpRoutes(nexthop: seq<Byte>, nlris: seq<Nlri>)

  const NOTHING := MpRoutes([], [])

  /** What an MP attribute says, when it is about VPN-IPv4; an absent next hop is empty. */
  function MpOf(v: seq<Byte>, withdraw: bool): MpRoutes {
    if |v| < 3 || Be16(v) != 1 || v[2] != 128 then NOTHING
    else if withdraw then MpRoutes([], NlrisOf(v[3..]))
    else
      var p := v[3..];
      if |p| < 1 then NOTHING
      else
        var nhLen: nat := p[0];
        if |p| < 1 + nhLen + 1 then NOTHING
        else MpRoutes(if nhLen >= 12 then p[9..13] else [], NlrisOf(p[1 + nhLen + 1..]))
  }

  method HandleMp(v: seq<Byte>, withdraw: bool) returns (r: MpRoutes)
    ensures r == MpOf(v, withdraw)
  {
    hide FirstNlri, NlrisOf;
    r := NOTHING;
    if |v| < 3 { return; }
    if Be16(v) != 1 || v[2] != 128 { return; }
    var p, nh := v[3..], [];
    if !withdraw {
      if |p| < 1 { return; }
      var nhLen: nat := p[0];
      p := p[1..];
      if |p| < nhLen { return; }
      if nhLen >= 12 { nh := p[8..12]; }
      p := p[nhLen..];
      if |p| < 1 { return; }
      p := p[1..];
      assert p == v[3..][1 + nhLen + 1..];
    }
    var found := ReadNlris(p);
    r := MpRoutes(nh, found);
  }

  /** The NLRI up to the first one that is cut short. */
  method ReadNlris(b: seq<Byte>) returns (found: seq<Nlri>)
    ensures found == NlrisOf(b)
  {
    hide FirstNlri;
    var p := b;
    found := [];
    while |p| > 0
      invariant NlrisOf(b) == found + NlrisOf(p)
      decreases |p|
    {
      var n, used := ParseVpnNlri(p);
      if used == 0 { break; }
      assert found + NlrisOf(p) == found + [n] + NlrisOf(p[used..]);
      found := found + [n];
      p := p[used..];
    }
    assert NlrisOf(p) == [] by { NoNlri(); }
  }

  function EncodeReach(nexthop: seq<Byte>, vs: seq<VpnPrefix>): seq<Byte>
    requires |nexthop| < 256 && forall v :: v in vs ==> Canonical(v)
  {
    PutBe16(1) + [128] + [|nexthop|] + nexthop + [0] + EncodeNlris(vs)
  }

  function EncodeUnreach(vs: seq<VpnPrefix>): seq<Byte>
    requires forall v :: v in vs ==> Canonical(v)
  {
    PutBe16(1) + [128] + EncodeNlris(vs)
  }

  /** A VPN next hop is eight zero bytes and an IPv4 address; shorter ones are not shown. */
  function NexthopOf(nexthop: seq<Byte>): seq<Byte> {
    if |nexthop| >= 12 then nexthop[8..12] else []
  }

  /** A reachability attribute gives back its next hop and every prefix. */
  lemma ReachRoundTrip(nexthop: seq<Byte>, vs: seq<VpnPrefix>)
    requires |nexthop| < 256 && forall v :: v in vs ==> Canonical(v)
    ensures MpOf(EncodeReach(nexthop, vs), false) == MpRoutes(NexthopOf(nexthop), Meanings(vs))
  {
    hide Canonical, FirstNlri, EncodeNlri, NlrisOf, EncodeNlris;
    NlrisRoundTrip(vs);
    var body, w := EncodeNlris(vs), EncodeReach(nexthop, vs);
    var mid := [|nexthop|] + nexthop + [0] + body;
    assert w == [0, 1, 128] + mid;
    assert w[3..] == mid && mid[0] == |nexthop|;
    assert mid[1 + |nexthop| + 1..] == body;
    assert |nexthop| >= 12 ==> mid[9..13] == nexthop[8..12];
  }

  /** A withdrawal attribute gives back every prefix. */
  lemma UnreachRoundTrip(vs: seq<VpnPrefix>)
    requires forall v :: v in vs ==> Canonical(v)
    ensures MpOf(EncodeUnreach(vs), true) == MpRoutes([], Meanings(vs))
  {
    hide Canonical, FirstNlri, EncodeNlri, NlrisOf, EncodeNlris;
    NlrisRoundTrip(vs);
    var w := EncodeUnreach(vs);
    assert w == [0, 1, 128] + EncodeNlris(vs) && w[3..] == EncodeNlris(vs);
  }

  // ---- path attributes, section 4.3 of RFC 4271 ----

  datatype PathAttr = PathAttr(flags: nat, typ: nat, value: seq<Byte>)

  predicate Extended(flags: nat) {
    (flags / 16) % 2 == 1
  }

  datatype Read = Attrs(attrs: seq<PathAttr>) | Fault

  /** The attribute loop over `b`; `behind` is how many message bytes follow `b`. With the
      extended-length flag on a three-byte remainder the two length bytes are taken from
      what follows; when nothing follows, that slice is out of range. */
  function AttrsOf(b: seq<Byte>, behind: nat): Read
    decreases |b|
  {
    if |b| < 3 then Attrs([])
    else if Extended(b[0]) && |b| == 3 then (if behind == 0 then Fault else Attrs([]))
    else
      var hdr, alen := if Extended(b[0]) then 4 else 3, if Extended(b[0]) then Be16(b[2..]) else b[2];
      if |b| < hdr + alen then Attrs([])
      else
        match AttrsOf(b[hdr + alen..], behind)
        case Fault => Fault
        case Attrs(rest) => Attrs([PathAttr(b[0], b[1], b[hdr..hdr + alen])] + rest)
  }

  predicate WellFormed(a: PathAttr) {
    a.flags < 256 && a.typ < 256 && |a.value| < if Extended(a.flags) then 0x1_0000 else 256
  }

  function EncodeAttr(a: PathAttr): (b: seq<Byte>)
    requires WellFormed(a)
    ensures |b| == (if Extended(a.flags) then 4 else 3) + |a.value|
  {
    [a.flags, a.typ] + (if Extended(a.flags) then PutBe16(|a.value|) else [|a.value|]) + a.value
  }

  function EncodeAttrs(xs: seq<PathAttr>): seq<Byte>
    requires forall a :: a in xs ==> WellFormed(a)
  {
    if xs == [] then [] else EncodeAttr(xs[0]) + EncodeAttrs(xs[1..])
  }

  lemma AttrHead(a: PathAttr, rest: seq<Byte>)
    requires WellFormed(a)
    ensures var b := EncodeAttr(a) + rest;
            var hdr := if Extended(a.flags) then 4 else 3;
            && b[0] == a.flags && b[1] == a.typ
            && |b| >= hdr + |a.value|
            && (if Extended(a.flags) then Be16(b[2..]) == |a.value| else b[2] == |a.value|)
            && b[hdr..hdr + |a.value|] == a.value && b[hdr + |a.value|..] == rest
  {
    var b := EncodeAttr(a) + rest;
    if Extended(a.flags) {
      var w := PutBe16(|a.value|);
      assert b[2] == w[0] && b[3] == w[1];
      assert b[2..][0] == w[0] && b[2..][1] == w[1];
    }
  }

  /** One turn of the loop: the first attribute, and what is left. */
  function Prepend(seen: seq<PathAttr>, r: Read): Read {
    match r case Fault => Fault case Attrs(xs) => Attrs(seen + xs)
  }

  lemma AttrStep(a: PathAttr, rest: seq<Byte>, behind: nat)
    requires WellFormed(a)
    ensures AttrsOf(EncodeAttr(a) + rest, behind) == Prepend([a], AttrsOf(rest, behind))
  {
    AttrHead(a, rest);
    hide EncodeAttr, Be16;
    var b := EncodeAttr(a) + rest;
    var hdr := if Extended(a.flags) then 4 else 3;
    assert b[hdr + |a.value|..] == rest;
  }

  /** Any list of well-formed attributes is read back in order and to its end. */
  lemma {:induction false} AttrsRoundTrip(xs: seq<PathAttr>, behind: nat)
    requires forall a :: a in xs ==> WellFormed(a)
    ensures AttrsOf(EncodeAttrs(xs), behind) == Attrs(xs)
  {
    if xs != [] {
      hide EncodeAttr, AttrsOf, WellFormed;
      AttrsRoundTrip(xs[1..], behind);
      AttrStep(xs[0], EncodeAttrs(xs[1..]), behind);
    }
  }

  /** The loop leaves its message exactly when well-formed attributes are followed by
      three bytes whose flags announce an extended length, at the end of the message. */
  lemma {:induction false} FaultIff(b: seq<Byte>, behind: nat)
    ensures AttrsOf(b, behind).Fault? <==>
            behind == 0 && exists xs: seq<PathAttr>, t: seq<Byte> ::
              (forall a :: a in xs ==> WellFormed(a)) && |t| == 3 && Extended(t[0]) && b == EncodeAttrs(xs) + t
    decreases |b|
  {
    if AttrsOf(b, behind).Fault? {
      var xs, t := FaultShape(b, behind);
    } else if exists xs: seq<PathAttr>, t: seq<Byte> ::
        (forall a :: a in xs ==> WellFormed(a)) && |t| == 3 && Extended(t[0]) && b == EncodeAttrs(xs) + t {
      var xs: seq<PathAttr>, t: seq<Byte> :|
        (forall a :: a in xs ==> WellFormed(a)) && |t| == 3 && Extended(t[0]) && b == EncodeAttrs(xs) + t;
      if behind == 0 { ShapeFaults(xs, t); }
    }
  }

  /** An attribute with the extended-length flag, cut behind its third byte at the end of
      the message. */
  lemma CutLengthExample()
    ensures AttrsOf([0x50, 14, 0], 0) == Fault && AttrsOf([0x50, 14, 0], 1) == Attrs([])
  {
    assert Extended(0x50);
  }

  lemma {:induction false} ShapeFaults(xs: seq<PathAttr>, t: seq<Byte>)
    requires (forall a :: a in xs ==> WellFormed(a)) && |t| == 3 && Extended(t[0])
    ensures AttrsOf(EncodeAttrs(xs) + t, 0).Fault?
  {
    if xs == [] {
      assert EncodeAttrs(xs) + t == t;
    } else {
      hide EncodeAttr, AttrsOf, WellFormed;
      var rest := EncodeAttrs(xs[1..]) + t;
      assert EncodeAttrs(xs) + t == EncodeAttr(xs[0]) + rest;
      AttrStep(xs[0], rest, 0);
      ShapeFaults(xs[1..], t);
    }
  }

  lemma {:induction false} FaultShape(b: seq<Byte>, behind: nat) returns (xs: seq<PathAttr>, t: seq<Byte>)
    requires AttrsOf(b, behind).Fault?
    ensures behind == 0 && (forall a :: a in xs ==> WellFormed(a)) && |t| == 3 && Extended(t[0])
    ensures b == EncodeAttrs(xs) + t
    decreases |b|
  {
    if |b| == 3 && Extended(b[0]) {
      xs, t := [], b;
    } else {
      var a, rest := TakeAttr(b, behind);
      var ys, u := FaultShape(rest, behind);
      xs, t := [a] + ys, u;
      assert xs[1..] == ys;
    }
  }

  /** A first attribute that is read is the encoding of a well-formed one. */
  lemma TakeAttr(b: seq<Byte>, behind: nat) returns (a: PathAttr, rest: seq<Byte>)
    requires AttrsOf(b, behind).Fault? && !(|b| == 3 && Extended(b[0]))
    ensures WellFormed(a) && b == EncodeAttr(a) + rest && |rest| < |b| && AttrsOf(rest, behind).Fault?
  {
    var ext := Extended(b[0]);
    var hdr, alen := if ext then 4 else 3, if ext then Be16(b[2..]) else b[2];
    a, rest := PathAttr(b[0], b[1], b[hdr..hdr + alen]), b[hdr + alen..];
    if ext {
      Be16Take(b[2..]);
      assert b[2..4] == b[2..][..2];
      Be16Injective(PutBe16(alen), b[2..4]);
    }
  }

  // ---- the UPDATE message ----

  datatype Update = NotUpdate | Broken | Update(reach: Option<seq<Byte>>, unreach: Option<seq<Byte>>, rts: seq<string>)

  const MP_REACH := 14
  const MP_UNREACH := 15
  const EXT_COMM := 16

  function LastValue(xs: seq<PathAttr>, typ: nat): Option<seq<Byte>> {
    if xs == [] then None
    else if xs[|xs| - 1].typ == typ then Some(xs[|xs| - 1].value)
    else LastValue(xs[..|xs| - 1], typ)
  }

  function UpdateFrom(xs: seq<PathAttr>): Update {
    Update(LastValue(xs, MP_REACH), LastValue(xs, MP_UNREACH),
           match LastValue(xs, EXT_COMM) case None => [] case Some(v) => TargetsOf(v))
  }

  function UpdateOf(m: seq<Byte>): Update {
    if |m| < 19 || m[18] != 2 then NotUpdate
    else
      var p := m[19..];
      if |p| < 2 then NotUpdate
      else
        var wLen := Be16(p);
        if |p| < 2 + wLen + 2 then NotUpdate
        else
          var q := p[2 + wLen..];
          var paLen := Be16(q);
          if |q| < 2 + paLen then NotUpdate
          else
            match AttrsOf(q[2..2 + paLen], |q| - 2 - paLen)
            case Fault => Broken
            case Attrs(xs) => UpdateFrom(xs)
  }

  lemma UpdateGrows(seen: seq<PathAttr>, a: PathAttr)
    ensures var u, w := UpdateFrom(seen), UpdateFrom(seen + [a]);
            w == if a.typ == MP_REACH then u.(reach := Some(a.value))
                 else if a.typ == MP_UNREACH then u.(unreach := Some(a.value))
                 else if a.typ == EXT_COMM then u.(rts := TargetsOf(a.value))
                 else u
  {
    assert (seen + [a])[..|seen|] == seen;
  }

  lemma PrependGrows(seen: seq<PathAttr>, a: PathAttr, r: Read)
    ensures Prepend(seen, Prepend([a], r)) == Prepend(seen + [a], r)
  {
    if r.Attrs? { assert seen + ([a] + r.attrs) == seen + [a] + r.attrs; }
  }

  lemma PrependNone(seen: seq<PathAttr>)
    ensures Prepend(seen, Attrs([])) == Attrs(seen)
  {
    assert seen + [] == seen;
  }

  /** The attribute loop of parseUpdate. */
  method ReadAttrs(b: seq<Byte>, behind: nat) returns (u: Update)
    ensures u == match AttrsOf(b, behind) case Fault => Broken case Attrs(xs) => UpdateFrom(xs)
  {
    hide UpdateFrom, Prepend, Be16, Extended;
    var attrs := b;
    ghost var seen: seq<PathAttr> := [];
    u := Update(None, None, []);
    assert u == UpdateFrom([]) by { NoAttrs(AttrsOf(b, behind)); }
    NoAttrs(AttrsOf(b, behind));
    while |attrs| >= 3
      invariant u == UpdateFrom(seen) && u.Update?
      invariant AttrsOf(b, behind) == Prepend(seen, AttrsOf(attrs, behind))
      decreases |attrs|
    {
      PrependNone(seen);
      var flags, typ := attrs[0], attrs[1];
      var alen: nat, hdr := attrs[2], 3;
      if Extended(flags) {
        if |attrs| < 4 {
          if behind == 0 {
            PrependFault(seen);
            return Broken;
          }
          return;
        }
        alen, hdr := Be16(attrs[2..]), 4;
      }
      if |attrs| < hdr + alen { return; }
      var val := attrs[hdr..hdr + alen];
      ghost var a := PathAttr(flags, typ, val);
      PrependOne(a, AttrsOf(attrs[hdr + alen..], behind));
      PrependGrows(seen, a, AttrsOf(attrs[hdr + alen..], behind));
      UpdateGrows(seen, a);
      match typ {
        case 14 => u := u.(reach := Some(val));
        case 15 => u := u.(unreach := Some(val));
        case 16 =>
          var rts := ParseRTs(val);
          u := u.(rts := rts);
        case _ =>
      }
      seen, attrs := seen + [a], attrs[hdr + alen..];
    }
    PrependNone(seen);
  }

  lemma NoAttrs(r: Read)
    ensures UpdateFrom([]) == Update(None, None, []) && Prepend([], r) == r
  {
  }

  lemma PrependFault(seen: seq<PathAttr>)
    ensures Prepend(seen, Fault) == Fault
  {
  }

  lemma PrependOne(a: PathAttr, r: Read)
    ensures Prepend([a], r) == match r case Fault => Fault case Attrs(xs) => Attrs([a] + xs)
  {
  }

  method ParseUpdate(m: seq<Byte>) returns (u: Update)
    ensures u == UpdateOf(m)
  {
    hide AttrsOf, UpdateFrom;
    if |m| < 19 || m[18] != 2 { return NotUpdate; }
    var p := m[19..];
    if |p| < 2 { return NotUpdate; }
    var wLen := Be16(p);
    p := p[2..];
    if |p| < wLen + 2 { return NotUpdate; }
    p := p[wLen..];
    assert p == m[19..][2 + wLen..];
    var paLen := Be16(p);
    p := p[2..];
    if |p| < paLen { return NotUpdate; }
    u := ReadAttrs(p[..paLen], |p| - paLen);
    assert p[..paLen] == m[19..][2 + wLen..][2..2 + paLen];
  }

  function EncodeUpdate(hdr: seq<Byte>, withdrawn: seq<Byte>, xs: seq<PathAttr>, nlri: seq<Byte>): seq<Byte>
    requires |hdr| == 18 && |withdrawn| < 0x1_0000 && forall a :: a in xs ==> WellFormed(a)
    requires |EncodeAttrs(xs)| < 0x1_0000
  {
    hdr + [2] + PutBe16(|withdrawn|) + withdrawn + PutBe16(|EncodeAttrs(xs)|) + EncodeAttrs(xs) + nlri
  }

  /** Whatever IPv4 routes surround them, the path attributes are found and read. */
  lemma UpdateRoundTrip(hdr: seq<Byte>, withdrawn: seq<Byte>, xs: seq<PathAttr>, nlri: seq<Byte>)
    requires |hdr| == 18 && |withdrawn| < 0x1_0000 && forall a :: a in xs ==> WellFormed(a)
    requires |EncodeAttrs(xs)| < 0x1_0000
    ensures UpdateOf(EncodeUpdate(hdr, withdrawn, xs, nlri)) == UpdateFrom(xs)
  {
    hide AttrsOf, EncodeAttrs, UpdateFrom, Be16, EncodeUpdate, Counted;
    var attrs := EncodeAttrs(xs);
    AttrsRoundTrip(xs, |nlri|);
    EncodedUpdate(hdr, withdrawn, xs, nlri);
    var q := Counted(attrs, nlri);
    CountedParts(attrs, nlri);
    CountedParts(withdrawn, q);
    assert q[2..2 + |attrs|] == attrs;
  }

  lemma EncodedUpdate(hdr: seq<Byte>, withdrawn: seq<Byte>, xs: seq<PathAttr>, nlri: seq<Byte>)
    requires |hdr| == 18 && |withdrawn| < 0x1_0000 && forall a :: a in xs ==> WellFormed(a)
    requires |EncodeAttrs(xs)| < 0x1_0000
    ensures var m := EncodeUpdate(hdr, withdrawn, xs, nlri);
            |m| >= 19 && m[18] == 2 && m[19..] == Counted(withdrawn, Counted(EncodeAttrs(xs), nlri))
  {
    hide EncodeAttrs, Be16;
    var p := Counted(withdrawn, Counted(EncodeAttrs(xs), nlri));
    assert EncodeUpdate(hdr, withdrawn, xs, nlri) == (hdr + [2]) + p;
  }

  /** Bytes behind their two-byte length, and what follows them. */
  function Counted(x: seq<Byte>, rest: seq<Byte>): seq<Byte>
    requires |x| < 0x1_0000
  {
    PutBe16(|x|) + (x + rest)
  }

  lemma CountedParts(x: seq<Byte>, rest: seq<Byte>)
    requires |x| < 0x1_0000
    ensures var p := Counted(x, rest);
            |p| == 2 + |x| + |rest| && Be16(p) == |x| && p[2..2 + |x|] == x && p[2 + |x|..] == rest
  {
    Be16Append(PutBe16(|x|), x + rest);
  }
}
