/** The text forms under which VPN routes are filed: route distinguishers, route
    targets, dotted addresses. */
module RouteText {
  import opened Bytes
  import opened Options
  import Text

  function Octets(ip: seq<Byte>): (r: seq<string>)
    ensures |r| == |ip| && forall i :: 0 <= i < |ip| ==> r[i] == Text.Dec(ip[i])
  {
    seq(|ip|, i requires 0 <= i < |ip| => Text.Dec(ip[i]))
  }

  /** `net.IP.String` for four bytes. */
  function Dotted(ip: seq<Byte>): string
    requires |ip| == 4
  {
    Text.Join(Octets(ip), '.')
  }

  lemma DottedInjective(a: seq<Byte>, b: seq<Byte>)
    requires |a| == |b| == 4 && Dotted(a) == Dotted(b)
    ensures a == b
  {
    Text.SplitJoin(Octets(a), '.');
    Text.SplitJoin(Octets(b), '.');
    forall i | 0 <= i < 4 ensures a[i] == b[i] {
      assert Octets(a)[i] == Octets(b)[i];
      Text.DecInjective(a[i], b[i]);
    }
  }

  /** The characters of a joined list are its parts' and the separator. */
  lemma {:induction false} JoinChars(parts: seq<string>, sep: char, c: char)
    requires c != sep && forall p :: p in parts ==> c !in p
    ensures c !in Text.Join(parts, sep)
  {
    if |parts| > 1 { JoinChars(parts[1..], sep, c); }
  }

  function Pair(left: string, right: nat): string {
    left + ":" + Text.Dec(right)
  }

  lemma PairInjective(a: string, m: nat, b: string, n: nat)
    requires ':' !in a && ':' !in b && Pair(a, m) == Pair(b, n)
    ensures a == b && m == n
  {
    Text.CutUnique(a, Text.Dec(m), b, Text.Dec(n), ':');
    Text.DecInjective(m, n);
  }

  // ---- route distinguishers, section 4.2 of RFC 4364 ----

  /** The two sides of a distinguisher: administrator text and assigned number. */
  datatype Rd = Rd(admin: string, number: nat)

  function RdParts(b: seq<Byte>): Option<Rd>
    requires |b| == 8
  {
    match Be16(b)
    case 0 => Some(Rd(Text.Dec(Be16(b[2..])), Be32(b[4..])))
    case 1 => Some(Rd(Dotted(b[2..6]), Be16(b[6..])))
    case 2 => Some(Rd(Text.Dec(Be32(b[2..])), Be16(b[6..])))
    case _ => None
  }

  function FormatRD(b: seq<Byte>): string {
    if |b| < 8 then ""
    else match RdParts(b[..8]) case None => "" case Some(rd) => Pair(rd.admin, rd.number)
  }

  lemma AdminHasNoColon(b: seq<Byte>)
    requires |b| == 8 && RdParts(b).Some?
    ensures ':' !in RdParts(b).value.admin
  {
    if Be16(b) == 1 { JoinChars(Octets(b[2..6]), '.', ':'); }
  }

  lemma DottedHasDot(ip: seq<Byte>)
    requires |ip| == 4
    ensures '.' in Dotted(ip)
  {
    var o := Octets(ip);
    assert Dotted(ip) == o[0] + ['.'] + Text.Join(o[1..], '.');
    assert Dotted(ip)[|o[0]|] == '.';
  }

  /** Inside one of the three types the text determines the distinguisher. */
  lemma RdInjectiveWithinType(a: seq<Byte>, b: seq<Byte>)
    requires |a| == |b| == 8 && Be16(a) == Be16(b) < 3
    requires FormatRD(a) == FormatRD(b)
    ensures a == b
  {
    assert a[..8] == a && b[..8] == b;
    SameParts(a, b);
    Be16Injective(a[..2], b[..2]);
    var p, q := RdParts(a).value, RdParts(b).value;
    if Be16(a) == 0 {
      Text.DecInjective(Be16(a[2..]), Be16(b[2..]));
      Be16Injective(a[2..4], b[2..4]);
      Be32Injective(a[4..], b[4..]);
      assert a == a[..2] + a[2..4] + a[4..] && b == b[..2] + b[2..4] + b[4..];
    } else if Be16(a) == 1 {
      DottedInjective(a[2..6], b[2..6]);
      Be16Injective(a[6..], b[6..]);
      assert a == a[..2] + a[2..6] + a[6..] && b == b[..2] + b[2..6] + b[6..];
    } else {
      Text.DecInjective(Be32(a[2..]), Be32(b[2..]));
      Be32Prefix(a[2..]);
      Be32Prefix(b[2..]);
      Be32Injective(a[2..6], b[2..6]);
      Be16Injective(a[6..], b[6..]);
      assert a == a[..2] + a[2..6] + a[6..] && b == b[..2] + b[2..6] + b[6..];
    }
  }

  lemma Be32Prefix(b: seq<Byte>)
    requires |b| >= 4
    ensures Be32(b[..4]) == Be32(b)
  {
    assert b == b[..4] + b[4..];
    Be32Append(b[..4], b[4..]);
  }

  lemma SameParts(a: seq<Byte>, b: seq<Byte>)
    requires |a| == |b| == 8 && RdParts(a).Some? && RdParts(b).Some? && FormatRD(a) == FormatRD(b)
    ensures RdParts(a) == RdParts(b)
  {
    assert a[..8] == a && b[..8] == b;
    hide RdParts;
    AdminHasNoColon(a);
    AdminHasNoColon(b);
    var p, q := RdParts(a).value, RdParts(b).value;
    PairInjective(p.admin, p.number, q.admin, q.number);
  }

  /** `a` is of type 0, `b` of type 2, and they hold the same two numbers. */
  predicate SameNumbers(a: seq<Byte>, b: seq<Byte>)
    requires |a| == |b| == 8
  {
    Be16(a) == 0 && Be16(b) == 2 && Be16(a[2..]) == Be32(b[2..]) && Be32(a[4..]) == Be16(b[6..])
  }

  lemma KnownCollisions(a: seq<Byte>, b: seq<Byte>)
    requires |a| == |b| == 8 && Be16(a) < 3 && Be16(b) < 3 && a != b
    ensures FormatRD(a) == FormatRD(b) <==> SameNumbers(a, b) || SameNumbers(b, a)
  {
    assert a[..8] == a && b[..8] == b;
    if FormatRD(a) == FormatRD(b) {
      if Be16(a) == Be16(b) {
        RdInjectiveWithinType(a, b);
      } else {
        SameParts(a, b);
        hide Dotted, Be32;
        if Be16(a) == 1 {
          DottedHasDot(a[2..6]);
        } else if Be16(b) == 1 {
          DottedHasDot(b[2..6]);
        } else if Be16(a) == 0 {
          Text.DecInjective(Be16(a[2..]), Be32(b[2..]));
        } else {
          Text.DecInjective(Be32(a[2..]), Be16(b[2..]));
        }
      }
    }
  }

  lemma KnownHasText(a: seq<Byte>)
    requires |a| == 8
    ensures FormatRD(a) == "" <==> Be16(a) >= 3
  {
    assert a[..8] == a;
    if RdParts(a).Some? {
      var rd := RdParts(a).value;
      assert Pair(rd.admin, rd.number)[|rd.admin|] == ':';
    }
  }

  /** Two different distinguishers share a text exactly when one is of type 0, the other of
      type 2, and they hold the same two numbers, or both are of unknown types, which have
      no text. */
  lemma RdCollisions(a: seq<Byte>, b: seq<Byte>)
    requires |a| == |b| == 8 && a != b
    ensures FormatRD(a) == FormatRD(b) <==>
            SameNumbers(a, b) || SameNumbers(b, a) || (Be16(a) >= 3 && Be16(b) >= 3)
  {
    hide FormatRD, Be32;
    KnownHasText(a);
    KnownHasText(b);
    if Be16(a) < 3 && Be16(b) < 3 { KnownCollisions(a, b); }
  }

  /** The distinguishers 1:2 of type 0 and of type 2 are filed as one. */
  lemma RdCollisionExample()
    ensures FormatRD([0, 0, 0, 1, 0, 0, 0, 2]) == FormatRD([0, 2, 0, 0, 0, 1, 0, 2]) == "1:2"
  {
    var a: seq<Byte>, b: seq<Byte> := [0, 0, 0, 1, 0, 0, 0, 2], [0, 2, 0, 0, 0, 1, 0, 2];
    assert a[..8] == a && b[..8] == b;
    assert RdParts(a) == Some(Rd("1", 2)) by {
      assert a[2..] == [0, 1, 0, 0, 0, 2] && a[4..] == [0, 0, 0, 2] && a[4..][2..] == [0, 2];
    }
    assert RdParts(b) == Some(Rd("1", 2)) by {
      assert b[2..] == [0, 0, 0, 1, 0, 2] && b[2..][2..] == [0, 1, 0, 2] && b[6..] == [0, 2];
    }
    assert Text.Dec(2) == "2";
  }

  // ---- distinguishers and targets as they are assigned ----

  /** An administrator and the number it assigned, in one of three shapes. */
  datatype Assigned =
    | As2(asn: nat, n: nat)             // a two-byte AS number
    | Ip4(ip: seq<Byte>, n: nat)        // an IPv4 address
    | As4(asn: nat, n: nat)             // a four-byte AS number

  predicate ValidAssigned(v: Assigned) {
    match v
    case As2(asn, n) => asn < 0x1_0000 && n < 0x1_0000_0000
    case Ip4(ip, n) => |ip| == 4 && n < 0x1_0000
    case As4(asn, n) => asn < 0x1_0000_0000 && n < 0x1_0000
  }

  function TypeCode(v: Assigned): (t: Byte) {
    match v case As2(_, _) => 0 case Ip4(_, _) => 1 case As4(_, _) => 2
  }

  function Fields(v: Assigned): (b: seq<Byte>)
    requires ValidAssigned(v)
    ensures |b| == 6
  {
    match v
    case As2(asn, n) => PutBe16(asn) + PutBe32(n)
    case Ip4(ip, n) => ip + PutBe16(n)
    case As4(asn, n) => PutBe32(asn) + PutBe16(n)
  }

  /** A distinguisher: section 4.2 of RFC 4364. */
  function EncodeRD(v: Assigned): (b: seq<Byte>)
    requires ValidAssigned(v)
    ensures |b| == 8
  {
    [0, TypeCode(v)] + Fields(v)
  }

  /** A route target community: sections 3.1 to 3.3 and 4 of RFC 4360, section 2 of RFC 5668. */
  function EncodeTarget(v: Assigned): (b: seq<Byte>)
    requires ValidAssigned(v)
    ensures |b| == 8
  {
    [TypeCode(v), 2] + Fields(v)
  }

  function AssignedText(v: Assigned): string
    requires ValidAssigned(v)
  {
    match v
    case Ip4(ip, n) => Text.Dec(ip[0]) + "." + Text.Dec(ip[1]) + "." + Text.Dec(ip[2]) + "." + Text.Dec(ip[3]) + ":" +
                       Text.Dec(n)
    case _ => Text.Dec(v.asn) + ":" + Text.Dec(v.n)
  }

  lemma DottedText(ip: seq<Byte>)
    requires |ip| == 4
    ensures Dotted(ip) == Text.Dec(ip[0]) + "." + Text.Dec(ip[1]) + "." + Text.Dec(ip[2]) + "." + Text.Dec(ip[3])
  {
    var o := Octets(ip);
    assert o[1..][1..][1..] == [o[3]];
    hide Text.Dec;
    assert Text.Join(o[1..][1..][1..], '.') == o[3];
    assert Text.Join(o[1..][1..], '.') == o[2] + "." + o[3];
    assert Text.Join(o[1..], '.') == o[1] + "." + (o[2] + "." + o[3]);
    assert o[0] + "." + (o[1] + "." + (o[2] + "." + o[3])) == o[0] + "." + o[1] + "." + o[2] + "." + o[3];
  }

  /** What the readers find behind the two type bytes. */
  lemma FieldsAre(head: seq<Byte>, v: Assigned)
    requires ValidAssigned(v) && |head| == 2
    ensures var b := head + Fields(v);
            match v
            case As2(asn, n) => Be16(b[2..]) == asn && Be32(b[4..]) == n
            case Ip4(ip, n) => b[2..6] == ip && Be16(b[6..]) == n
            case As4(asn, n) => Be32(b[2..]) == asn && Be16(b[6..]) == n
  {
    hide Be16, Be32, PutBe16, PutBe32;
    var b := head + Fields(v);
    match v
    case As2(asn, n) =>
      assert b[2..] == PutBe16(asn) + PutBe32(n) && b[4..] == PutBe32(n);
      Be16Append(PutBe16(asn), PutBe32(n));
    case Ip4(ip, n) =>
      assert b[6..] == PutBe16(n);
    case As4(asn, n) =>
      assert b[2..] == PutBe32(asn) + PutBe16(n) && b[6..] == PutBe16(n);
      Be32Append(PutBe32(asn), PutBe16(n));
  }

  /** A distinguisher of each known type is filed under its administrator and number. */
  lemma RdRoundTrip(v: Assigned)
    requires ValidAssigned(v)
    ensures FormatRD(EncodeRD(v)) == AssignedText(v)
  {
    var b := EncodeRD(v);
    FieldsAre([0, TypeCode(v)], v);
    if v.Ip4? { DottedText(v.ip); }
    hide Be32, Text.Dec, Dotted, Fields;
    assert b[..8] == b && Be16(b) == TypeCode(v);
  }

  // ---- route targets ----

  /** A route target's text; None for other extended communities. */
  function RouteTarget(c: seq<Byte>): Option<string>
    requires |c| == 8
  {
    if c[1] != 2 then None
    else
      match c[0]
      case 0 => Some(Pair(Text.Dec(Be16(c[2..])), Be32(c[4..])))
      case 1 => Some(Pair(Dotted(c[2..6]), Be16(c[6..])))
      case 2 => Some(Pair(Text.Dec(Be32(c[2..])), Be16(c[6..])))
      case _ => None
  }

  function TargetsOf(v: seq<Byte>): seq<string> {
    if |v| < 8 then []
    else (match RouteTarget(v[..8]) case Some(s) => [s] case None => []) + TargetsOf(v[8..])
  }

  method TargetText(c: seq<Byte>) returns (rt: Option<string>)
    requires |c| == 8
    ensures rt == RouteTarget(c)
  {
    hide Dotted, Be32, Be16;
    rt := None;
    if c[1] != 2 { return; }
    match c[0] {
      case 0 =>
        Be16Take(c[2..]);
        assert c[2..4] == c[2..][..2] && c[4..8] == c[4..];
        rt := Some(Text.Dec(Be16(c[2..4])) + ":" + Text.Dec(Be32(c[4..8])));
      case 1 =>
        assert c[6..8] == c[6..];
        rt := Some(Dotted(c[2..6]) + ":" + Text.Dec(Be16(c[6..8])));
      case 2 =>
        Be32Prefix(c[2..]);
        assert c[2..6] == c[2..][..4] && c[6..8] == c[6..];
        rt := Some(Text.Dec(Be32(c[2..6])) + ":" + Text.Dec(Be16(c[6..8])));
      case _ =>
    }
  }

  method ParseRTs(b: seq<Byte>) returns (rts: seq<string>)
    ensures rts == TargetsOf(b)
  {
    hide RouteTarget, TargetsOf;
    rts := [];
    var v := b;
    assert rts + TargetsOf(v) == TargetsOf(b);
    while |v| >= 8
      invariant TargetsOf(b) == rts + TargetsOf(v)
      decreases |v|
    {
      TargetsStep(v);
      var rt := TargetText(v[..8]);
      var more := match rt case Some(s) => [s] case None => [];
      assert rts + (more + TargetsOf(v[8..])) == rts + more + TargetsOf(v[8..]);
      rts := rts + more;
      v := v[8..];
    }
    TargetsStep(v);
  }

  lemma TargetsStep(v: seq<Byte>)
    ensures |v| < 8 ==> TargetsOf(v) == []
    ensures |v| >= 8 ==>
              TargetsOf(v) == (match RouteTarget(v[..8]) case Some(s) => [s] case None => []) + TargetsOf(v[8..])
  {
  }

  lemma Be16Take(b: seq<Byte>)
    requires |b| >= 2
    ensures Be16(b[..2]) == Be16(b)
  {
  }

  function Concat(cs: seq<seq<Byte>>): seq<Byte> {
    if cs == [] then [] else cs[0] + Concat(cs[1..])
  }

  function TargetTexts(cs: seq<seq<Byte>>): seq<string>
    requires forall c :: c in cs ==> |c| == 8
  {
    if cs == [] then []
    else (match RouteTarget(cs[0]) case Some(s) => [s] case None => []) + TargetTexts(cs[1..])
  }

  /** The targets of any list of extended communities are recovered in order. */
  lemma {:induction false} TargetsRoundTrip(cs: seq<seq<Byte>>)
    requires forall c :: c in cs ==> |c| == 8
    ensures TargetsOf(Concat(cs)) == TargetTexts(cs)
  {
    hide RouteTarget;
    if cs != [] {
      var b := Concat(cs);
      assert b[..8] == cs[0] && b[8..] == Concat(cs[1..]);
      TargetsRoundTrip(cs[1..]);
    }
  }

  /** A route target of each known type is listed by its administrator and number; a community
      of another subtype or type is not listed. */
  lemma TargetRoundTrip(v: Assigned)
    requires ValidAssigned(v)
    ensures RouteTarget(EncodeTarget(v)) == Some(AssignedText(v))
  {
    FieldsAre([TypeCode(v), 2], v);
    if v.Ip4? { DottedText(v.ip); }
    hide Be16, Be32, Text.Dec, Dotted, Fields;
    assert EncodeTarget(v)[0] == TypeCode(v) && EncodeTarget(v)[1] == 2;
  }

  datatype Community = Target(v: Assigned) | Other(bytes: seq<Byte>)

  /** A community of another kind: no route target, or of no known type. */
  predicate ValidCommunity(c: Community) {
    if c.Target? then ValidAssigned(c.v) else |c.bytes| == 8 && (c.bytes[1] != 2 || c.bytes[0] > 2)
  }

  function EncodeCommunities(cs: seq<Community>): seq<Byte>
    requires forall c :: c in cs ==> ValidCommunity(c)
  {
    if cs == [] then []
    else
      assert ValidCommunity(cs[0]);
      (if cs[0].Target? then EncodeTarget(cs[0].v) else cs[0].bytes) + EncodeCommunities(cs[1..])
  }

  /** The texts of the targets among the communities, in order. */
  function Listed(cs: seq<Community>): seq<string>
    requires forall c :: c in cs ==> ValidCommunity(c)
  {
    if cs == [] then []
    else assert ValidCommunity(cs[0]); (if cs[0].Target? then [AssignedText(cs[0].v)] else []) + Listed(cs[1..])
  }

  /** The route targets of any list of communities, and no others, are listed in order. */
  lemma {:induction false} TargetsOnWire(cs: seq<Community>)
    requires forall c :: c in cs ==> ValidCommunity(c)
    ensures TargetsOf(EncodeCommunities(cs)) == Listed(cs)
  {
    if cs != [] {
      var c, rest := cs[0], EncodeCommunities(cs[1..]);
      assert ValidCommunity(c);
      var head := if c.Target? then EncodeTarget(c.v) else c.bytes;
      if c.Target? { TargetRoundTrip(c.v); } else { assert RouteTarget(head) == None; }
      TargetsOnWire(cs[1..]);
      hide RouteTarget, TargetsOf, AssignedText, EncodeTarget;
      assert EncodeCommunities(cs) == head + rest && (head + rest)[..8] == head && (head + rest)[8..] == rest;
      TargetsStep(head + rest);
    }
  }
}
