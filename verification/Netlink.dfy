/** Netlink attribute streams and MPLS label stacks. */
module Netlink {
  import opened Bytes
  import Text

  // ---- attributes ----

  datatype Attr = Attr(typ: nat, payload: seq<Byte>)

  /** The callbacks a walk makes, and whether it then slices past the end of the stream. */
  datatype Walk = Walk(attrs: seq<Attr>, fault: bool)

  const TYPE_MASK := 0x4000  // types are taken modulo this: the two flag bits are stripped

  function Pad4(n: nat): (r: nat)
    ensures n <= r < n + 4 && r % 4 == 0
  {
    (n + 3) / 4 * 4
  }

  function AttrsOf(b: seq<Byte>): Walk {
    if |b| < 4 then Walk([], false)
    else
      var alen, typ := Le16(b), Le16(b[2..]) % TYPE_MASK;
      if alen < 4 || alen > |b| then Walk([], false)
      else
        var a := Attr(typ, b[4..alen]);
        if Pad4(alen) > |b| then Walk([a], true)
        else
          var rest := AttrsOf(b[Pad4(alen)..]);
          Walk([a] + rest.attrs, rest.fault)
  }

  method ForEachAttr(b: seq<Byte>) returns (w: Walk)
    ensures w == AttrsOf(b)
  {
    hide AttrsOf, Pad4, Le16;
    var attrs, seen := b, [];
    Prepend([], AttrsOf(b));
    while |attrs| >= 4
      invariant AttrsOf(b) == After(seen, AttrsOf(attrs))
      decreases |attrs|
    {
      WalkStep(attrs);
      var alen := Le16(attrs);
      var typ := Le16(attrs[2..]) % TYPE_MASK;
      if alen < 4 || alen > |attrs| { return Walk(seen, false); }
      var a := Attr(typ, attrs[4..alen]);
      if Pad4(alen) > |attrs| { return Walk(seen + [a], true); }
      var rest := attrs[Pad4(alen)..];
      AfterAfter(seen, a, AttrsOf(rest));
      seen := seen + [a];
      attrs := rest;
    }
    WalkStep(attrs);
    w := Walk(seen, false);
  }

  function After(seen: seq<Attr>, w: Walk): Walk {
    Walk(seen + w.attrs, w.fault)
  }

  lemma Prepend(seen: seq<Attr>, w: Walk)
    requires seen == []
    ensures After(seen, w) == w
  {
  }

  lemma AfterAfter(seen: seq<Attr>, a: Attr, w: Walk)
    ensures After(seen, After([a], w)) == After(seen + [a], w)
  {
    assert seen + ([a] + w.attrs) == seen + [a] + w.attrs;
  }

  lemma WalkStep(b: seq<Byte>)
    ensures |b| < 4 ==> AttrsOf(b) == Walk([], false)
    ensures |b| >= 4 ==>
              var alen := Le16(b);
              if alen < 4 || alen > |b| then AttrsOf(b) == Walk([], false)
              else
                var a := Attr(Le16(b[2..]) % TYPE_MASK, b[4..alen]);
                if Pad4(alen) > |b| then AttrsOf(b) == Walk([a], true)
                else AttrsOf(b) == After([a], AttrsOf(b[Pad4(alen)..]))
  {
  }

  /** An attribute as a sender builds it: the two top bits of the type are flags, and any
      bytes may pad the payload to a multiple of four. */
  datatype RawAttr = RawAttr(flags: nat, typ: nat, payload: seq<Byte>, pad: seq<Byte>)

  predicate Sendable(a: RawAttr) {
    && a.flags < 4 && a.typ < 0x4000 && |a.payload| < 0x1_0000 - 4
    && |a.pad| == Pad4(4 + |a.payload|) - (4 + |a.payload|)
  }

  function Encode(a: RawAttr): (b: seq<Byte>)
    requires Sendable(a)
    ensures |b| == Pad4(4 + |a.payload|) && |b| % 4 == 0
  {
    PutLe16(4 + |a.payload|) + PutLe16(a.flags * 0x4000 + a.typ) + a.payload + a.pad
  }

  lemma Aligned(a: seq<Byte>, b: seq<Byte>)
    requires |a| % 4 == 0 && |b| % 4 == 0
    ensures |a + b| % 4 == 0
  {
    assert |a + b| == |a| + |b|;
  }

  function EncodeAll(xs: seq<RawAttr>): (b: seq<Byte>)
    requires forall a :: a in xs ==> Sendable(a)
    ensures |b| % 4 == 0
  {
    if xs == [] then []
    else
      Aligned(Encode(xs[0]), EncodeAll(xs[1..]));
      Encode(xs[0]) + EncodeAll(xs[1..])
  }

  function Plain(xs: seq<RawAttr>): (r: seq<Attr>)
    ensures |r| == |xs| && forall i :: 0 <= i < |xs| ==> r[i] == Attr(xs[i].typ, xs[i].payload)
  {
    seq(|xs|, i requires 0 <= i < |xs| => Attr(xs[i].typ, xs[i].payload))
  }

  lemma HeadOf(a: RawAttr, rest: seq<Byte>)
    requires Sendable(a)
    ensures var b := Encode(a) + rest;
            && Le16(b) == 4 + |a.payload| && Le16(b[2..]) == a.flags * 0x4000 + a.typ
            && b[4..4 + |a.payload|] == a.payload && b[Pad4(4 + |a.payload|)..] == rest
  {
    var alen := 4 + |a.payload|;
    var b := Encode(a) + rest;
    var h, t := PutLe16(alen), PutLe16(a.flags * 0x4000 + a.typ);
    assert b[0] == h[0] && b[1] == h[1] && b[2..][0] == t[0] && b[2..][1] == t[1];
  }

  lemma TypeStripped(flags: nat, typ: nat)
    requires typ < 0x4000
    ensures (flags * 0x4000 + typ) % TYPE_MASK == typ
  {
  }

  /** An encoded attribute is read, and the walk goes on behind it. */
  lemma AttrRead(a: RawAttr, rest: seq<Byte>)
    requires Sendable(a)
    ensures AttrsOf(Encode(a) + rest) == After([Attr(a.typ, a.payload)], AttrsOf(rest))
  {
    hide AttrsOf, Pad4, Le16, Encode;
    HeadOf(a, rest);
    WalkStep(Encode(a) + rest);
    TypeStripped(a.flags, a.typ);
  }

  /** Walking an encoded list of attributes gives back every type, without its flags, and
      every payload, in order, and stays inside the stream. */
  lemma {:induction false} AttrsRoundTrip(xs: seq<RawAttr>)
    requires forall a :: a in xs ==> Sendable(a)
    ensures AttrsOf(EncodeAll(xs)) == Walk(Plain(xs), false)
  {
    if xs != [] {
      hide AttrsOf, Encode, Sendable;
      AttrRead(xs[0], EncodeAll(xs[1..]));
      AttrsRoundTrip(xs[1..]);
      assert Plain(xs) == [Attr(xs[0].typ, xs[0].payload)] + Plain(xs[1..]);
    }
  }

  lemma {:induction false} AlignedNeverFaults(b: seq<Byte>)
    requires |b| % 4 == 0
    ensures !AttrsOf(b).fault
    decreases |b|
  {
    if |b| >= 4 {
      var alen := Le16(b);
      if 4 <= alen <= |b| { AlignedNeverFaults(b[Pad4(alen)..]); }
    }
  }

  /** Streams of `n` bytes are always walked inside their bounds exactly when `n` is a
      multiple of four, or too short to hold an attribute. */
  lemma FaultFreeLengths(n: nat)
    requires n < 0x1_0000
    ensures (forall b: seq<Byte> | |b| == n :: !AttrsOf(b).fault) <==> n % 4 == 0 || n < 4
  {
    if n % 4 == 0 || n < 4 {
      forall b: seq<Byte> | |b| == n ensures !AttrsOf(b).fault {
        if n % 4 == 0 { AlignedNeverFaults(b); }
      }
    } else {
      var b := PutLe16(n) + Zeros(n - 2);
      assert Le16(b) == n && |b| == n;
      assert AttrsOf(b).fault;
    }
  }

  /** The stream ends inside the padding of an attribute. */
  predicate CutShort(t: seq<Byte>) {
    |t| >= 4 && 4 <= Le16(t) <= |t| < Pad4(Le16(t))
  }

  lemma Le16Injective(a: seq<Byte>, b: seq<Byte>)
    requires |a| == |b| == 2 && Le16(a) == Le16(b)
    ensures a == b
  {
    assert a == [a[0], a[1]] && b == [b[0], b[1]];
  }

  /** A first attribute that is read whole is the encoding of a sendable one. */
  lemma TakeAttr(b: seq<Byte>) returns (a: RawAttr)
    requires |b| >= 4 && 4 <= Le16(b) && Pad4(Le16(b)) <= |b|
    ensures Sendable(a) && b == Encode(a) + b[Pad4(Le16(b))..]
  {
    var alen, t := Le16(b), Le16(b[2..]);
    a := RawAttr(t / TYPE_MASK, t % TYPE_MASK, b[4..alen], b[alen..Pad4(alen)]);
    assert Sendable(a) && a.flags * 0x4000 + a.typ == t;
    Le16Injective(PutLe16(alen), b[..2]);
    Le16Injective(PutLe16(t), b[2..4]);
    assert b == b[..2] + b[2..4] + b[4..alen] + b[alen..Pad4(alen)] + b[Pad4(alen)..];
  }

  lemma {:induction false} FaultShape(b: seq<Byte>) returns (xs: seq<RawAttr>, t: seq<Byte>)
    requires AttrsOf(b).fault
    ensures (forall a :: a in xs ==> Sendable(a)) && CutShort(t) && b == EncodeAll(xs) + t
    decreases |b|
  {
    hide Le16, Pad4, Encode, Sendable;
    WalkStep(b);
    if Pad4(Le16(b)) > |b| {
      xs, t := [], b;
    } else {
      var a := TakeAttr(b);
      var ys, u := FaultShape(b[Pad4(Le16(b))..]);
      xs, t := [a] + ys, u;
      assert xs[1..] == ys;
    }
  }

  lemma {:induction false} ShapeFaults(xs: seq<RawAttr>, t: seq<Byte>)
    requires (forall a :: a in xs ==> Sendable(a)) && CutShort(t)
    ensures AttrsOf(EncodeAll(xs) + t).fault
  {
    if xs == [] {
      assert EncodeAll(xs) + t == t;
    } else {
      hide AttrsOf, Encode, CutShort, Sendable;
      var rest := EncodeAll(xs[1..]) + t;
      assert EncodeAll(xs) + t == Encode(xs[0]) + rest;
      AttrRead(xs[0], rest);
      ShapeFaults(xs[1..], t);
    }
  }

  /** A walk leaves its stream exactly when the stream is a list of whole attributes and
      then one whose payload is there and whose padding is not. */
  lemma FaultIff(b: seq<Byte>)
    ensures AttrsOf(b).fault <==>
            exists xs: seq<RawAttr>, t: seq<Byte> ::
              (forall a :: a in xs ==> Sendable(a)) && CutShort(t) && b == EncodeAll(xs) + t
  {
    if AttrsOf(b).fault {
      var xs, t := FaultShape(b);
    } else if exists xs: seq<RawAttr>, t: seq<Byte> ::
        (forall a :: a in xs ==> Sendable(a)) && CutShort(t) && b == EncodeAll(xs) + t {
      var xs: seq<RawAttr>, t: seq<Byte> :|
        (forall a :: a in xs ==> Sendable(a)) && CutShort(t) && b == EncodeAll(xs) + t;
      ShapeFaults(xs, t);
    }
  }

  /** Two payload bytes and no padding: the walk slices past the six bytes. */
  lemma UnpaddedExample()
    ensures AttrsOf([6, 0, 7, 0, 1, 0]) == Walk([Attr(7, [1, 0])], true)
  {
    var b: seq<Byte> := [6, 0, 7, 0, 1, 0];
    assert b[2..] == [7, 0, 1, 0] && b[4..6] == [1, 0];
  }

  // ---- label stacks ----

  /** A label stack entry, section 2.1 of RFC 3032: label, traffic class and time to live;
      the bottom-of-stack bit follows from the position. */
  datatype Entry = Entry(lbl: nat, exp: nat, ttl: nat)

  predicate ValidEntry(e: Entry) {
    e.lbl < 0x10_0000 && e.exp < 8 && e.ttl < 256
  }

  function Word(e: Entry, bottom: bool): (w: nat)
    requires ValidEntry(e)
    ensures w < 0x1_0000_0000
  {
    e.lbl * 4096 + e.exp * 512 + (if bottom then 256 else 0) + e.ttl
  }

  function EncodeStack(es: seq<Entry>): (b: seq<Byte>)
    requires forall e :: e in es ==> ValidEntry(e)
    ensures |b| == 4 * |es|
  {
    if es == [] then [] else PutBe32(Word(es[0], |es| == 1)) + EncodeStack(es[1..])
  }

  function Labels(es: seq<Entry>): (r: seq<nat>)
    ensures |r| == |es| && forall i :: 0 <= i < |es| ==> r[i] == es[i].lbl
  {
    seq(|es|, i requires 0 <= i < |es| => es[i].lbl)
  }

  function StackOf(p: seq<Byte>): seq<nat> {
    if |p| < 4 then []
    else
      var entry := Be32(p);
      [entry / 4096] + if (entry / 256) % 2 == 1 then [] else StackOf(p[4..])
  }

  method DecodeMplsStack(b: seq<Byte>) returns (labels: seq<nat>)
    ensures labels == StackOf(b)
  {
    hide Be32;
    labels := [];
    var p := b;
    while |p| >= 4
      invariant StackOf(b) == labels + StackOf(p)
      decreases |p|
    {
      var entry := Be32(p);
      assert labels + StackOf(p) ==
             labels + [entry / 4096] + (if (entry / 256) % 2 == 1 then [] else StackOf(p[4..]));
      labels := labels + [entry / 4096];
      p := p[4..];
      if (entry / 256) % 2 != 0 { return; }
    }
  }

  lemma WordFields(e: Entry, bottom: bool)
    requires ValidEntry(e)
    ensures Word(e, bottom) / 4096 == e.lbl && (Word(e, bottom) / 256) % 2 == if bottom then 1 else 0
  {
    var w := Word(e, bottom);
    assert w == e.lbl * 4096 + (e.exp * 512 + (if bottom then 256 else 0) + e.ttl);
    assert w == (e.lbl * 16 + e.exp * 2 + (if bottom then 1 else 0)) * 256 + e.ttl;
  }

  /** Decoding stops at the bottom of the stack, so whatever follows is ignored. */
  lemma {:induction false} StackRoundTrip(es: seq<Entry>, tail: seq<Byte>)
    requires es != [] && forall e :: e in es ==> ValidEntry(e)
    ensures StackOf(EncodeStack(es) + tail) == Labels(es)
  {
    var w := PutBe32(Word(es[0], |es| == 1));
    var rest := EncodeStack(es[1..]) + tail;
    assert EncodeStack(es) + tail == w + rest;
    Be32Append(w, rest);
    WordFields(es[0], |es| == 1);
    assert (w + rest)[4..] == rest;
    assert Labels(es) == [es[0].lbl] + Labels(es[1..]);
    if |es| > 1 { StackRoundTrip(es[1..], tail); }
  }

  // ---- label lists as text ----

  function Decs(l: seq<nat>): (r: seq<string>)
    ensures |r| == |l| && forall i :: 0 <= i < |l| ==> r[i] == Text.Dec(l[i])
  {
    seq(|l|, i requires 0 <= i < |l| => Text.Dec(l[i]))
  }

  function Csv(l: seq<nat>): string {
    Text.Join(Decs(l), ',')
  }

  lemma {:induction false} JoinSnoc(parts: seq<string>, p: string, sep: char)
    requires parts != []
    ensures Text.Join(parts + [p], sep) == Text.Join(parts, sep) + [sep] + p
  {
    var all := parts + [p];
    assert all[1..] == parts[1..] + [p];
    if |parts| > 1 {
      JoinSnoc(parts[1..], p, sep);
      assert Text.Join(all, sep) == all[0] + [sep] + (Text.Join(parts[1..], sep) + [sep] + p);
    }
  }

  method LabelsCsv(l: seq<nat>) returns (s: string)
    ensures s == Csv(l)
  {
    s := "";
    for i := 0 to |l|
      invariant s == Csv(l[..i])
    {
      assert Decs(l[..i + 1]) == Decs(l[..i]) + [Text.Dec(l[i])];
      if i > 0 {
        JoinSnoc(Decs(l[..i]), Text.Dec(l[i]), ',');
        s := s + ",";
      }
      s := s + Text.Dec(l[i]);
    }
    assert l[..|l|] == l;
  }

  function Numbers(parts: seq<string>): (r: seq<nat>)
    ensures |r| == |parts| && forall i :: 0 <= i < |parts| ==> r[i] == Text.ParseDec(parts[i])
  {
    seq(|parts|, i requires 0 <= i < |parts| => Text.ParseDec(parts[i]))
  }

  /** Splitting a published stack on commas gives its labels back, top of stack first;
      in particular two stacks are published alike only if they are equal. */
  lemma CsvRoundTrip(l: seq<nat>)
    requires l != []
    ensures var parts := Text.Split(Csv(l), ',');
            && parts == Decs(l)
            && (forall p :: p in parts ==> Text.IsNumber(p))
            && Numbers(parts) == l
  {
    Text.SplitJoin(Decs(l), ',');
    forall i | 0 <= i < |l| ensures Text.ParseDec(Text.Dec(l[i])) == l[i] {
      Text.DecRoundTrip(l[i]);
    }
  }
}
