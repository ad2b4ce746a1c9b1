/** Fixed-width integers on the wire. */
module Bytes {

  type Byte = x: int | 0 <= x < 256

  function Be16(b: seq<Byte>): (n: nat)
    requires |b| >= 2
    ensures n < 0x1_0000
  {
    (b[0] as int) * 256 + b[1]
  }

  function Le16(b: seq<Byte>): (n: nat)
    requires |b| >= 2
    ensures n < 0x1_0000
  {
    (b[1] as int) * 256 + b[0]
  }

  function Be32(b: seq<Byte>): (n: nat)
    requires |b| >= 4
    ensures n < 0x1_0000_0000
  {
    Be16(b) * 0x1_0000 + Be16(b[2..])
  }

  function Le32(b: seq<Byte>): (n: nat)
    requires |b| >= 4
    ensures n < 0x1_0000_0000
  {
    Le16(b) + Le16(b[2..]) * 0x1_0000
  }

  function PutBe16(n: nat): (b: seq<Byte>)
    requires n < 0x1_0000
    ensures |b| == 2 && Be16(b) == n
  {
    [n / 256, n % 256]
  }

  function PutLe16(n: nat): (b: seq<Byte>)
    requires n < 0x1_0000
    ensures |b| == 2 && Le16(b) == n
  {
    [n % 256, n / 256]
  }

  function PutBe32(n: nat): (b: seq<Byte>)
    requires n < 0x1_0000_0000
    ensures |b| == 4 && Be32(b) == n
  {
    var b := PutBe16(n / 0x1_0000) + PutBe16(n % 0x1_0000);
    assert b[2..] == PutBe16(n % 0x1_0000);
    b
  }

  function PutLe32(n: nat): (b: seq<Byte>)
    requires n < 0x1_0000_0000
    ensures |b| == 4
  {
    [n % 256, n / 256 % 256, n / 65536 % 256, n / 16777216]
  }

  lemma Le32RoundTrip(n: nat, tail: seq<Byte>)
    requires n < 0x1_0000_0000
    ensures Le32(PutLe32(n) + tail) == n
  {
    var b := PutLe32(n) + tail;
    assert b[2..][0] == b[2] && b[2..][1] == b[3];
    assert n / 65536 == n / 256 / 256 && n / 16777216 == n / 65536 / 256;
  }

  function Zeros(n: nat): (b: seq<Byte>)
    ensures |b| == n
  {
    seq(n, _ => 0)
  }

  predicate AllZero(b: seq<Byte>) {
    forall i :: 0 <= i < |b| ==> b[i] == 0
  }

  /** Go's `copy(make([]byte, n), src)`: truncates or pads with zeros. */
  function CopyInto(n: nat, src: seq<Byte>): (b: seq<Byte>)
    ensures |b| == n
    ensures forall i :: 0 <= i < n ==> b[i] == if i < |src| then src[i] else 0
  {
    seq(n, i requires 0 <= i < n => if i < |src| then src[i] else 0)
  }

  lemma Be16Append(a: seq<Byte>, b: seq<Byte>)
    requires |a| == 2
    ensures Be16(a + b) == Be16(a)
  {
  }

  lemma Be32Append(a: seq<Byte>, b: seq<Byte>)
    requires |a| == 4
    ensures Be32(a + b) == Be32(a)
  {
    assert (a + b)[2..] == a[2..] + b;
  }

  lemma Be16Injective(a: seq<Byte>, b: seq<Byte>)
    requires |a| == |b| == 2 && Be16(a) == Be16(b)
    ensures a == b
  {
    assert a == [a[0], a[1]] && b == [b[0], b[1]];
  }

  lemma Be32Injective(a: seq<Byte>, b: seq<Byte>)
    requires |a| == |b| == 4 && Be32(a) == Be32(b)
    ensures a == b
  {
    hide Be16;
    assert Be16(a) == Be16(b) && Be16(a[2..]) == Be16(b[2..]);
    Be16Append(a[..2], a[2..]);
    Be16Append(b[..2], b[2..]);
    assert a == a[..2] + a[2..] && b == b[..2] + b[2..];
    Be16Injective(a[..2], b[..2]);
    Be16Injective(a[2..], b[2..]);
  }
}
