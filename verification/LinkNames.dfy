/** Link-event roots name one end of a link; both ends normalise to one key. */
module LinkNames {
  import Correlate
  import Text

  predicate IsSpace(c: char) {
    c == ' ' || '\t' <= c <= '\r'
  }

  predicate HasPrefix(s: string, p: string) {
    |p| <= |s| && s[..|p|] == p
  }

  /** `strings.Index`: the first place where `p` occurs, or |s| + 1 when nowhere. */
  function Index(s: string, p: string): (i: nat)
    ensures i <= |s| ==> HasPrefix(s[i..], p)
    ensures forall j :: 0 <= j < i && j <= |s| ==> !HasPrefix(s[j..], p)
  {
    if HasPrefix(s, p) then 0
    else if s == [] then 1
    else
      var i := 1 + Index(s[1..], p);
      assert forall j :: 0 < j <= |s| ==> s[j..] == s[1..][j - 1..];
      i
  }

  function WordLen(s: string): (n: nat)
    ensures n <= |s|
  {
    if s == [] || IsSpace(s[0]) then 0 else 1 + WordLen(s[1..])
  }

  /** `strings.Fields`. */
  function Fields(s: string): (fs: seq<string>)
    decreases |s|
  {
    if s == [] then []
    else if IsSpace(s[0]) then Fields(s[1..])
    else
      var n := WordLen(s);
      [s[..n]] + Fields(s[n..])
  }

  function Unordered(a: string, b: string): string {
    if Text.Less(b, a) then b + "--" + a else a + "--" + b
  }

  /** The key of an interface called `near-far`: cut at the first dash. */
  function IfaceKey(iface: string): string {
    var i := Index(iface, "-");
    if i > |iface| then "" else Unordered(iface[..i], iface[i + 1..])
  }

  function LinkKey(root: string): string {
    var i := Index(root, "link-");
    if i > |root| then ""
    else
      var f := Fields(root[i..]);
      if |f| < 2 then "" else IfaceKey(f[1])
  }

  // ---- both ends of a link vote for one key ----

  lemma {:induction false} WordLenOf(w: string, rest: string)
    requires forall i :: 0 <= i < |w| ==> !IsSpace(w[i])
    requires rest == [] || IsSpace(rest[0])
    ensures WordLen(w + rest) == |w|
  {
    if w == [] {
      assert w + rest == rest;
    } else {
      assert (w + rest)[1..] == w[1..] + rest;
      WordLenOf(w[1..], rest);
    }
  }

  lemma FieldsCons(w: string, rest: string)
    requires w != [] && forall i :: 0 <= i < |w| ==> !IsSpace(w[i])
    requires rest == [] || IsSpace(rest[0])
    ensures Fields(w + rest) == [w] + Fields(rest)
  {
    WordLenOf(w, rest);
    assert (w + rest)[..|w|] == w && (w + rest)[|w|..] == rest;
  }

  lemma TwoFields(w: string, space: char, v: string)
    requires w != [] && v != [] && IsSpace(space)
    requires forall i :: 0 <= i < |w| ==> !IsSpace(w[i])
    requires forall i :: 0 <= i < |v| ==> !IsSpace(v[i])
    ensures Fields(w + [space] + v) == [w, v]
  {
    assert w + [space] + v == w + ([space] + v);
    FieldsCons(w, [space] + v);
    assert ([space] + v)[1..] == v == v + [];
    FieldsCons(v, []);
  }

  lemma FirstDash(x: string, y: string)
    requires '-' !in x
    ensures Index(x + "-" + y, "-") == |x|
  {
    var s := x + "-" + y;
    assert HasPrefix(s[|x|..], "-") by { assert s[|x|..] == "-" + y; }
    forall j | 0 <= j < |x| ensures !HasPrefix(s[j..], "-") {
      assert s[j..][0] == x[j];
    }
  }

  /** "link-" does not occur before the kind of a netlink root. */
  lemma LinkAt(w: string)
    requires HasPrefix(w, "link-")
    ensures Index("netlink/" + w, "link-") == 8
  {
    var bus := "netlink/";
    var s := bus + w;
    assert s[8..] == w;
    forall j | 0 <= j < 8 ensures !HasPrefix(s[j..], "link-") {
      assert s[j] == bus[j];
      assert s[7] == '/';
      assert s[j..][0] == s[j];
      if j == 3 { assert s[j..][..5][4] == s[7]; }
    }
  }

  lemma LinkKeyTail(w: string, v: string)
    requires HasPrefix(w, "link-") && v != []
    requires forall i :: 0 <= i < |w| ==> !IsSpace(w[i])
    requires forall i :: 0 <= i < |v| ==> !IsSpace(v[i])
    ensures LinkKey("netlink/" + (w + [' '] + v)) == IfaceKey(v)
  {
    hide Index, Fields;
    var tail := w + [' '] + v;
    assert tail[..5] == w[..5];
    LinkAt(tail);
    assert ("netlink/" + tail)[8..] == tail;
    TwoFields(w, ' ', v);
  }

  lemma DashedKey(x: string, y: string)
    requires '-' !in x
    ensures IfaceKey(x + "-" + y) == Unordered(x, y)
  {
    var v := x + "-" + y;
    FirstDash(x, y);
    assert v[..|x|] == x && v[|x| + 1..] == y;
  }

  // ---- names ----

  /** A name whose dash-separated words are all non-empty. */
  predicate Proper(x: string) {
    && x != [] && x[0] != '-' && x[|x| - 1] != '-'
    && forall i :: 0 <= i < |x| - 1 && x[i] == '-' ==> x[i + 1] != '-'
  }

  lemma ProperJoin(x: string, y: string)
    requires Proper(x) && Proper(y)
    ensures Proper(x + "-" + y)
  {
  }

  /** The two sides of a proper name at its first dash. */
  lemma FirstWord(v: string) returns (a: string, b: string)
    requires Proper(v) && '-' in v
    ensures '-' !in a && Proper(a) && Proper(b) && v == a + "-" + b
  {
    var i := Index(v, "-");
    var d :| 0 <= d < |v| && v[d] == '-';
    assert HasPrefix(v[d..], "-");
    assert i <= |v| && HasPrefix(v[i..], "-") && v[i..][0] == v[i];
    forall j | 0 <= j < i ensures v[j] != '-' {
      assert !HasPrefix(v[j..], "-") && v[j..][..1] == [v[j]];
    }
    a, b := v[..i], v[i + 1..];
    assert i > 0 && i + 1 < |v| && v[i + 1] != '-';
  }

  /** "--" is an unmistakable cut between proper names. */
  lemma DoubleDashCut(a: string, b: string, c: string, d: string)
    requires Proper(a) && Proper(b) && Proper(c) && Proper(d)
    requires a + "--" + b == c + "--" + d
    ensures a == c && b == d
  {
    var s, t := a + "--" + b, c + "--" + d;
    assert s[|a|] == '-' && s[|a| + 1] == '-' && t[|c|] == '-' && t[|c| + 1] == '-';
    assert forall i :: 0 <= i < |a| ==> s[i] == a[i];
    assert forall i :: 0 <= i < |c| ==> t[i] == c[i];
    assert |a| == |c|;
    assert a == s[..|a|] && c == t[..|c|] && b == s[|a| + 2..] && d == t[|c| + 2..];
  }

  lemma UnorderedMeans(a: string, b: string, c: string, d: string)
    requires Proper(a) && Proper(b) && Proper(c) && Proper(d)
    ensures Unordered(a, b) == Unordered(c, d) <==> (a == c && b == d) || (a == d && b == c)
  {
    hide Proper, Text.Less;
    Text.LessTotal(a, b);
    if Unordered(a, b) == Unordered(c, d) {
      var p, q := if Text.Less(b, a) then b else a, if Text.Less(b, a) then a else b;
      var u, w := if Text.Less(d, c) then d else c, if Text.Less(d, c) then c else d;
      DoubleDashCut(p, q, u, w);
    }
  }

  lemma {:induction false} DashCount(a: string, b: string, x: string, y: string)
    requires '-' !in a && '-' !in b && a + "-" + b == x + "-" + y
    ensures '-' !in x && '-' !in y
  {
    var s, t := a + "-" + b, x + "-" + y;
    assert forall i :: 0 <= i < |s| && s[i] == '-' ==> i == |a|;
    assert t[|x|] == '-';
    assert forall i :: 0 <= i < |x| ==> t[i] == x[i];
    assert forall i :: 0 <= i < |y| ==> t[|x| + 1 + i] == y[i];
  }

  // ---- when both ends of a link vote for one key ----

  /** The interface texts of the two ends give one key exactly when neither node name has a
      dash, or the two texts are the same. */
  lemma IfaceKeysAgree(x: string, y: string)
    requires Proper(x) && Proper(y)
    ensures IfaceKey(x + "-" + y) == IfaceKey(y + "-" + x) <==>
            ('-' !in x && '-' !in y) || x + "-" + y == y + "-" + x
  {
    ProperJoin(x, y);
    ProperJoin(y, x);
    var a, b := FirstWord(x + "-" + y);
    var c, d := FirstWord(y + "-" + x);
    hide Proper, IfaceKey, Unordered;
    DashedKey(a, b);
    DashedKey(c, d);
    UnorderedMeans(a, b, c, d);
    if a == d && b == c {
      DashCount(a, b, x, y);
    } else if '-' !in x && '-' !in y {
      CutOnce(a, b, x, y);
      CutOnce(c, d, y, x);
    }
  }

  lemma CutOnce(a: string, b: string, x: string, y: string)
    requires '-' !in a && '-' !in x && a + "-" + b == x + "-" + y
    ensures a == x && b == y
  {
    Text.CutUnique(a, b, x, y, '-');
  }

  predicate NoSpace(s: string) {
    forall i :: 0 <= i < |s| ==> !IsSpace(s[i])
  }

  /** The correlator's root for a change of the interface `iface`. */
  function LinkRoot(event: string, iface: string): string {
    "netlink/link-" + event + " " + iface
  }

  lemma LinkRootKey(event: string, iface: string)
    requires NoSpace(event) && NoSpace(iface) && iface != []
    ensures LinkKey(LinkRoot(event, iface)) == IfaceKey(iface)
  {
    hide Index, Fields, IfaceKey;
    var w := "link-" + event;
    assert LinkRoot(event, iface) == "netlink/" + (w + [' '] + iface);
    LinkKeyTail(w, iface);
  }

  /** Whatever changed at the two ends, their roots vote for one link exactly when neither
      node name has a dash, or the interface has the same text at both ends. */
  lemma LinkKeySymmetric(event: string, event': string, x: string, y: string)
    requires NoSpace(event) && NoSpace(event') && NoSpace(x) && NoSpace(y) && Proper(x) && Proper(y)
    ensures LinkKey(LinkRoot(event, x + "-" + y)) == LinkKey(LinkRoot(event', y + "-" + x)) <==>
            ('-' !in x && '-' !in y) || x + "-" + y == y + "-" + x
    ensures '-' !in x ==> LinkKey(LinkRoot(event, x + "-" + y)) == Unordered(x, y)
  {
    hide IfaceKey, LinkKey, Proper;
    LinkRootKey(event, x + "-" + y);
    LinkRootKey(event', y + "-" + x);
    IfaceKeysAgree(x, y);
    if '-' !in x { DashedKey(x, y); }
  }

  /** With a dash in a node name the two ends can disagree. */
  lemma DashedNamesDisagree()
    ensures LinkKey("netlink/link-down a-b-c") != LinkKey("netlink/link-down c-a-b")
  {
    var x, y := "a-b", "c";
    assert x + "-" + y == "a-b-c" && y + "-" + x == "c-a-b";
    assert x + "-" + y != y + "-" + x by { assert "a-b-c"[0] != "c-a-b"[0]; }
    assert x[1] == '-';
    assert "netlink/link-down a-b-c" == LinkRoot("down", x + "-" + y);
    assert "netlink/link-down c-a-b" == LinkRoot("down", y + "-" + x);
    LinkKeySymmetric("down", "down", x, y);
  }

  /** With an empty word in a name, "--" no longer marks the cut, and keys can agree by chance. */
  lemma EmptyWordExample()
    ensures IfaceKey("a" + "-" + "b-a--b") == IfaceKey("b-a--b" + "-" + "a") == "a--b-a--b"
    ensures "a" + "-" + "b-a--b" != "b-a--b" + "-" + "a"
  {
    hide IfaceKey;
    DashedKey("a", "b-a--b");
    DashedKey("b", "a--b-a");
    assert "b-a--b" + "-" + "a" == "b" + "-" + "a--b-a";
    assert !Text.Less("b-a--b", "a") && Text.Less("a--b-a", "b");
    assert "a" + "--" + "b-a--b" == "a--b-a--b" == "a--b-a" + "--" + "b";
    assert ("a" + "-" + "b-a--b")[0] != ("b-a--b" + "-" + "a")[0];
  }

  // ---- the roots that the correlator flushes ----

  /** The group was opened by the change of an interface, as the link watcher reports it. */
  predicate OpenedByLink(g: Correlate.Group, event: string, iface: string) {
    g[0].root && g[0].bus == "netlink" && g[0].kind == "link-" + event && g[0].key == iface
  }

  /** The root of a trace opened by a link event is the link root of its interface. */
  lemma LinkTrace(node: string, id: nat, g: Correlate.Group, event: string, iface: string)
    requires OpenedByLink(g, event, iface)
    ensures Correlate.TraceOf(node, id, g).root == LinkRoot(event, iface)
  {
    Correlate.TraceMeans(node, id, g, 0);
    assert "netlink" + "/" + ("link-" + event) + " " + iface == "netlink/link-" + event + " " + iface;
  }

  /** Two traces opened at the two ends of a link vote for one link exactly when neither node
      name has a dash, or the interface has the same text at both ends. */
  lemma LinkTracesAgree(node: string, id: nat, g: Correlate.Group, event: string,
                        node': string, id': nat, g': Correlate.Group, event': string, x: string, y: string)
    requires OpenedByLink(g, event, x + "-" + y) && OpenedByLink(g', event', y + "-" + x)
    requires NoSpace(event) && NoSpace(event') && NoSpace(x) && NoSpace(y) && Proper(x) && Proper(y)
    ensures var t, t' := Correlate.TraceOf(node, id, g), Correlate.TraceOf(node', id', g');
            && (LinkKey(t.root) == LinkKey(t'.root) <==> ('-' !in x && '-' !in y) || x + "-" + y == y + "-" + x)
            && ('-' !in x ==> LinkKey(t.root) == Unordered(x, y))
  {
    hide LinkKey, LinkRoot, OpenedByLink, Proper, NoSpace, Unordered;
    LinkTrace(node, id, g, event, x + "-" + y);
    LinkTrace(node', id', g', event', y + "-" + x);
    LinkKeySymmetric(event, event', x, y);
  }

  /** A root that votes for a link says "link-" somewhere. */
  lemma VotesSayLink(root: string)
    requires LinkKey(root) != ""
    ensures exists a, b :: root == a + "link-" + b
  {
    hide Fields, IfaceKey;
    var i := Index(root, "link-");
    var a, b := root[..i], root[i..][5..];
    assert root[i..] == "link-" + b;
    assert root == a + "link-" + b;
  }

  /** The white space of the ASCII set. */
  lemma SpaceIs(c: char)
    ensures IsSpace(c) <==> c as int in {9, 10, 11, 12, 13, 32}
  {
  }
}
