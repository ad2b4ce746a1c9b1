/** Merging one group of per-node traces into a cross-device timeline, the Zipkin spans
    derived from it, and how far the two truncations move an event. */
module Timeline {
  import opened Correlate
  import opened Permutations
  import LinkNames
  import Text

  datatype DSpan = DSpan(offsetMs: int, node: string, bus: string, kind: string, key: string, detail: string, abs: int)

  datatype DTrace = DTrace(id: nat, start: int, spanMs: int, link: string,
                           nodes: seq<string>, roots: seq<string>, spans: seq<DSpan>)

  /** Go's zero time, in nanoseconds from the Unix epoch. */
  const ZERO_TIME := -62_135_596_800_000_000_000

  /** The first of January of year 1, by the Gregorian calendar. */
  lemma ZeroTimeIs()
    ensures ZERO_TIME == -(1969 * 365 + 1969 / 4 - 1969 / 100 + 1969 / 400) * 24 * 3600 * 1_000_000_000
  {
  }

  // ---- merge ----

  /** Where a span's millisecond offset puts it on the absolute time line. */
  function Place(t: Trace, s: Span): DSpan {
    DSpan(0, t.node, s.bus, s.kind, s.key, s.detail, t.start + s.offsetMs * NS_PER_MS)
  }

  function PlacedOf(t: Trace): (r: seq<DSpan>)
    ensures |r| == |t.spans| && forall i :: 0 <= i < |r| ==> r[i] == Place(t, t.spans[i])
  {
    seq(|t.spans|, i requires 0 <= i < |t.spans| => Place(t, t.spans[i]))
  }

  /** All spans of a group, in the order of its traces. */
  function Placed(g: seq<Trace>): seq<DSpan> {
    if g == [] then [] else Placed(g[..|g| - 1]) + PlacedOf(g[|g| - 1])
  }

  predicate ByTime(spans: seq<DSpan>) {
    Ordered((s: DSpan) => s.abs, spans)
  }

  function StartOf(spans: seq<DSpan>): int {
    if spans == [] then ZERO_TIME else spans[0].abs
  }

  function WithOffsets(spans: seq<DSpan>): (r: seq<DSpan>)
    ensures |r| == |spans|
  {
    seq(|spans|, i requires 0 <= i < |spans| => spans[i].(offsetMs := Milliseconds(spans[i].abs - StartOf(spans))))
  }

  /** `dt` shows a time-sorted permutation of `placed`, offset from its first span. */
  ghost predicate IsTimeline(placed: seq<DSpan>, dt: DTrace) {
    exists sorted ::
      && Permutes(sorted, placed) && ByTime(sorted)
      && dt.spans == WithOffsets(sorted) && dt.start == StartOf(sorted)
  }

  /** How many traces of the group name link `k`. */
  function Votes(g: seq<Trace>, k: string): nat {
    if g == [] then 0
    else Votes(g[..|g| - 1], k) + (if k != "" && LinkNames.LinkKey(g[|g| - 1].root) == k then 1 else 0)
  }

  function VoteMap(g: seq<Trace>): (m: map<string, nat>)
    ensures forall k :: k in m <==> Votes(g, k) > 0
    ensures forall k :: k in m ==> m[k] == Votes(g, k) && k != ""
  {
    if g == [] then map[]
    else
      var m, k := VoteMap(g[..|g| - 1]), LinkNames.LinkKey(g[|g| - 1].root);
      if k == "" then m else m[k := (if k in m then m[k] else 0) + 1]
  }

  function NodeSet(g: seq<Trace>): set<string> {
    set t | t in g :: t.node
  }

  predicate Ascending(names: seq<string>) {
    forall i :: 0 < i < |names| ==> Text.Less(names[i - 1], names[i])
  }

  /** Offsets run from 0 without decreasing and the trace lasts as long as the last one. */
  predicate WellFormed(dt: DTrace) {
    && (forall i, j :: 0 <= i < j < |dt.spans| ==> dt.spans[i].offsetMs <= dt.spans[j].offsetMs)
    && (dt.spans == [] ==> dt.spanMs == 0)
    && (dt.spans != [] ==> dt.spans[0].offsetMs == 0 && dt.spanMs == dt.spans[|dt.spans| - 1].offsetMs)
  }

  predicate RootsOf(g: seq<Trace>, roots: seq<string>) {
    |roots| == |g| && forall i :: 0 <= i < |g| ==> roots[i] == g[i].node + ": " + g[i].root
  }

  /** `link` has the most votes; "" only when no trace names a link. */
  ghost predicate Elected(g: seq<Trace>, link: string) {
    if link == "" then forall k :: Votes(g, k) == 0
    else Votes(g, link) > 0 && forall k :: Votes(g, k) <= Votes(g, link)
  }

  /** The nodes of the group, once each and in order. */
  predicate Names(g: seq<Trace>, nodes: seq<string>) {
    Ascending(nodes) && (forall n :: n in nodes ==> n in NodeSet(g)) && (forall n :: n in NodeSet(g) ==> n in nodes)
  }

  method Merge(id: nat, g: seq<Trace>) returns (dt: DTrace)
    ensures dt.id == id && IsTimeline(Placed(g), dt) && WellFormed(dt)
    ensures Elected(g, dt.link)
    ensures Names(g, dt.nodes)
    ensures RootsOf(g, dt.roots)
  {
    hide *;
    var placed, names, roots, votes := Collect(g);
    var sorted := SortByTime(placed);
    var spans, span := SetOffsets(sorted);
    var nodes := SortNames(names);
    var link := BestLink(votes);
    dt := DTrace(id, StartOf(sorted), span, link, nodes, roots, spans);
    OffsetsWellFormed(sorted, dt);
    SortedIsTimeline(placed, sorted, dt);
    NamesMatch(g, names, nodes);
    VotesElect(g, votes, link);
  }

  lemma SortedIsTimeline(placed: seq<DSpan>, sorted: seq<DSpan>, dt: DTrace)
    requires Permutes(sorted, placed) && ByTime(sorted)
    requires dt.spans == WithOffsets(sorted) && dt.start == StartOf(sorted)
    ensures IsTimeline(placed, dt)
  {
  }

  lemma NamesMatch(g: seq<Trace>, names: set<string>, nodes: seq<string>)
    requires names == NodeSet(g) && Ascending(nodes) && forall n :: n in nodes <==> n in names
    ensures Names(g, nodes)
  {
  }

  lemma VotesElect(g: seq<Trace>, votes: map<string, nat>, link: string)
    requires votes == VoteMap(g)
    requires if link == "" then votes == map[] else link in votes && forall k :: k in votes ==> votes[k] <= votes[link]
    ensures Elected(g, link)
  {
    hide Votes;
    forall k ensures Votes(g, k) == if k in votes then votes[k] else 0 {
    }
  }

  /** One pass over the group: its spans on the absolute time line, its nodes, its
      roots and its link votes. */
  method Collect(g: seq<Trace>)
    returns (spans: seq<DSpan>, names: set<string>, roots: seq<string>, votes: map<string, nat>)
    ensures spans == Placed(g) && names == NodeSet(g) && RootsOf(g, roots) && votes == VoteMap(g)
    ensures forall k :: k in votes ==> k != "" && votes[k] > 0
  {
    hide LinkNames.LinkKey, PlacedOf, Votes, NodeSet, VoteMap, Placed;
    NothingCollected();
    spans, names, roots, votes := [], {}, [], map[];
    for i := 0 to |g|
      invariant spans == Placed(g[..i]) && names == NodeSet(g[..i]) && votes == VoteMap(g[..i])
      invariant RootsOf(g[..i], roots)
    {
      var t := g[i];
      assert g[..i + 1] == g[..i] + [t];
      CollectedSnoc(g[..i], t);
      names := names + {t.node};
      roots := roots + [t.node + ": " + t.root];
      var lk := LinkNames.LinkKey(t.root);
      if lk != "" {
        votes := votes[lk := (if lk in votes then votes[lk] else 0) + 1];
      }
      var placed := PlaceAll(t);
      spans := spans + placed;
    }
    assert g[..|g|] == g;
  }

  lemma NothingCollected()
    ensures Placed([]) == [] && NodeSet([]) == {} && VoteMap([]) == map[]
  {
  }

  lemma CollectedSnoc(g: seq<Trace>, t: Trace)
    ensures Placed(g + [t]) == Placed(g) + PlacedOf(t)
    ensures NodeSet(g + [t]) == NodeSet(g) + {t.node}
    ensures VoteMap(g + [t]) ==
            var m, k := VoteMap(g), LinkNames.LinkKey(t.root);
            if k == "" then m else m[k := (if k in m then m[k] else 0) + 1]
  {
    hide LinkNames.LinkKey, Votes;
    assert (g + [t])[..|g|] == g;
  }

  /** Offsets from the first span, and the longest of them. */
  method SetOffsets(sorted: seq<DSpan>) returns (spans: seq<DSpan>, span: int)
    requires ByTime(sorted)
    ensures spans == WithOffsets(sorted)
    ensures span == if sorted == [] then 0 else spans[|spans| - 1].offsetMs
  {
    spans := sorted;
    var start := StartOf(sorted);
    span := 0;
    for i := 0 to |spans|
      invariant |spans| == |sorted|
      invariant forall j :: 0 <= j < |spans| ==> spans[j] == if j < i then WithOffsets(sorted)[j] else sorted[j]
      invariant span == if i == 0 then 0 else WithOffsets(sorted)[i - 1].offsetMs
    {
      OffsetsOrdered(sorted, i);
      var s := spans[i].(offsetMs := Milliseconds(spans[i].abs - start));
      spans := spans[i := s];
      if s.offsetMs > span { span := s.offsetMs; }
    }
  }

  lemma OffsetsWellFormed(sorted: seq<DSpan>, dt: DTrace)
    requires ByTime(sorted) && dt.spans == WithOffsets(sorted)
    requires dt.spanMs == if sorted == [] then 0 else dt.spans[|dt.spans| - 1].offsetMs
    ensures WellFormed(dt)
  {
    forall i, j | 0 <= i < j < |sorted| ensures dt.spans[i].offsetMs <= dt.spans[j].offsetMs {
      OffsetMonotone(sorted, i, j);
    }
    if sorted != [] { OffsetsOrdered(sorted, 0); }
  }

  method PlaceAll(t: Trace) returns (r: seq<DSpan>)
    ensures r == PlacedOf(t)
  {
    r := [];
    for i := 0 to |t.spans|
      invariant r == PlacedOf(t)[..i]
    {
      var s := t.spans[i];
      var abs := t.start + s.offsetMs * NS_PER_MS;
      r := r + [DSpan(0, t.node, s.bus, s.kind, s.key, s.detail, abs)];
    }
  }

  lemma MsMonotone(d: int, e: int)
    requires d <= e
    ensures Milliseconds(d) <= Milliseconds(e)
  {
  }

  lemma OffsetMonotone(sorted: seq<DSpan>, i: nat, j: nat)
    requires ByTime(sorted) && i < j < |sorted|
    ensures WithOffsets(sorted)[i].offsetMs <= WithOffsets(sorted)[j].offsetMs
  {
    MsMonotone(sorted[i].abs - StartOf(sorted), sorted[j].abs - StartOf(sorted));
  }

  lemma OffsetsOrdered(sorted: seq<DSpan>, i: nat)
    requires ByTime(sorted) && i < |sorted|
    ensures WithOffsets(sorted)[i].offsetMs >= if i == 0 then 0 else WithOffsets(sorted)[i - 1].offsetMs
    ensures WithOffsets(sorted)[0].offsetMs == 0
  {
    if i > 0 { OffsetMonotone(sorted, i - 1, i); }
  }

  method BestLink(votes: map<string, nat>) returns (link: string)
    requires forall k :: k in votes ==> k != "" && votes[k] > 0
    ensures if link == "" then votes == map[] else link in votes && forall k :: k in votes ==> votes[k] <= votes[link]
  {
    link := "";
    var best, todo := 0, votes.Keys;
    while todo != {}
      invariant todo <= votes.Keys
      invariant forall k :: k in votes && k !in todo ==> votes[k] <= best
      invariant if link == "" then best == 0 else link in votes && best == votes[link]
      decreases todo
    {
      var k :| k in todo;
      todo := todo - {k};
      if votes[k] > best { best, link := votes[k], k; }
    }
    assert link == "" ==> votes.Keys == {};
  }

  method InsertName(names: seq<string>, n: string) returns (r: seq<string>)
    requires Ascending(names) && n !in names
    ensures Ascending(r) && forall x :: x in r <==> x in names || x == n
  {
    var k := |names|;
    while k > 0 && Text.Less(n, names[k - 1])
      invariant 0 <= k <= |names|
      invariant k < |names| ==> Text.Less(n, names[k])
    {
      k := k - 1;
    }
    if k > 0 { Text.LessTotal(n, names[k - 1]); }
    InsertAscending(names[..k], n, names[k..]);
    r := names[..k] + [n] + names[k..];
    assert names == names[..k] + names[k..];
  }

  lemma InsertAscending(a: seq<string>, n: string, b: seq<string>)
    requires Ascending(a) && Ascending(b)
    requires a != [] ==> Text.Less(a[|a| - 1], n)
    requires b != [] ==> Text.Less(n, b[0])
    ensures Ascending(a + [n] + b)
  {
    hide Text.Less;
  }

  method SortNames(s: set<string>) returns (names: seq<string>)
    ensures Ascending(names) && forall n :: n in names <==> n in s
  {
    names := [];
    var todo := s;
    while todo != {}
      invariant todo <= s && Ascending(names) && forall n :: n in names <==> n in s - todo
      decreases todo
    {
      var n :| n in todo;
      todo := todo - {n};
      names := InsertName(names, n);
    }
  }

  method SortByTime(spans: seq<DSpan>) returns (r: seq<DSpan>)
    ensures ByTime(r) && Permutes(r, spans)
  {
    r := SortBy((s: DSpan) => s.abs, spans);
  }

  // ---- Zipkin spans ----

  /** `Time.UnixMicro`: microseconds since the epoch, rounded down. */
  function UnixMicro(ns: int): int {
    ns / 1000
  }

  datatype ZSpan = ZSpan(name: string, service: string, timestamp: int, duration: int)

  function RootSpan(dt: DTrace): ZSpan {
    ZSpan(if dt.link == "" then "convergence" else "convergence " + dt.link, "network",
          UnixMicro(dt.start), dt.spanMs * 1000 + 1)
  }

  function ChildSpan(dt: DTrace, i: nat): ZSpan
    requires i < |dt.spans|
  {
    var s := dt.spans[i];
    var gap := if i + 1 < |dt.spans| then (dt.spans[i + 1].offsetMs - s.offsetMs) * 1000 else 0;
    ZSpan(s.bus + "/" + s.kind, s.node, UnixMicro(dt.start + s.offsetMs * NS_PER_MS), if gap > 1000 then gap else 1000)
  }

  method ZipkinSpans(dt: DTrace) returns (zs: seq<ZSpan>)
    ensures |zs| == 1 + |dt.spans| && zs[0] == RootSpan(dt)
    ensures forall i :: 0 <= i < |dt.spans| ==> zs[i + 1] == ChildSpan(dt, i)
  {
    zs := [RootSpan(dt)];
    for i := 0 to |dt.spans|
      invariant |zs| == 1 + i && zs[0] == RootSpan(dt)
      invariant forall j :: 0 <= j < i ==> zs[j + 1] == ChildSpan(dt, j)
    {
      var s := dt.spans[i];
      var abs := dt.start + s.offsetMs * NS_PER_MS;
      var dur := 1000;
      if i + 1 < |dt.spans| {
        var g := (dt.spans[i + 1].offsetMs - s.offsetMs) * 1000;
        if g > dur { dur := g; }
      }
      zs := zs + [ZSpan(s.bus + "/" + s.kind, s.node, UnixMicro(abs), dur)];
    }
  }

  lemma ChildTimestamp(dt: DTrace, i: nat)
    requires i < |dt.spans|
    ensures ChildSpan(dt, i).timestamp == UnixMicro(dt.start) + dt.spans[i].offsetMs * 1000
  {
    var off := dt.spans[i].offsetMs;
    assert dt.start + off * NS_PER_MS == dt.start + 1000 * (off * 1000);
  }

  /** The children of a merged trace leave no gap, and all start inside the root span. */
  lemma ChildrenFillRoot(dt: DTrace, i: nat)
    requires WellFormed(dt) && i < |dt.spans|
    ensures var c := ChildSpan(dt, i);
            && RootSpan(dt).timestamp <= c.timestamp < RootSpan(dt).timestamp + RootSpan(dt).duration
            && (i + 1 < |dt.spans| ==> c.timestamp + c.duration >= ChildSpan(dt, i + 1).timestamp >= c.timestamp)
  {
    ChildTimestamp(dt, i);
    if i + 1 < |dt.spans| { ChildTimestamp(dt, i + 1); }
  }

  /** The text that a merged trace's id is a digest of. */
  function Seed(stamp: int -> string, start: int, link: string, roots: seq<string>): string {
    stamp(start) + "|" + link + "|" + Text.Join(roots, ';')
  }

  /** The root span ends a microsecond after the last child starts; a child lasts until the next
      one starts, and at least a millisecond. */
  lemma SpanEnds(dt: DTrace, i: nat)
    requires WellFormed(dt) && i < |dt.spans|
    ensures var root, c, n := RootSpan(dt), ChildSpan(dt, i), |dt.spans| - 1;
            && root.timestamp + root.duration == ChildSpan(dt, n).timestamp + 1
            && c.duration >= 1000 && (i == n ==> c.duration == 1000)
            && (i < n ==>
                  var next := ChildSpan(dt, i + 1);
                  c.duration == if next.timestamp - c.timestamp > 1000 then next.timestamp - c.timestamp else 1000)
  {
    ChildTimestamp(dt, i);
    ChildTimestamp(dt, |dt.spans| - 1);
    if i + 1 < |dt.spans| { ChildTimestamp(dt, i + 1); }
  }

  /** What the spans are called and whose they are: the root is the network's, named after the
      link if there is one; a child is its node's, named after what was emitted there. */
  lemma SpanNames(node: string, id: nat, g: Group, i: nat, dt: DTrace, p: nat)
    requires i < |g| && p < |dt.spans|
    requires dt.spans[p].(offsetMs := 0) == Place(TraceOf(node, id, g), TraceOf(node, id, g).spans[i])
    ensures RootSpan(dt).service == "network"
    ensures RootSpan(dt).name == if dt.link == "" then "convergence" else "convergence " + dt.link
    ensures ChildSpan(dt, p).service == dt.spans[p].node == node
    ensures ChildSpan(dt, p).name == g[i].bus + "/" + g[i].kind
    ensures dt.spans[p].key == g[i].key && dt.spans[p].detail == g[i].detail
  {
    TraceMeans(node, id, g, i);
  }

  /** The exporter pushes a trace id again until one push succeeds, and never after. */
  class Exporter {
    const stamp: int -> string  // a time as text
    const digest: string -> string
    var pushed: set<string>
    ghost var posted: seq<string>  // ids of the successful posts, in order

    constructor (stamp: int -> string, digest: string -> string)
      ensures Valid() && posted == [] && this.stamp == stamp && this.digest == digest
    {
      this.stamp, this.digest, pushed, posted := stamp, digest, {}, [];
    }

    function TraceId(dt: DTrace): string {
      digest(Seed(stamp, dt.start, dt.link, dt.roots))
    }

    ghost predicate Valid()
      reads this
    {
      && (forall id :: id in pushed <==> id in posted)
      && forall i, j :: 0 <= i < j < |posted| ==> posted[i] != posted[j]
    }

    /** `up` says whether the post would be answered. */
    method Push(dt: DTrace, up: bool) returns (sent: bool)
      requires Valid()
      modifies this`pushed, this`posted
      ensures Valid()
      ensures sent == (TraceId(dt) !in old(posted) && up)
      ensures posted == if sent then old(posted) + [TraceId(dt)] else old(posted)
    {
      var traceId := TraceId(dt);
      if traceId in pushed || !up { return false; }
      pushed := pushed + {traceId};
      posted := posted + [traceId];
      sent := true;
    }
  }

  // ---- what truncation does to an event's time ----

  /** The events of a group are not stamped before its first one. */
  predicate NotBeforeStart(g: Group) {
    forall i :: 0 <= i < |g| ==> g[0].ts <= g[i].ts
  }

  lemma MsBounds(d: int)
    ensures d >= 0 ==> Milliseconds(d) * NS_PER_MS <= d < Milliseconds(d) * NS_PER_MS + NS_PER_MS
    ensures d <= 0 ==> Milliseconds(d) * NS_PER_MS - NS_PER_MS < d <= Milliseconds(d) * NS_PER_MS
  {
  }

  /** A merged span lies less than a millisecond from its event: before it, unless the event
      was stamped before the first one of its group. */
  lemma SpanTime(node: string, id: nat, g: Group, i: nat)
    requires i < |g|
    ensures var t := TraceOf(node, id, g);
            && g[i].ts - NS_PER_MS < Place(t, t.spans[i]).abs < g[i].ts + NS_PER_MS
            && (g[0].ts <= g[i].ts ==> Place(t, t.spans[i]).abs <= g[i].ts)
            && (g[i].ts <= g[0].ts ==> g[i].ts <= Place(t, t.spans[i]).abs)
  {
    MsBounds(g[i].ts - g[0].ts);
  }

  function EventAbs(g: Group, i: nat): int
    requires i < |g|
  {
    var t := TraceOf("", 0, g);
    Place(t, t.spans[i]).abs
  }

  /** Events of two groups `delta` nanoseconds apart. */
  predicate Distant(delta: int, g: Group, i: nat, h: Group, j: nat) {
    i < |g| && j < |h| && h[j].ts - g[i].ts == delta
  }

  /** The difference from which on two events keep their order. */
  function Needed(g: Group, i: nat, h: Group, j: nat): int
    requires i < |g| && j < |h|
  {
    if g[i].ts < g[0].ts && h[0].ts < h[j].ts then 2 * NS_PER_MS - 1 else NS_PER_MS
  }

  lemma PlacedInOrder(g: Group, i: nat, h: Group, j: nat)
    requires i < |g| && j < |h| && g[i].ts + Needed(g, i, h, j) <= h[j].ts
    ensures EventAbs(g, i) < EventAbs(h, j)
  {
    SpanTime("", 0, g, i);
    SpanTime("", 0, h, j);
  }

  /** Two events `delta` nanoseconds apart, on any two nodes, are always placed in their true
      order exactly when `delta` is at least two milliseconds less a nanosecond; when no event
      is stamped before the first one of its group, exactly when it is at least a millisecond. */
  lemma OrderPreserved(delta: int)
    ensures (forall g: Group, h: Group, i: nat, j: nat | Distant(delta, g, i, h, j) :: EventAbs(g, i) < EventAbs(h, j))
            <==> delta >= 2 * NS_PER_MS - 1
    ensures (forall g: Group, h: Group, i: nat, j: nat |
               Distant(delta, g, i, h, j) && NotBeforeStart(g) && NotBeforeStart(h) :: EventAbs(g, i) < EventAbs(h, j))
            <==> delta >= NS_PER_MS
  {
    hide EventAbs;
    forall g: Group, h: Group, i: nat, j: nat | Distant(delta, g, i, h, j) && delta >= Needed(g, i, h, j)
      ensures EventAbs(g, i) < EventAbs(h, j)
    {
      PlacedInOrder(g, i, h, j);
    }
    if delta < 2 * NS_PER_MS - 1 { var g, h := Misplaced(delta); }
    if delta < NS_PER_MS { var g, h := MisplacedAfterStart(delta); }
  }

  lemma Misplaced(delta: int) returns (g: Group, h: Group)
    requires delta <= 2 * NS_PER_MS - 2
    ensures Distant(delta, g, 1, h, 1) && EventAbs(g, 1) >= EventAbs(h, 1)
  {
    var e, x := Event("", "", "", "", true, 0), 2 * NS_PER_MS - 2 - delta;
    g := [e.(ts := x), e.(ts := x - NS_PER_MS + 1)];
    h := [e, e.(ts := NS_PER_MS - 1)];
    MsBounds(1 - NS_PER_MS);
    MsBounds(NS_PER_MS - 1);
    assert EventAbs(g, 1) == x && EventAbs(h, 1) == 0;
  }

  lemma MisplacedAfterStart(delta: int) returns (g: Group, h: Group)
    requires delta < NS_PER_MS
    ensures Distant(delta, g, 0, h, 1) && NotBeforeStart(g) && NotBeforeStart(h) && EventAbs(g, 0) >= EventAbs(h, 1)
  {
    var e := Event("", "", "", "", true, 0);
    g := [e.(ts := NS_PER_MS - 1 - delta)];
    h := [e, e.(ts := NS_PER_MS - 1)];
    assert EventAbs(g, 0) == NS_PER_MS - 1 - delta && EventAbs(h, 1) == 0;
  }

  /** In a merged timeline, the span of an event comes before the span of any event that is
      later by the needed difference, whichever nodes reported them. */
  lemma TimelineOrder(placed: seq<DSpan>, dt: DTrace, ta: Trace, g: Group, i: nat, tb: Trace, h: Group, j: nat,
                      p: nat, q: nat)
    requires IsTimeline(placed, dt) && i < |g| && j < |h|
    requires ta == TraceOf(ta.node, ta.id, g) && tb == TraceOf(tb.node, tb.id, h)
    requires g[i].ts + Needed(g, i, h, j) <= h[j].ts
    requires p < |dt.spans| && dt.spans[p].(offsetMs := 0) == Place(ta, ta.spans[i])
    requires q < |dt.spans| && dt.spans[q].(offsetMs := 0) == Place(tb, tb.spans[j])
    ensures p < q
  {
    SpanTime(ta.node, ta.id, g, i);
    SpanTime(tb.node, tb.id, h, j);
    assert dt.spans[p].abs < dt.spans[q].abs;
  }

  lemma OffsetTime(start: int, abs: int)
    requires start <= abs
    ensures abs - NS_PER_MS - 1000 < UnixMicro(start + Milliseconds(abs - start) * NS_PER_MS) * 1000 <= abs
  {
    MsBounds(abs - start);
  }

  /** The exported timestamp of a span lies less than 2 ms + 1 us before its event, and less
      than 1 ms after it; not after it, unless the event was stamped before its group's first. */
  lemma ExportedTime(placed: seq<DSpan>, dt: DTrace, t: Trace, g: Group, i: nat, p: nat)
    requires IsTimeline(placed, dt) && i < |g| && t == TraceOf(t.node, t.id, g)
    requires p < |dt.spans| && dt.spans[p].(offsetMs := 0) == Place(t, t.spans[i])
    ensures g[i].ts - 2 * NS_PER_MS - 1000 < ChildSpan(dt, p).timestamp * 1000 < g[i].ts + NS_PER_MS
    ensures g[0].ts <= g[i].ts ==> ChildSpan(dt, p).timestamp * 1000 <= g[i].ts
  {
    SpanTime(t.node, t.id, g, i);
    hide Milliseconds, TraceOf, UnixMicro, Permutes;
    var sorted: seq<DSpan> :| Permutes(sorted, placed) && ByTime(sorted) && dt.spans == WithOffsets(sorted) &&
                              dt.start == StartOf(sorted);
    assert StartOf(sorted) == sorted[0].abs <= sorted[p].abs;
    OffsetTime(StartOf(sorted), sorted[p].abs);
  }
}
