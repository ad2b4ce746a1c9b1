/** What the ticks of the correlator do to the flushed traces: when a schedule reports the
    same traces as the offline segmentation, and when no root is missing from them. */
module Reports {
  import opened Correlate

  /** The segment that the active group of `h` grows into when no tick cuts it. */
  function Segment(window: int, h: Groups, es: seq<Input>): (g: Group)
    requires h.active != [] && forall i :: 0 <= i < |es| ==> es[i].Ev?
  {
    h.active + Payload(es[..Continuing(window, LastTs(h.active), es)])
  }

  /** The event taken next was stamped within the window of the active group. */
  predicate Joins(window: int, h: Groups, es: seq<Input>) {
    h.active != [] && es != [] && es[0].Ev? && es[0].e.ts - LastTs(h.active) <= window
  }

  /** Two follow events: discarded whole, and discarded in pieces. */
  predicate FollowPair(g: Group) {
    |g| == 2 && !g[0].root && !g[1].root
  }

  /** Some tick cuts a segment early that is not just two follow events. `h` is the state
      without ticks. */
  predicate CutsVisibly(window: int, idle: int, h: Groups, xs: seq<Input>)
    decreases xs
  {
    xs != [] &&
    match xs[0]
    case Ev(_, _) => CutsVisibly(window, idle, Step(window, idle, h, xs[0]), xs[1..])
    case Tick(now) =>
      || CutsVisibly(window, idle, h, xs[1..])
      || (var es := EventsOnly(xs[1..]);
          Joins(window, h, es) && now - LastTs(h.active) > idle && !FollowPair(Segment(window, h, es)))
  }

  lemma {:induction false} VisibleIsEarly(window: int, idle: int, h: Groups, xs: seq<Input>)
    requires CutsVisibly(window, idle, h, xs)
    ensures CutsEarly(window, idle, h, xs)
    decreases xs
  {
    var h' := if xs[0].Ev? then Step(window, idle, h, xs[0]) else h;
    if CutsVisibly(window, idle, h', xs[1..]) { VisibleIsEarly(window, idle, h', xs[1..]); }
  }

  // ---- comparing two lists of traces ----

  /** Cutting a list in two always lowers the sum of these weights. */
  function Weight(n: nat): nat {
    n * (n - 1)
  }

  lemma WeightSplits(m: nat, n: nat)
    ensures Weight(m + n) == Weight(m) + Weight(n) + 2 * m * n
  {
  }

  function Total(gs: seq<Group>): nat {
    if gs == [] then 0 else Total(gs[..|gs| - 1]) + Weight(|gs[|gs| - 1]|)
  }

  lemma {:induction false} TotalAppend(gs: seq<Group>, hs: seq<Group>)
    ensures Total(gs + hs) == Total(gs) + Total(hs)
  {
    if hs == [] {
      assert gs + hs == gs;
    } else {
      assert (gs + hs)[..|gs + hs| - 1] == gs + hs[..|hs| - 1];
      TotalAppend(gs, hs[..|hs| - 1]);
    }
  }

  lemma {:induction false} KeptAppend(gs: seq<Group>, hs: seq<Group>)
    ensures Kept(gs + hs) == Kept(gs) + Kept(hs)
  {
    if hs == [] {
      assert gs + hs == gs;
    } else {
      hide Discarded;
      assert (gs + hs)[..|gs + hs| - 1] == gs + hs[..|hs| - 1];
      KeptAppend(gs, hs[..|hs| - 1]);
    }
  }

  lemma KeptOne(g: Group)
    ensures Kept([g]) == if Discarded(g) then [] else [g]
    ensures Total(Kept([g])) == if Discarded(g) then 0 else Weight(|g|)
  {
    assert [g][..0] == [] && Kept([]) == [];
  }

  /** The ticks cost a trace some events, or only brought out a root that was discarded. */
  predicate Worse(on: seq<Group>, off: seq<Group>) {
    Total(on) < Total(off) || (Total(on) == Total(off) && |on| > |off|)
  }

  /** The kept groups of a schedule against those of the segmentation. */
  predicate Verdict(on: seq<Group>, off: seq<Group>, visible: bool) {
    if visible then Worse(on, off) else on == off
  }

  lemma VerdictAppend(on: seq<Group>, off: seq<Group>, v: bool, on': seq<Group>, off': seq<Group>, v': bool)
    requires Verdict(Kept(on), Kept(off), v) && Verdict(Kept(on'), Kept(off'), v')
    ensures Verdict(Kept(on + on'), Kept(off + off'), v || v')
  {
    hide Total, Kept;
    KeptAppend(on, on');
    KeptAppend(off, off');
    TotalAppend(Kept(on), Kept(on'));
    TotalAppend(Kept(off), Kept(off'));
  }

  // ---- one segment ----

  /** The pieces `p`, the last one still active as `a`, that a segment `b` is in. */
  function Pieces(p: seq<Group>, a: seq<Event>): seq<Group> {
    Groups(p, a).Close().closed
  }

  /** No early cut of the active group `b`: untouched, or closed where it ends anyway. */
  predicate Whole(window: int, p: seq<Group>, a: seq<Event>, b: seq<Event>, es: seq<Input>) {
    || (p == [] && a == b)
    || (b != [] && p == [b] && a == [] && !Joins(window, Groups([], b), es))
  }

  /** `b` is to grow, and was closed too early. */
  predicate Torn(window: int, p: seq<Group>, a: seq<Event>, b: seq<Event>, es: seq<Input>) {
    || (b != [] && p == [b] && a == [] && Joins(window, Groups([], b), es))
    || TornBefore(p, a, b)
  }

  /** `b` was closed too early and has grown since. */
  predicate TornBefore(p: seq<Group>, a: seq<Event>, b: seq<Event>) {
    && 2 <= |b| && |a| <= |b| && (a != [] ==> LastTs(a) == LastTs(b))
    && Total(Kept(p)) + Weight(|a|) + 2 <= Weight(|b|)
    && (|b| == 2 && !b[0].root ==> Kept(Pieces(p, a)) == if b[1].root then [[b[1]]] else [])
  }

  lemma PiecesTotal(p: seq<Group>, a: seq<Event>)
    ensures Total(Kept(Pieces(p, a))) <= Total(Kept(p)) + Weight(|a|)
  {
    if a != [] {
      KeptAppend(p, [a]);
      TotalAppend(Kept(p), Kept([a]));
      KeptOne(a);
    }
  }

  lemma TornVerdict(p: seq<Group>, a: seq<Event>, b: Group)
    requires TornBefore(p, a, b)
    ensures Verdict(Kept(Pieces(p, a)), Kept([b]), !FollowPair(b))
  {
    hide Pieces;
    PiecesTotal(p, a);
    KeptOne(b);
    if Discarded(b) {
      assert Kept([b]) == [] && |b| == 2;
      if b[1].root { OneEventTotal([b[1]]); }
    }
  }

  lemma OneEventTotal(g: Group)
    requires |g| == 1
    ensures Total([g]) == 0
  {
    assert [g][..0] == [] && Total([]) == 0;
  }

  /** A tick that closes a piece leaves the pieces as they are. */
  lemma TornTick(p: seq<Group>, a: seq<Event>, b: seq<Event>)
    requires TornBefore(p, a, b) && a != []
    ensures TornBefore(p + [a], [], b)
  {
    hide Kept, Total;
    PiecesTotal(p, a);
    assert Pieces(p + [a], []) == Pieces(p, a) == p + [a];
  }

  /** An event that the torn segment takes. */
  lemma TornJoins(p: seq<Group>, a: seq<Event>, b: seq<Event>, e: Event, a': seq<Event>)
    requires b != [] && ((p == [b] && a == []) || TornBefore(p, a, b))
    requires a' == a + [e] || (a' == a == [] && !e.root)
    ensures TornBefore(p, a', b + [e])
  {
    hide Kept, Total, Weight, Pieces;
    WeightSplits(|a|, 1);
    WeightSplits(|b|, 1);
    assert Weight(0) == 0 == Weight(1) by { SmallWeights(); }
    if p == [b] && a == [] {
      KeptOne(b);
      if |b| == 1 && !b[0].root {
        assert b == [b[0]];
        TornPair(b[0], e, a');
      }
    }
  }

  lemma SmallWeights()
    ensures Weight(0) == Weight(1) == 0 && Weight(2) == 2
  {
  }

  lemma TornPair(x: Event, e: Event, a: seq<Event>)
    requires !x.root && (a == [e] || (a == [] && !e.root))
    ensures Kept(Pieces([[x]], a)) == if e.root then [[e]] else []
  {
    KeptOne([x]);
    KeptOne([e]);
    KeptAppend([[x]], [[e]]);
  }

  /** The pieces of a segment that nothing follows, against the segment. */
  lemma SegmentEnds(window: int, p: seq<Group>, a: seq<Event>, b: Group, es: seq<Input>, torn: bool)
    requires if torn then Torn(window, p, a, b, es) else Whole(window, p, a, b, es)
    requires !Joins(window, Groups([], b), es)
    ensures Verdict(Kept(Pieces(p, a)), Kept([b]), torn && !FollowPair(b))
  {
    hide Kept, Total, TornBefore;
    if torn {
      TornVerdict(p, a, b);
    } else {
      assert Pieces(p, a) == [b];
    }
  }

  // ---- whole schedules ----

  /** A schedule against its events: the traces of the groups closed before compare by `v`,
      and the active group of `h` is in the pieces `p` and `a`. */
  ghost predicate Tracks(window: int, gs: seq<Group>, p: seq<Group>, a: seq<Event>, h: Groups, es: seq<Input>,
                         torn: bool, v: bool) {
    && Verdict(Kept(gs), Kept(h.closed), v)
    && (if torn then Torn(window, p, a, h.active, es) else Whole(window, p, a, h.active, es))
  }

  /** The comparison so far is settled for the worse. */
  predicate Shows(window: int, h: Groups, es: seq<Input>, torn: bool, v: bool)
    requires forall i :: 0 <= i < |es| ==> es[i].Ev?
  {
    v || (torn && h.active != [] && !FollowPair(Segment(window, h, es)))
  }

  lemma TrackTick(window: int, idle: int, gs: seq<Group>, p: seq<Group>, a: seq<Event>, h: Groups, es: seq<Input>,
                  now: int, torn: bool, v: bool) returns (p': seq<Group>, a': seq<Event>, torn': bool)
    requires Tracks(window, gs, p, a, h, es, torn, v) && forall i :: 0 <= i < |es| ==> es[i].Ev?
    ensures Tracks(window, gs, p', a', h, es, torn', v)
    ensures Step(window, idle, Groups(gs + p, a), Tick(now)) == Groups(gs + p', a')
    ensures torn' <==> torn || (Joins(window, h, es) && now - LastTs(h.active) > idle)
  {
    hide Kept, Total, TornBefore, Verdict;
    p', a', torn' := p, a, torn || (Joins(window, h, es) && now - LastTs(h.active) > idle);
    if torn && a != [] { TornLast(p, a, h.active); }
    if a != [] && now - LastTs(a) > idle {
      if torn { TornTick(p, a, h.active); }
      p', a' := p + [a], [];
      assert gs + p' == gs + p + [a];
    }
  }

  lemma TornLast(p: seq<Group>, a: seq<Event>, b: seq<Event>)
    requires TornBefore(p, a, b) && a != []
    ensures b != [] && LastTs(a) == LastTs(b)
  {
  }

  lemma TrackJoin(window: int, idle: int, gs: seq<Group>, p: seq<Group>, a: seq<Event>, h: Groups, es: seq<Input>,
                  torn: bool, v: bool) returns (a': seq<Event>)
    requires Tracks(window, gs, p, a, h, es, torn, v) && Joins(window, h, es)
    requires forall i :: 0 <= i < |es| ==> es[i].Ev?
    ensures Step(window, idle, Groups(gs + p, a), es[0]) == Groups(gs + p, a')
    ensures Tracks(window, gs, p, a', Step(window, idle, h, es[0]), es[1..], torn, v)
    ensures Shows(window, Step(window, idle, h, es[0]), es[1..], torn, v) == Shows(window, h, es, torn, v)
  {
    hide Kept, Total, TornBefore, Verdict;
    var e, b := es[0].e, h.active;
    if a != [] && torn { TornLast(p, a, b); }
    a' := Step(window, idle, Groups(gs + p, a), es[0]).active;
    if torn { TornJoins(p, a, b, e, a'); }
    SegmentGrows(window, idle, h, es);
  }

  lemma SegmentGrows(window: int, idle: int, h: Groups, es: seq<Input>)
    requires Joins(window, h, es) && forall i :: 0 <= i < |es| ==> es[i].Ev?
    ensures Step(window, idle, h, es[0]) == h.(active := h.active + [es[0].e])
    ensures Segment(window, Step(window, idle, h, es[0]), es[1..]) == Segment(window, h, es)
  {
    var n := Continuing(window, es[0].e.ts, es[1..]);
    PayloadStep(es, n);
  }

  lemma NothingTorn(window: int, p: seq<Group>, a: seq<Event>, es: seq<Input>)
    ensures !Torn(window, p, a, [], es)
  {
  }

  /** The active group of `h` ends here. */
  lemma TrackClose(window: int, gs: seq<Group>, p: seq<Group>, a: seq<Event>, h: Groups, es: seq<Input>,
                   torn: bool, v: bool)
    requires Tracks(window, gs, p, a, h, es, torn, v) && !Joins(window, h, es)
    requires forall i :: 0 <= i < |es| ==> es[i].Ev?
    ensures Verdict(Kept(Groups(gs + p, a).Close().closed), Kept(h.Close().closed), Shows(window, h, es, torn, v))
  {
    hide Kept, Total, TornBefore, Verdict, FollowPair;
    if h.active != [] {
      SegmentEnds(window, p, a, h.active, es, torn);
      VerdictAppend(gs, h.closed, v, Pieces(p, a), [h.active], torn && !FollowPair(h.active));
      assert Groups(gs + p, a).Close().closed == gs + Pieces(p, a);
      assert Segment(window, h, es) == h.active + [] == h.active;
    } else {
      NothingTorn(window, p, a, es);
      assert p == [] && gs + p == gs;
    }
  }

  /** An event that opens a group, or is dropped, on both sides. */
  lemma OpensAlike(window: int, idle: int, g: Groups, h: Groups, x: Input)
    requires x.Ev? && (g.active != [] ==> x.e.ts - LastTs(g.active) > window)
    requires h.active != [] ==> x.e.ts - LastTs(h.active) > window
    ensures Step(window, idle, g, x) == Groups(g.Close().closed, Step(window, idle, h, x).active)
    ensures Step(window, idle, h, x).closed == h.Close().closed
  {
  }

  /** A schedule from a tracked state compares with its events by what ticks cut visibly. */
  lemma {:induction false} Compare(window: int, idle: int, gs: seq<Group>, p: seq<Group>, a: seq<Event>, h: Groups,
                                   xs: seq<Input>, torn: bool, v: bool)
    requires Tracks(window, gs, p, a, h, EventsOnly(xs), torn, v)
    ensures Verdict(Kept(Fold(window, idle, Groups(gs + p, a), xs).Close().closed),
                    Kept(Fold(window, idle, h, EventsOnly(xs)).Close().closed),
                    Shows(window, h, EventsOnly(xs), torn, v) || CutsVisibly(window, idle, h, xs))
    decreases xs
  {
    hide Verdict, Kept, Whole, Torn, Step, Segment, FollowPair;
    var es := EventsOnly(xs);
    if xs == [] {
      TrackClose(window, gs, p, a, h, es, torn, v);
    } else if xs[0].Tick? {
      var p', a', torn' := TrackTick(window, idle, gs, p, a, h, es, xs[0].now, torn, v);
      Compare(window, idle, gs, p', a', h, xs[1..], torn', v);
    } else {
      var h' := Step(window, idle, h, xs[0]);
      assert es[1..] == EventsOnly(xs[1..]);
      if Joins(window, h, es) {
        var a' := TrackJoin(window, idle, gs, p, a, h, es, torn, v);
        Compare(window, idle, gs, p, a', h', xs[1..], torn, v);
      } else {
        TrackClose(window, gs, p, a, h, es, torn, v);
        LastAgrees(window, p, a, h.active, es, torn);
        OpensAlike(window, idle, Groups(gs + p, a), h, xs[0]);
        var gs' := Groups(gs + p, a).Close().closed;
        StartsWhole(window, h'.active, es[1..]);
        assert gs' + [] == gs';
        Compare(window, idle, gs', [], h'.active, h', xs[1..], false, Shows(window, h, es, torn, v));
      }
    }
  }

  lemma StartsWhole(window: int, a: seq<Event>, es: seq<Input>)
    ensures Whole(window, [], a, a, es)
  {
  }

  /** A piece that is still active ends with the last event of its segment. */
  lemma LastAgrees(window: int, p: seq<Group>, a: seq<Event>, b: seq<Event>, es: seq<Input>, torn: bool)
    requires if torn then Torn(window, p, a, b, es) else Whole(window, p, a, b, es)
    ensures a != [] ==> b != [] && LastTs(a) == LastTs(b)
  {
  }

  // ---- the traces of a schedule ----

  lemma {:induction false} TracesShow(node: string, gs: seq<Group>, hs: seq<Group>)
    requires TracesOf(node, gs) == TracesOf(node, hs)
    ensures |Kept(gs)| == |Kept(hs)| && Total(Kept(gs)) == Total(Kept(hs))
  {
    TracesAreNumbered(node, gs);
    TracesAreNumbered(node, hs);
    forall i | 0 <= i < |Kept(gs)| ensures |Kept(gs)[i]| == |Kept(hs)[i]| {
      assert |TracesOf(node, gs)[i].spans| == |TracesOf(node, hs)[i].spans|;
    }
    SameTotal(Kept(gs), Kept(hs));
  }

  lemma {:induction false} SameTotal(gs: seq<Group>, hs: seq<Group>)
    requires |gs| == |hs| && forall i :: 0 <= i < |gs| ==> |gs[i]| == |hs[i]|
    ensures Total(gs) == Total(hs)
  {
    if gs != [] { SameTotal(gs[..|gs| - 1], hs[..|hs| - 1]); }
  }

  lemma KeptTraces(node: string, gs: seq<Group>, hs: seq<Group>)
    requires Kept(gs) == Kept(hs)
    ensures TracesOf(node, gs) == TracesOf(node, hs)
  {
    hide TraceOf;
    TracesAreNumbered(node, gs);
    TracesAreNumbered(node, hs);
  }

  lemma NoneKept()
    ensures Kept([]) == []
  {
  }

  /** For any schedule and any timeouts, the groups that are kept, and the traces made of
      them, are those of the offline segmentation exactly when every segment
      that a tick cuts early is just two follow events. */
  lemma KeptIff(node: string, window: int, idle: int, xs: seq<Input>)
    ensures var gs, off := Fold(window, idle, NO_GROUPS, xs).Close().closed, Offline(window, EventsOnly(xs));
            && (Kept(gs) == Kept(off) <==> !CutsVisibly(window, idle, NO_GROUPS, xs))
            && (TracesOf(node, gs) == TracesOf(node, off) <==> !CutsVisibly(window, idle, NO_GROUPS, xs))
  {
    hide Kept, Total, TracesOf, CutsVisibly, Offline, Fold, Continuing;
    var es := EventsOnly(xs);
    var gs, off := Fold(window, idle, NO_GROUPS, xs).Close().closed, Offline(window, es);
    OnlineIsOffline(window, idle, NO_GROUPS, es);
    StartsWhole(window, [], es);
    var none: seq<Group> := [];
    assert Groups(none + [], []) == NO_GROUPS && none + off == off;
    assert Kept(none) == [] by { NoneKept(); }
    Compare(window, idle, none, [], [], NO_GROUPS, xs, false, false);
    if CutsVisibly(window, idle, NO_GROUPS, xs) {
      if TracesOf(node, gs) == TracesOf(node, off) { TracesShow(node, gs, off); }
    } else {
      KeptTraces(node, gs, off);
    }
  }

  /** After a tick that finds the stream quiet for longer than `idle`, the flushed traces,
      numbers included, are those of the offline segmentation exactly when no tick cut visibly. */
  lemma FlushedTraces(node: string, window: int, idle: int, xs: seq<Input>, now: int)
    requires var g := Fold(window, idle, NO_GROUPS, xs); g.active != [] ==> now - LastTs(g.active) > idle
    ensures var g := Fold(window, idle, NO_GROUPS, xs + [Tick(now)]);
            && g.active == []
            && (TracesOf(node, g.closed) == TracesOf(node, Offline(window, EventsOnly(xs))) <==>
                !CutsVisibly(window, idle, NO_GROUPS, xs))
  {
    hide TracesOf, CutsVisibly, Offline;
    FoldAppend(window, idle, NO_GROUPS, xs, Tick(now));
    KeptIff(node, window, idle, xs);
  }

  lemma PairSegment(window: int, x: Event, y: Event)
    requires y.ts - x.ts <= window
    ensures Offline(window, [Ev(x, false), Ev(y, false)]) == [[x, y]]
  {
    var es := [Ev(x, false), Ev(y, false)];
    assert es[1..] == [Ev(y, false)] && es[1..][1..] == [] && es[2..] == [];
    assert Continuing(window, x.ts, es[1..]) == 1;
    assert Payload(es[..2]) == [x, y];
  }

  /** Two follow events cut by a tick that overtakes the second: the groups differ from the
      segmentation, the traces do not, for there are none. */
  lemma UnseenCutExample(node: string, x: Event, y: Event)
    requires !x.root && x.ts == 0 && !y.root && y.ts == 2_999_999_999
    ensures var w, xs := 3_000_000_000, [Ev(x, false), Tick(3_000_000_001), Ev(y, false)];
            var gs, off := Fold(w, w, NO_GROUPS, xs).Close().closed, Offline(w, EventsOnly(xs));
            CutsEarly(w, w, NO_GROUPS, xs) && gs != off && TracesOf(node, gs) == TracesOf(node, off) == []
  {
    var w, xs := 3_000_000_000, [Ev(x, false), Tick(3_000_000_001), Ev(y, false)];
    var h := Step(w, w, NO_GROUPS, xs[0]);
    assert h == Groups([], [x]);
    var tail := xs[1..][1..];
    assert tail == [Ev(y, false)] && tail[1..] == [] && EventsOnly(tail) == [Ev(y, false)];
    assert CutsEarly(w, w, h, xs[1..]);
    ScheduleUnobservable(w, w, xs);
    assert EventsOnly(xs) == [Ev(x, false), Ev(y, false)];
    assert Continuing(w, 0, EventsOnly(tail)) == 1 + Continuing(w, y.ts, []);
    PairSegment(w, x, y);
    assert Payload(EventsOnly(tail)[..1]) == [y];
    assert Segment(w, h, EventsOnly(tail)) == [x, y];
    assert !CutsVisibly(w, w, h, tail);
    assert !CutsVisibly(w, w, h, xs[1..]);
    KeptIff(node, w, w, xs);
    var one: seq<Group> := [[x, y]];
    assert one[..0] == [] && TracesOf(node, one) == [];
  }

  // ---- the roots of a stream ----

  lemma {:induction false} EventsOnlyEvents(es: seq<Input>)
    requires forall i :: 0 <= i < |es| ==> es[i].Ev?
    ensures EventsOnly(es) == es
  {
    if es != [] { EventsOnlyEvents(es[1..]); }
  }

  /** The segmentation holds every root of the stream, in order. */
  lemma SegmentsHoldRoots(window: int, es: seq<Input>)
    requires forall i :: 0 <= i < |es| ==> es[i].Ev?
    ensures Roots(Flatten(Offline(window, es))) == Roots(Payload(es))
  {
    hide Roots, Offline, Fold, Flatten;
    EventsOnlyEvents(es);
    OnlineIsOffline(window, 0, NO_GROUPS, es);
    var f, off := Fold(window, 0, NO_GROUPS, es), Offline(window, es);
    assert [] + off == off;
    CloseKeepsEvents(f);
    CloseEmpties(f);
    var keep := Conservation(window, 0, NO_GROUPS, es);
    NothingOpen();
    assert EventsOf(NO_GROUPS) + Select(es, keep) == Select(es, keep);
    SelectRoots(es, keep);
  }

  lemma CloseEmpties(g: Groups)
    ensures EventsOf(g.Close()) == Flatten(g.Close().closed)
  {
  }

  lemma NothingOpen()
    ensures EventsOf(NO_GROUPS) == []
  {
  }

  /** Decided from the stream: with no visible cut, after a closing tick, all its roots are in
      the flushed traces exactly when no segment is a follow event and one root. */
  lemma StreamRootsIff(window: int, idle: int, xs: seq<Input>, now: int)
    requires !CutsVisibly(window, idle, NO_GROUPS, xs)
    requires var g := Fold(window, idle, NO_GROUPS, xs); g.active != [] ==> now - LastTs(g.active) > idle
    ensures var gs := Fold(window, idle, NO_GROUPS, xs + [Tick(now)]).closed;
            Roots(Flatten(Kept(gs))) == Roots(Payload(EventsOnly(xs))) <==> !LosesRoot(window, EventsOnly(xs))
  {
    hide Roots, Kept, Flatten, LostPair, CutsVisibly, Offline, TracesOf;
    FoldAppend(window, idle, NO_GROUPS, xs, Tick(now));
    KeptIff("", window, idle, xs);
    RootsSurviveIff(Offline(window, EventsOnly(xs)));
    SegmentsHoldRoots(window, EventsOnly(xs));
    LosesRootMeans(window, EventsOnly(xs));
  }
}
