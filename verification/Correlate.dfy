/** The convergence correlator: one node's event stream, interleaved with timer ticks,
    is folded online into traces. Times are integer nanoseconds. */
module Correlate {
  import opened Options

  datatype Event = Event(bus: string, kind: string, key: string, detail: string, root: bool, ts: int)

  datatype Span = Span(offsetMs: int, bus: string, kind: string, key: string, detail: string)

  datatype Trace = Trace(node: string, id: nat, root: string, start: int, spanMs: int, spans: seq<Span>)

  /** What the select loop receives. `warm` says that the correlator's own clock was
      still inside the warm-up period when the event was taken from the channel. */
  datatype Input = Ev(e: Event, warm: bool) | Tick(now: int)

  const NS_PER_MS := 1_000_000

  /** Go's `Duration.Milliseconds`: truncates toward zero. */
  function Milliseconds(d: int): int {
    if d >= 0 then d / NS_PER_MS else -((-d) / NS_PER_MS)
  }

  // ---- groups ----

  /** Consecutive events, and what they become when flushed. */
  type Group = g: seq<Event> | |g| > 0 witness [Event("", "", "", "", false, 0)]

  function LastTs(g: seq<Event>): int
    requires |g| > 0
  {
    g[|g| - 1].ts
  }

  function RootName(e: Event): string {
    if e.root then e.bus + "/" + e.kind + " " + e.key else "churn/" + e.bus + "-" + e.kind + " " + e.key
  }

  /** Opened by a follow event and shorter than three events: not a convergence event. */
  predicate Discarded(g: Group) {
    !g[0].root && |g| < 3
  }

  function SpanOf(start: int, e: Event): Span {
    Span(Milliseconds(e.ts - start), e.bus, e.kind, e.key, e.detail)
  }

  function TraceOf(node: string, id: nat, g: Group): (t: Trace)
    ensures |t.spans| == |g|
  {
    Trace(node, id, RootName(g[0]), g[0].ts, Milliseconds(LastTs(g) - g[0].ts),
          seq(|g|, i requires 0 <= i < |g| => SpanOf(g[0].ts, g[i])))
  }

  /** The traces flushed for a list of closed groups, numbered as they are kept. */
  function TracesOf(node: string, groups: seq<Group>): seq<Trace> {
    if groups == [] then []
    else
      var before, g := TracesOf(node, groups[..|groups| - 1]), groups[|groups| - 1];
      if Discarded(g) then before else before + [TraceOf(node, |before| + 1, g)]
  }

  /** What a flushed trace shows: the root text of the event that opened its group, the time of
      that event, and event by event what was emitted, offset in whole milliseconds. */
  lemma TraceMeans(node: string, id: nat, g: Group, i: nat)
    requires i < |g|
    ensures var t, e, first := TraceOf(node, id, g), g[i], g[0];
            && t.node == node && t.id == id && t.start == first.ts && |t.spans| == |g|
            && t.root == (if first.root then first.bus + "/" + first.kind + " " + first.key
                          else "churn/" + first.bus + "-" + first.kind + " " + first.key)
            && t.spans[i].bus == e.bus && t.spans[i].kind == e.kind
            && t.spans[i].key == e.key && t.spans[i].detail == e.detail
            && -1_000_000 < e.ts - first.ts - t.spans[i].offsetMs * 1_000_000 < 1_000_000
            && (e.ts >= first.ts ==> 0 <= t.spans[i].offsetMs * 1_000_000 <= e.ts - first.ts)
            && t.spanMs == t.spans[|g| - 1].offsetMs
  {
  }

  lemma TracesSnoc(node: string, groups: seq<Group>, g: Group)
    ensures var before := TracesOf(node, groups);
            TracesOf(node, groups + [g]) ==
            if Discarded(g) then before else before + [TraceOf(node, |before| + 1, g)]
  {
    assert (groups + [g])[..|groups|] == groups;
  }

  function Kept(groups: seq<Group>): seq<Group> {
    if groups == [] then []
    else if Discarded(groups[|groups| - 1]) then Kept(groups[..|groups| - 1])
    else Kept(groups[..|groups| - 1]) + [groups[|groups| - 1]]
  }

  /** Trace IDs are consecutive from 1, and trace i is the i-th group that was not discarded. */
  lemma {:induction false} TracesAreNumbered(node: string, groups: seq<Group>)
    ensures |TracesOf(node, groups)| == |Kept(groups)|
    ensures forall i :: 0 <= i < |Kept(groups)| ==>
              !Discarded(Kept(groups)[i]) && TracesOf(node, groups)[i] == TraceOf(node, i + 1, Kept(groups)[i])
  {
    if groups != [] {
      TracesAreNumbered(node, groups[..|groups| - 1]);
    }
  }

  // ---- the online machine ----

  /** The groups closed so far and the events of the active one (empty when none). */
  datatype Groups = Groups(closed: seq<Group>, active: seq<Event>) {
    function Close(): Groups {
      if active == [] then this else Groups(closed + [active], [])
    }
  }

  const NO_GROUPS := Groups([], [])

  function Step(window: int, idle: int, g: Groups, x: Input): Groups {
    match x
    case Ev(e, warm) =>
      var h := if g.active != [] && e.ts - LastTs(g.active) > window then g.Close() else g;
      if h.active == [] && !e.root && warm then h else h.(active := h.active + [e])
    case Tick(now) =>
      if g.active != [] && now - LastTs(g.active) > idle then g.Close() else g
  }

  function Fold(window: int, idle: int, g: Groups, xs: seq<Input>): Groups
    decreases xs
  {
    if xs == [] then g else Fold(window, idle, Step(window, idle, g, xs[0]), xs[1..])
  }

  lemma {:induction false} FoldAppend(window: int, idle: int, g: Groups, xs: seq<Input>, x: Input)
    ensures Fold(window, idle, g, xs + [x]) == Step(window, idle, Fold(window, idle, g, xs), x)
    decreases xs
  {
    if xs == [] {
      assert (xs + [x])[1..] == [];
    } else {
      assert (xs + [x])[1..] == xs[1..] + [x];
      FoldAppend(window, idle, Step(window, idle, g, xs[0]), xs[1..], x);
    }
  }

  // ---- offline segmentation: the reference ----

  function EventsOnly(xs: seq<Input>): (es: seq<Input>)
    ensures forall i :: 0 <= i < |es| ==> es[i].Ev?
  {
    if xs == [] then []
    else if xs[0].Ev? then [xs[0]] + EventsOnly(xs[1..])
    else EventsOnly(xs[1..])
  }

  function Payload(es: seq<Input>): (r: seq<Event>)
    requires forall i :: 0 <= i < |es| ==> es[i].Ev?
    ensures |r| == |es| && forall i :: 0 <= i < |es| ==> r[i] == es[i].e
  {
    seq(|es|, i requires 0 <= i < |es| => es[i].e)
  }

  /** How many events of `es` follow one at time `t` with no gap over `window`. */
  function Continuing(window: int, t: int, es: seq<Input>): (n: nat)
    requires forall i :: 0 <= i < |es| ==> es[i].Ev?
    ensures n <= |es|
    decreases es
  {
    if es == [] || es[0].e.ts - t > window then 0 else 1 + Continuing(window, es[0].e.ts, es[1..])
  }

  /** Cut the stream exactly at gaps over `window`; a warm-up follow event cannot open a group. */
  function Offline(window: int, es: seq<Input>): seq<Group>
    requires forall i :: 0 <= i < |es| ==> es[i].Ev?
    decreases |es|
  {
    if es == [] then []
    else if !es[0].e.root && es[0].warm then Offline(window, es[1..])
    else
      var n := 1 + Continuing(window, es[0].e.ts, es[1..]);
      [Payload(es[..n])] + Offline(window, es[n..])
  }

  /** The closed groups of `g`, its active group grown by what continues it, and the
      offline segmentation of what comes after. */
  function Segments(window: int, g: Groups, es: seq<Input>): seq<Group>
    requires forall i :: 0 <= i < |es| ==> es[i].Ev?
  {
    if g.active == [] then g.closed + Offline(window, es)
    else
      var n := Continuing(window, LastTs(g.active), es);
      g.closed + [g.active + Payload(es[..n])] + Offline(window, es[n..])
  }

  lemma JoinsActive(window: int, idle: int, g: Groups, es: seq<Input>)
    requires forall i :: 0 <= i < |es| ==> es[i].Ev?
    requires es != [] && g.active != [] && es[0].e.ts - LastTs(g.active) <= window
    ensures Segments(window, Step(window, idle, g, es[0]), es[1..]) == Segments(window, g, es)
  {
    hide Offline, Payload;
    var h := Step(window, idle, g, es[0]);
    var n := Continuing(window, es[0].e.ts, es[1..]);
    PayloadStep(es, n);
    assert g.active + Payload(es[..n + 1]) == h.active + Payload(es[1..][..n]);
    assert es[n + 1..] == es[1..][n..];
  }

  lemma PayloadStep(es: seq<Input>, n: nat)
    requires n < |es| && forall i :: 0 <= i < |es| ==> es[i].Ev?
    ensures Payload(es[..n + 1]) == [es[0].e] + Payload(es[1..][..n])
  {
    assert es[..n + 1][1..] == es[1..][..n];
  }

  lemma OpensGroup(window: int, idle: int, g: Groups, es: seq<Input>)
    requires forall i :: 0 <= i < |es| ==> es[i].Ev?
    requires es != [] && g.active == []
    ensures Segments(window, Step(window, idle, g, es[0]), es[1..]) == Segments(window, g, es)
  {
    if es[0].e.root || !es[0].warm {
      var n := Continuing(window, es[0].e.ts, es[1..]);
      var k, rest := [es[0].e] + Payload(es[1..][..n]), Offline(window, es[1..][n..]);
      assert Payload(es[..n + 1]) == k;
      assert es[n + 1..] == es[1..][n..];
      assert Step(window, idle, g, es[0]) == Groups(g.closed, [es[0].e]);
      assert g.closed + ([k] + rest) == g.closed + [k] + rest;
    }
  }

  lemma ClosesGroup(window: int, g: Groups, es: seq<Input>)
    requires forall i :: 0 <= i < |es| ==> es[i].Ev?
    requires g.active != [] && (es == [] || es[0].e.ts - LastTs(g.active) > window)
    ensures Segments(window, g, es) == Segments(window, g.Close(), es)
  {
    assert g.active + Payload(es[..0]) == g.active && es[0..] == es;
  }

  /** Without ticks, the online machine computes the offline segmentation. */
  lemma {:induction false} OnlineIsOffline(window: int, idle: int, g: Groups, es: seq<Input>)
    requires forall i :: 0 <= i < |es| ==> es[i].Ev?
    ensures Fold(window, idle, g, es).Close().closed == Segments(window, g, es)
    decreases |es|
  {
    if es == [] {
      if g.active != [] { ClosesGroup(window, g, es); }
    } else {
      OnlineIsOffline(window, idle, Step(window, idle, g, es[0]), es[1..]);
      if g.active == [] {
        OpensGroup(window, idle, g, es);
      } else if es[0].e.ts - LastTs(g.active) <= window {
        JoinsActive(window, idle, g, es);
      } else {
        ClosesGroup(window, g, es);
        OpensGroup(window, idle, g.Close(), es);
        assert Step(window, idle, g, es[0]) == Step(window, idle, g.Close(), es[0]);
      }
    }
  }

  // ---- ticks are unobservable ----

  /** Some tick finds the active group idle for longer than `idle`, and yet the event taken
      next was stamped within `window` of that group. `h` is the state without ticks. */
  predicate CutsEarly(window: int, idle: int, h: Groups, xs: seq<Input>)
    decreases xs
  {
    xs != [] &&
    match xs[0]
    case Ev(_, _) => CutsEarly(window, idle, Step(window, idle, h, xs[0]), xs[1..])
    case Tick(now) =>
      || CutsEarly(window, idle, h, xs[1..])
      || (h.active != [] && now - LastTs(h.active) > idle &&
          var es := EventsOnly(xs[1..]); es != [] && es[0].e.ts - LastTs(h.active) <= window)
  }

  /** `g` is `h`, or `h` with its active group already closed before an event that
      will close it anyway. */
  predicate Ahead(window: int, g: Groups, h: Groups, xs: seq<Input>) {
    || g == h
    || (h.active != [] && g == h.Close() &&
        var es := EventsOnly(xs); es != [] ==> es[0].e.ts - LastTs(h.active) > window)
  }

  lemma {:induction false} TicksCloseEarly(window: int, idle: int, g: Groups, h: Groups, xs: seq<Input>)
    requires !CutsEarly(window, idle, h, xs) && Ahead(window, g, h, xs)
    ensures Fold(window, idle, g, xs).Close() == Fold(window, idle, h, EventsOnly(xs)).Close()
    decreases xs
  {
    if xs != [] {
      var g' := Step(window, idle, g, xs[0]);
      if xs[0].Tick? {
        TicksCloseEarly(window, idle, g', h, xs[1..]);
      } else {
        var h' := Step(window, idle, h, xs[0]);
        assert g' == h';
        assert EventsOnly(xs)[1..] == EventsOnly(xs[1..]);
        TicksCloseEarly(window, idle, g', h', xs[1..]);
      }
    }
  }

  /** Closed groups stay as they are, and the active one only grows. */
  lemma {:induction false} GroupsPersist(window: int, idle: int, g: Groups, xs: seq<Input>)
    ensures var f := Fold(window, idle, g, xs).Close().closed;
            g.closed <= f && (g.active != [] ==> |g.closed| < |f| && g.active <= f[|g.closed|])
    decreases xs
  {
    if xs != [] { GroupsPersist(window, idle, Step(window, idle, g, xs[0]), xs[1..]); }
  }

  /** A group closed while the tick-free machine would still extend it stays too short. */
  lemma {:induction false} CutStays(window: int, idle: int, h: Groups, xs: seq<Input>)
    requires h.active != []
    requires var es := EventsOnly(xs); es != [] && es[0].e.ts - LastTs(h.active) <= window
    ensures Fold(window, idle, h.Close(), xs).Close() != Fold(window, idle, h, EventsOnly(xs)).Close()
    decreases xs
  {
    var g := h.Close();
    if xs[0].Tick? {
      CutStays(window, idle, h, xs[1..]);
    } else {
      var es := EventsOnly(xs);
      assert es[1..] == EventsOnly(xs[1..]);
      var g', h' := Step(window, idle, g, xs[0]), Step(window, idle, h, xs[0]);
      GroupsPersist(window, idle, g', xs[1..]);
      GroupsPersist(window, idle, h', es[1..]);
      assert g'.closed[|h.closed|] == h.active && h' == Groups(h.closed, h.active + [xs[0].e]);
    }
  }

  lemma {:induction false} EarlyCutShows(window: int, idle: int, g: Groups, h: Groups, xs: seq<Input>)
    requires CutsEarly(window, idle, h, xs) && Ahead(window, g, h, xs)
    ensures Fold(window, idle, g, xs).Close() != Fold(window, idle, h, EventsOnly(xs)).Close()
    decreases xs
  {
    var g' := Step(window, idle, g, xs[0]);
    var es := EventsOnly(xs);
    if xs[0].Ev? {
      var h' := Step(window, idle, h, xs[0]);
      assert g' == h';
      assert es[1..] == EventsOnly(xs[1..]);
      EarlyCutShows(window, idle, g', h', xs[1..]);
    } else if g == h && g' != h && es != [] && es[0].e.ts - LastTs(h.active) <= window {
      CutStays(window, idle, h, xs[1..]);
    } else {
      EarlyCutShows(window, idle, g', h, xs[1..]);
    }
  }

  /** Exactly when the ticks of a schedule are unobservable, for any schedule and any
      timeouts: no tick closes a group that the event taken next would have joined. */
  lemma ScheduleUnobservable(window: int, idle: int, xs: seq<Input>)
    ensures Fold(window, idle, NO_GROUPS, xs).Close().closed == Offline(window, EventsOnly(xs)) <==>
            !CutsEarly(window, idle, NO_GROUPS, xs)
  {
    OnlineIsOffline(window, idle, NO_GROUPS, EventsOnly(xs));
    if CutsEarly(window, idle, NO_GROUPS, xs) {
      EarlyCutShows(window, idle, NO_GROUPS, NO_GROUPS, xs);
      var f, o := Fold(window, idle, NO_GROUPS, xs).Close(), Fold(window, idle, NO_GROUPS, EventsOnly(xs)).Close();
      assert f.active == [] && o.active == [];
    } else {
      TicksCloseEarly(window, idle, NO_GROUPS, NO_GROUPS, xs);
    }
  }

  /** A tick taken before an event that was stamped earlier can cut a trace in two even with
      both timeouts at 3 s: emitters stamp before they enqueue, and select may prefer the tick. */
  lemma LateEventExample(root: Event, follow: Event)
    requires root.root && root.ts == 0 && !follow.root && follow.ts == 2_999_999_999
    ensures var xs := [Ev(root, false), Tick(3_000_000_001), Ev(follow, false)];
            Fold(3_000_000_000, 3_000_000_000, NO_GROUPS, xs).Close().closed !=
            Offline(3_000_000_000, EventsOnly(xs))
  {
    var xs := [Ev(root, false), Tick(3_000_000_001), Ev(follow, false)];
    var h := Step(3_000_000_000, 3_000_000_000, NO_GROUPS, xs[0]);
    assert h == Groups([], [root]);
    assert xs[1..][1..] == [Ev(follow, false)] && EventsOnly(xs[1..][1..]) == [Ev(follow, false)];
    assert CutsEarly(3_000_000_000, 3_000_000_000, h, xs[1..]);
    ScheduleUnobservable(3_000_000_000, 3_000_000_000, xs);
  }

  // ---- schedules in event order ----

  /** Each tick is read no later than the time stamp of the event taken next. */
  predicate TicksInOrder(xs: seq<Input>) {
    if xs == [] then true
    else
      && TicksInOrder(xs[1..])
      && (xs[0].Tick? ==> var es := EventsOnly(xs[1..]); es != [] ==> xs[0].now <= es[0].e.ts)
  }

  lemma {:induction false} InOrderNeverCuts(window: int, idle: int, h: Groups, xs: seq<Input>)
    requires window <= idle && TicksInOrder(xs)
    ensures !CutsEarly(window, idle, h, xs)
    decreases xs
  {
    if xs != [] {
      InOrderNeverCuts(window, idle, if xs[0].Ev? then Step(window, idle, h, xs[0]) else h, xs[1..]);
    }
  }

  /** All schedules whose ticks respect event time yield the offline segmentation exactly
      when the idle timeout is at least the window. */
  lemma TicksUnobservable(window: int, idle: int)
    ensures (forall xs | TicksInOrder(xs) ::
               Fold(window, idle, NO_GROUPS, xs).Close().closed == Offline(window, EventsOnly(xs)))
            <==> window <= idle
  {
    if window <= idle {
      forall xs | TicksInOrder(xs)
        ensures Fold(window, idle, NO_GROUPS, xs).Close().closed == Offline(window, EventsOnly(xs))
      {
        InOrderNeverCuts(window, idle, NO_GROUPS, xs);
        ScheduleUnobservable(window, idle, xs);
      }
    } else {
      var e0, e1 := Event("", "", "", "", true, 0), Event("", "", "", "", true, window);
      var xs := [Ev(e0, false), Tick(window), Ev(e1, false)];
      ShortIdleCuts(window, idle, e0, e1, xs);
      ScheduleUnobservable(window, idle, xs);
    }
  }

  lemma ShortIdleCuts(window: int, idle: int, e0: Event, e1: Event, xs: seq<Input>)
    requires idle < window && e0.root && e1.root && e0.ts == 0 && e1.ts == window
    requires xs == [Ev(e0, false), Tick(window), Ev(e1, false)]
    ensures TicksInOrder(xs) && CutsEarly(window, idle, NO_GROUPS, xs)
  {
    var x1, x2 := xs[1..], xs[1..][1..];
    assert x2 == [Ev(e1, false)] && x2[1..] == [] && EventsOnly(x2) == [Ev(e1, false)];
    assert TicksInOrder(x2) && TicksInOrder(x1);
    var h := Step(window, idle, NO_GROUPS, xs[0]);
    assert h == Groups([], [e0]);
    assert CutsEarly(window, idle, h, x1);
  }

  // ---- conservation, on every schedule ----

  function Flatten(gs: seq<Group>): seq<Event> {
    if gs == [] then [] else Flatten(gs[..|gs| - 1]) + gs[|gs| - 1]
  }

  function Select(es: seq<Input>, keep: seq<bool>): seq<Event>
    requires |es| == |keep| && forall i :: 0 <= i < |es| ==> es[i].Ev?
  {
    if es == [] then []
    else (if keep[0] then [es[0].e] else []) + Select(es[1..], keep[1..])
  }

  function EventsOf(g: Groups): seq<Event> {
    Flatten(g.closed) + g.active
  }

  lemma CloseKeepsEvents(g: Groups)
    ensures EventsOf(g.Close()) == EventsOf(g)
  {
    if g.active != [] {
      assert g.Close().closed[..|g.closed|] == g.closed;
    }
  }

  /** The events not kept are follow events taken during warm-up. */
  ghost predicate DropsWarm(es: seq<Input>, keep: seq<bool>) {
    && |keep| == |es|
    && forall i :: 0 <= i < |es| && !keep[i] ==> es[i].Ev? && !es[i].e.root && es[i].warm
  }

  /** Whatever the ticks do, every accepted event is in exactly one group, in order,
      except follow events taken during warm-up. */
  lemma {:induction false} Conservation(window: int, idle: int, g: Groups, xs: seq<Input>) returns (keep: seq<bool>)
    ensures DropsWarm(EventsOnly(xs), keep)
    ensures EventsOf(Fold(window, idle, g, xs)) == EventsOf(g) + Select(EventsOnly(xs), keep)
    decreases xs
  {
    if xs == [] {
      keep := [];
    } else {
      hide Step, EventsOf, EventsOnly, DropsWarm, Select;
      var h := Step(window, idle, g, xs[0]);
      StepEvents(window, idle, g, xs[0]);
      EventsOnlyStep(xs);
      var rest := Conservation(window, idle, h, xs[1..]);
      if xs[0].Tick? {
        keep := rest;
      } else {
        keep := ConserveEvent(EventsOf(g), EventsOf(h), xs[0], EventsOnly(xs[1..]), rest);
      }
    }
  }

  lemma ConserveEvent(before: seq<Event>, after: seq<Event>, x: Input, es: seq<Input>, rest: seq<bool>)
    returns (keep: seq<bool>)
    requires DropsWarm(es, rest) && x.Ev? && forall i :: 0 <= i < |es| ==> es[i].Ev?
    requires after == before + [x.e] || (after == before && !x.e.root && x.warm)
    ensures DropsWarm([x] + es, keep) && after + Select(es, rest) == before + Select([x] + es, keep)
  {
    hide DropsWarm, Select;
    var kept := after == before + [x.e];
    DropsStep(x, es, kept, rest);
    SelectStep(x, es, kept, rest);
    keep := [kept] + rest;
    var more := Select(es, rest);
    assert before + [x.e] + more == before + ([x.e] + more);
    assert [] + more == more;
  }

  lemma DropsStep(x: Input, es: seq<Input>, kept: bool, rest: seq<bool>)
    requires DropsWarm(es, rest) && x.Ev? && (kept || (!x.e.root && x.warm))
    ensures |rest| == |es| && DropsWarm([x] + es, [kept] + rest)
  {
  }

  lemma EventsOnlyStep(xs: seq<Input>)
    requires xs != []
    ensures EventsOnly(xs) == if xs[0].Ev? then [xs[0]] + EventsOnly(xs[1..]) else EventsOnly(xs[1..])
  {
  }

  lemma SelectStep(x: Input, es: seq<Input>, kept: bool, rest: seq<bool>)
    requires x.Ev? && |es| == |rest| && forall i :: 0 <= i < |es| ==> es[i].Ev?
    ensures Select([x] + es, [kept] + rest) == (if kept then [x.e] else []) + Select(es, rest)
  {
    assert ([x] + es)[1..] == es && ([kept] + rest)[1..] == rest;
  }

  lemma StepEvents(window: int, idle: int, g: Groups, x: Input)
    ensures var h := Step(window, idle, g, x);
            match x
            case Tick(_) => EventsOf(h) == EventsOf(g)
            case Ev(e, warm) =>
              || EventsOf(h) == EventsOf(g) + [e]
              || (EventsOf(h) == EventsOf(g) && !e.root && warm)
  {
    CloseKeepsEvents(g);
    if x.Ev? {
      var h := if g.active != [] && x.e.ts - LastTs(g.active) > window then g.Close() else g;
      assert Flatten(h.closed) + (h.active + [x.e]) == (Flatten(h.closed) + h.active) + [x.e];
    }
  }

  /** Inside a group no two neighbours are more than a window apart. */
  predicate Tight(window: int, g: seq<Event>) {
    forall i :: 0 < i < |g| ==> g[i].ts - g[i - 1].ts <= window
  }

  /** Groups never span a gap over the window, whatever the ticks do. */
  lemma {:induction false} GroupsAreTight(window: int, idle: int, g: Groups, xs: seq<Input>)
    requires Tight(window, g.active) && forall k :: k in g.closed ==> Tight(window, k)
    ensures var h := Fold(window, idle, g, xs);
            Tight(window, h.active) && forall k :: k in h.closed ==> Tight(window, k)
    decreases xs
  {
    if xs != [] {
      GroupsAreTight(window, idle, Step(window, idle, g, xs[0]), xs[1..]);
    }
  }

  // ---- which roots survive ----

  function Roots(es: seq<Event>): seq<Event> {
    if es == [] then []
    else Roots(es[..|es| - 1]) + (if es[|es| - 1].root then [es[|es| - 1]] else [])
  }

  /** A follow event with one root behind it and nothing else. */
  predicate LostPair(g: Group) {
    |g| == 2 && !g[0].root && g[1].root
  }

  lemma {:induction false} RootsAppend(xs: seq<Event>, ys: seq<Event>)
    ensures Roots(xs + ys) == Roots(xs) + Roots(ys)
  {
    if ys == [] {
      assert xs + ys == xs;
    } else {
      assert (xs + ys)[..|xs + ys| - 1] == xs + ys[..|ys| - 1];
      RootsAppend(xs, ys[..|ys| - 1]);
    }
  }

  /** A discarded group holds no root, or is a lost pair. */
  lemma DiscardedRoots(g: Group)
    requires Discarded(g)
    ensures Roots(g) == [] <==> !LostPair(g)
  {
    assert g[..1] == [g[0]] && Roots([g[0]]) == [] by { assert [g[0]][..0] == []; }
    if |g| == 1 { assert g == [g[0]]; }
  }

  lemma {:induction false} FewerRoots(gs: seq<Group>)
    ensures |Roots(Flatten(Kept(gs)))| <= |Roots(Flatten(gs))|
    ensures Roots(Flatten(Kept(gs))) == Roots(Flatten(gs)) <==> forall g :: g in gs ==> !LostPair(g)
  {
    hide Roots, LostPair, Discarded;
    if gs != [] {
      var init, g := gs[..|gs| - 1], gs[|gs| - 1];
      assert gs == init + [g];
      FewerRoots(init);
      RootsAppend(Flatten(init), g);
      if Discarded(g) {
        DiscardedRoots(g);
      } else {
        NotLost(g);
        assert (Kept(init) + [g])[..|Kept(init)|] == Kept(init);
        RootsAppend(Flatten(Kept(init)), g);
        SameTail(Roots(Flatten(Kept(init))), Roots(Flatten(init)), Roots(g));
      }
    }
  }

  lemma NotLost(g: Group)
    requires !Discarded(g)
    ensures !LostPair(g)
  {
  }

  lemma SameTail(a: seq<Event>, b: seq<Event>, c: seq<Event>)
    ensures a + c == b + c <==> a == b
  {
    if a + c == b + c {
      assert |a + c| == |a| + |c| && |b + c| == |b| + |c|;
      assert a == (a + c)[..|a|] && b == (b + c)[..|b|];
    }
  }

  /** Every root of the closed groups appears in a flushed trace exactly when no group is a
      follow event followed by a single root. */
  lemma RootsSurviveIff(gs: seq<Group>)
    ensures Roots(Flatten(Kept(gs))) == Roots(Flatten(gs)) <==> forall g :: g in gs ==> !LostPair(g)
  {
    FewerRoots(gs);
  }

  lemma {:induction false} SelectRoots(es: seq<Input>, keep: seq<bool>)
    requires DropsWarm(es, keep) && forall i :: 0 <= i < |es| ==> es[i].Ev?
    ensures Roots(Select(es, keep)) == Roots(Payload(es))
  {
    if es != [] {
      hide Roots;
      SelectRoots(es[1..], keep[1..]);
      assert Payload(es) == [es[0].e] + Payload(es[1..]);
      RootsAppend([es[0].e], Payload(es[1..]));
      RootsAppend(if keep[0] then [es[0].e] else [], Select(es[1..], keep[1..]));
      assert !keep[0] ==> Roots([es[0].e]) == [] && Roots([]) == [] by { OneRoot(es[0].e); }
    }
  }

  lemma OneRoot(e: Event)
    ensures Roots([]) == [] && Roots([e]) == if e.root then [e] else []
  {
    assert [e][..0] == [];
  }

  /** On every schedule that has closed its last group, every root of the accepted stream
      is reported exactly when no closed group is a lost pair. */
  lemma RootsReportedIff(window: int, idle: int, xs: seq<Input>)
    requires Fold(window, idle, NO_GROUPS, xs).active == []
    ensures var gs := Fold(window, idle, NO_GROUPS, xs).closed;
            Roots(Flatten(Kept(gs))) == Roots(Payload(EventsOnly(xs))) <==> forall g :: g in gs ==> !LostPair(g)
  {
    hide Roots;
    var keep := Conservation(window, idle, NO_GROUPS, xs);
    SelectRoots(EventsOnly(xs), keep);
    var f := Fold(window, idle, NO_GROUPS, xs);
    var selected := Select(EventsOnly(xs), keep);
    assert EventsOf(f) == Flatten(f.closed) && EventsOf(NO_GROUPS) + selected == selected;
    RootsSurviveIff(f.closed);
  }

  /** Some segment of the stream is a follow event and one root: a caller can decide this
      from the time stamps, the root flags and the warm-up flags alone. */
  predicate LosesRoot(window: int, es: seq<Input>)
    requires forall i :: 0 <= i < |es| ==> es[i].Ev?
    decreases |es|
  {
    es != [] &&
    if !es[0].e.root && es[0].warm then LosesRoot(window, es[1..])
    else
      var n := 1 + Continuing(window, es[0].e.ts, es[1..]);
      (n == 2 && !es[0].e.root && es[1].e.root) || LosesRoot(window, es[n..])
  }

  lemma {:induction false} LosesRootMeans(window: int, es: seq<Input>)
    requires forall i :: 0 <= i < |es| ==> es[i].Ev?
    ensures LosesRoot(window, es) <==> exists g :: g in Offline(window, es) && LostPair(g)
    decreases |es|
  {
    if es != [] {
      if !es[0].e.root && es[0].warm {
        LosesRootMeans(window, es[1..]);
      } else {
        var n := 1 + Continuing(window, es[0].e.ts, es[1..]);
        LosesRootMeans(window, es[n..]);
        var first: Group := Payload(es[..n]);
        assert LostPair(first) <==> n == 2 && !es[0].e.root && es[1].e.root;
        assert Offline(window, es) == [first] + Offline(window, es[n..]);
        assert first in Offline(window, es);
      }
    }
  }

  /** A root that joins a churn group of fewer than three events is lost with it. */
  lemma RootCanBeLost(node: string, window: int, idle: int, follow: Event, root: Event, now: int)
    requires !follow.root && root.root && root.ts - follow.ts <= window && now - root.ts > idle
    ensures var g := Fold(window, idle, NO_GROUPS, [Ev(follow, false), Ev(root, false), Tick(now)]);
            EventsOf(g) == [follow, root] && TracesOf(node, g.closed) == []
  {
    var xs := [Ev(follow, false), Ev(root, false), Tick(now)];
    assert xs[1..][1..] == [Tick(now)] && xs[1..][1..][1..] == [];
    var g1 := Step(window, idle, NO_GROUPS, xs[0]);
    var g2 := Step(window, idle, g1, xs[1]);
    var g3 := Step(window, idle, g2, xs[2]);
    assert g2 == Groups([], [follow, root]);
    assert g3 == Groups([[follow, root]], []);
    assert Fold(window, idle, g2, xs[1..][1..]) == g3;
    assert Fold(window, idle, g1, xs[1..]) == g3;
    assert g3.closed[..0] == [] && Flatten(g3.closed) == [follow, root];
  }

  // ---- the correlator object ----

  /** The last `n` elements. */
  function LastN<T>(s: seq<T>, n: nat): seq<T> {
    if |s| <= n then s else s[|s| - n..]
  }

  /** Appending and trimming keeps the last `n` elements. */
  lemma LastNGrows<T>(s: seq<T>, ring: seq<T>, t: T, n: nat)
    requires ring == LastN(s, n)
    ensures LastN(s + [t], n) == if |ring| + 1 > n then (ring + [t])[|ring| + 1 - n..] else ring + [t]
  {
  }

  datatype Acc = Acc(start: int, last: int, root: string, churn: bool, events: seq<Event>)

  class Correlator {
    const node: string
    const window: int
    const idle: int
    const max: nat
    var active: Option<Acc>
    var ring: seq<Trace>
    var count: nat
    ghost var closed: seq<Group>

    constructor (node: string)
      ensures Valid() && Model() == NO_GROUPS
      ensures this.node == node && window == idle == 3_000_000_000 && max == 50
    {
      this.node, window, idle, max := node, 3_000_000_000, 3_000_000_000, 50;
      active, ring, count, closed := None, [], 0, [];
    }

    ghost predicate Valid()
      reads this
    {
      && (active.Some? ==>
            var a := active.value;
            && a.events != []
            && a == Acc(a.events[0].ts, LastTs(a.events), RootName(a.events[0]), !a.events[0].root, a.events))
      && count == |TracesOf(node, closed)|
      && ring == LastN(TracesOf(node, closed), max)
    }

    ghost function Model(): Groups
      reads this
    {
      Groups(closed, if active.Some? then active.value.events else [])
    }

    /** One turn of the select loop. */
    method Receive(x: Input)
      requires Valid()
      modifies this
      ensures Valid() && Model() == Step(window, idle, old(Model()), x)
    {
      hide TracesOf, LastN;
      match x {
        case Ev(e, warm) =>
          if active.Some? && e.ts - active.value.last > window {
            Flush(active.value);
            active := None;
          }
          if active.None? {
            if !e.root {
              if warm { return; }
              active := Some(Acc(e.ts, e.ts, "churn/" + e.bus + "-" + e.kind + " " + e.key, true, []));
            } else {
              active := Some(Acc(e.ts, e.ts, e.bus + "/" + e.kind + " " + e.key, false, []));
            }
          }
          active := Some(active.value.(last := e.ts, events := active.value.events + [e]));
        case Tick(now) =>
          if active.Some? && now - active.value.last > idle {
            Flush(active.value);
            active := None;
          }
      }
    }

    /** Number the group and push it on the ring of recent traces, unless it is lone churn. */
    method Flush(a: Acc)
      requires Valid() && active == Some(a)
      modifies this`ring, this`count, this`closed
      ensures Valid() && closed == old(closed) + [a.events]
    {
      hide TracesOf, TraceOf, LastN, RootName;
      TracesSnoc(node, closed, a.events);
      closed := closed + [a.events];
      if a.churn && |a.events| < 3 { return; }
      count := count + 1;
      var t := Build(a);
      LastNGrows(TracesOf(node, old(closed)), ring, t, max);
      ring := ring + [t];
      if |ring| > max {
        ring := ring[|ring| - max..];
      }
    }

    method Build(a: Acc) returns (t: Trace)
      requires a.events != []
      requires a == Acc(a.events[0].ts, LastTs(a.events), RootName(a.events[0]), !a.events[0].root, a.events)
      ensures t == TraceOf(node, count, a.events)
    {
      var spans := [];
      for i := 0 to |a.events|
        invariant |spans| == i && forall j :: 0 <= j < i ==> spans[j] == SpanOf(a.start, a.events[j])
      {
        var e := a.events[i];
        spans := spans + [Span(Milliseconds(e.ts - a.start), e.bus, e.kind, e.key, e.detail)];
      }
      t := Trace(node, count, a.root, a.start, Milliseconds(a.last - a.start), spans);
    }

    /** Over any inputs, the ring of a fresh correlator is exactly its last `max` flushed traces. */
    method Run(xs: seq<Input>)
      requires Valid() && Model() == NO_GROUPS
      modifies this
      ensures Valid() && Model() == Fold(window, idle, NO_GROUPS, xs)
      ensures ring == LastN(TracesOf(node, Fold(window, idle, NO_GROUPS, xs).closed), max)
      ensures count == |TracesOf(node, Fold(window, idle, NO_GROUPS, xs).closed)|
    {
      for i := 0 to |xs|
        invariant Valid() && Model() == Fold(window, idle, NO_GROUPS, xs[..i])
      {
        FoldAppend(window, idle, NO_GROUPS, xs[..i], xs[i]);
        assert xs[..i + 1] == xs[..i] + [xs[i]];
        Receive(xs[i]);
      }
      assert xs[..|xs|] == xs;
    }
  }
}
