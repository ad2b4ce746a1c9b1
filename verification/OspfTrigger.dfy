/** The trigger protocol around the OSPF reconcile: a draining reader and an optional
    fallback timer signal a one-slot channel without blocking; one worker takes the
    signal, waits for the burst to settle, and reconciles. Steps of the three interleave
    freely; `clock` counts them, so "after" means a larger stamp. */
module OspfTrigger {

  datatype Worker =
    | Idle         // waiting on the channel
    | Debouncing   // took a signal, sleeping 300 ms
    | Reading      // the neighbor snapshot is read, its effects are not all applied yet

  datatype State = State(
    slot: bool,          // a signal is pending in the channel
    drained: bool,       // the reader holds an OSPF message it has not signalled yet
    worker: Worker,
    clock: nat,
    lastMsg: nat,        // when the last OSPF message was taken off the socket
    lastRead: nat,       // when the last snapshot was read
    lastGood: nat,       // when the last snapshot whose command succeeded was read
    signals: nat,        // sends attempted
    delivered: nat,      // sends that found the slot empty
    received: nat,       // signals the worker took
    reconciles: nat)     // reconciles started by a signal

  datatype Step =
    | Message(text: string)   // a datagram is read from /dev/log
    | Signal                  // the reader's non-blocking send
    | Fallback                // the timer's non-blocking send
    | Receive                 // the worker takes the pending signal
    | Snapshot(ok: bool)      // the debounce ends and the neighbor table is read
    | Applied                 // the worker returns to the channel

  /** After the startup reconcile, which runs before the goroutines start; its command, too,
      may fail. */
  function Init(ok: bool): State {
    State(false, false, Idle, 1, 0, 1, if ok then 1 else 0, 0, 0, 0, 0)
  }

  function Lower(c: char): char {
    if 'A' <= c <= 'Z' then ((c as int) + 32) as char else c
  }

  predicate StartsWithOspf(s: string) {
    |s| >= 4 && Lower(s[0]) == 'o' && Lower(s[1]) == 's' && Lower(s[2]) == 'p' && Lower(s[3]) == 'f'
  }

  /** `strings.Contains(strings.ToLower(s), "ospf")` on ASCII. */
  predicate MentionsOspf(s: string) {
    exists i :: 0 <= i <= |s| && StartsWithOspf(s[i..])
  }

  /** The word in any mixture of cases. */
  predicate OspfWord(w: string) {
    |w| == 4 && w[0] in "oO" && w[1] in "sS" && w[2] in "pP" && w[3] in "fF"
  }

  /** A message counts exactly when it holds the word somewhere. */
  lemma MentionsIff(s: string)
    ensures MentionsOspf(s) <==> exists a, w, b :: OspfWord(w) && s == a + w + b
  {
    if MentionsOspf(s) {
      var i :| 0 <= i <= |s| && StartsWithOspf(s[i..]);
      assert s == s[..i] + s[i..][..4] + s[i..][4..] && OspfWord(s[i..][..4]);
    }
    if exists a, w, b :: OspfWord(w) && s == a + w + b {
      var a, w, b :| OspfWord(w) && s == a + w + b;
      assert s[|a|..] == w + b && StartsWithOspf(s[|a|..]);
    }
  }

  predicate Enabled(s: State, a: Step) {
    match a
    case Message(_) => !s.drained
    case Signal => s.drained
    case Fallback => true
    case Receive => s.slot && s.worker == Idle
    case Snapshot(_) => s.worker == Debouncing
    case Applied => s.worker == Reading
  }

  /** A non-blocking send: at most one signal is ever pending. */
  function Send(s: State): State {
    s.(slot := true, signals := s.signals + 1, delivered := s.delivered + (if s.slot then 0 else 1))
  }

  function Do(s: State, a: Step): State {
    var t := s.(clock := s.clock + 1);
    match a
    case Message(text) => if MentionsOspf(text) then t.(drained := true, lastMsg := t.clock) else t
    case Signal => Send(t).(drained := false)
    case Fallback => Send(t)
    case Receive => t.(slot := false, worker := Debouncing, received := t.received + 1)
    case Snapshot(ok) =>
      t.(worker := Reading, lastRead := t.clock, lastGood := if ok then t.clock else t.lastGood,
         reconciles := t.reconciles + 1)
    case Applied => t.(worker := Idle)
  }

  predicate Run(s: State, steps: seq<Step>)
    decreases steps
  {
    steps == [] || (Enabled(s, steps[0]) && Run(Do(s, steps[0]), steps[1..]))
  }

  function After(s: State, steps: seq<Step>): State
    decreases steps
  {
    if steps == [] then s else After(Do(s, steps[0]), steps[1..])
  }

  /** The invariant of every interleaving. */
  predicate Inv(s: State) {
    // an OSPF message not yet covered by a snapshot is on its way to one
    && (s.lastMsg > s.lastRead ==> s.drained || s.slot || s.worker == Debouncing)
    && (s.drained ==> s.lastMsg > 0)
    && s.lastMsg <= s.clock && s.lastRead <= s.clock && s.lastGood <= s.lastRead
    && s.lastMsg != s.lastRead
    // signals are neither lost nor duplicated on the way to a reconcile
    && s.delivered <= s.signals
    && s.delivered == s.received + (if s.slot then 1 else 0)
    && s.received == s.reconciles + (if s.worker == Debouncing then 1 else 0)
  }

  lemma InvStep(s: State, a: Step)
    requires Inv(s) && Enabled(s, a)
    ensures Inv(Do(s, a))
  {
    hide MentionsOspf;
  }

  lemma {:induction false} InvRun(s: State, steps: seq<Step>)
    requires Inv(s) && Run(s, steps)
    ensures Inv(After(s, steps))
    decreases steps
  {
    hide Inv;
    if steps != [] {
      InvStep(s, steps[0]);
      InvRun(Do(s, steps[0]), steps[1..]);
    }
  }

  /** No lost wakeup: whenever nothing is pending, the last snapshot was read after the
      last OSPF message. Reconciles never outnumber signals, and every delivered signal
      has its own reconcile, but for the one in the slot and the one being debounced. */
  lemma NoLostWakeup(ok: bool, steps: seq<Step>)
    requires Run(Init(ok), steps)
    ensures var s := After(Init(ok), steps);
            && (!s.drained && !s.slot && s.worker != Debouncing ==> s.lastRead > s.lastMsg)
            && s.reconciles <= s.received <= s.delivered <= s.signals
            && s.delivered <= s.reconciles + 2
  {
    InvRun(Init(ok), steps);
  }

  /** Nothing is on its way: no message unsignalled, no signal pending, the worker waiting. */
  predicate AtRest(s: State) {
    !s.drained && !s.slot && s.worker == Idle
  }

  /** Whatever state a run is in, if no further message comes, at most six steps of the
      reader and the worker bring it to rest with a snapshot read after the last message:
      the protocol cannot get stuck with a pending change. */
  lemma CatchesUp(ok: bool, steps: seq<Step>) returns (more: seq<Step>)
    requires Run(Init(ok), steps)
    ensures |more| <= 6 && Run(After(Init(ok), steps), more)
    ensures forall a :: a in more ==> !a.Message? && !a.Fallback?
    ensures var s := After(After(Init(ok), steps), more);
            AtRest(s) && s.lastRead > s.lastMsg
  {
    InvRun(Init(ok), steps);
    var s := After(Init(ok), steps);
    more := [];
    hide MentionsOspf;
    var t := s;
    if t.drained { more := more + [Signal]; t := Do(t, Signal); }
    var rest := Settle(t);
    RunConcat(s, more, rest);
    more := more + rest;
  }

  lemma RunConcat(s: State, xs: seq<Step>, ys: seq<Step>)
    requires Run(s, xs) && Run(After(s, xs), ys)
    ensures Run(s, xs + ys) && After(s, xs + ys) == After(After(s, xs), ys)
    decreases xs
  {
    if xs == [] {
      assert xs + ys == ys;
    } else {
      assert (xs + ys)[1..] == xs[1..] + ys;
      RunConcat(Do(s, xs[0]), xs[1..], ys);
    }
  }

  function Work(s: State): nat {
    (if s.slot then 3 else 0) + (match s.worker case Idle => 0 case Debouncing => 2 case Reading => 1)
  }

  /** The worker's own next steps until it waits on an empty channel. */
  lemma Settle(s: State) returns (more: seq<Step>)
    requires Inv(s) && !s.drained
    ensures |more| <= Work(s) <= 5 && Run(s, more)
    ensures forall a :: a in more ==> a == Receive || a == Snapshot(true) || a == Applied
    ensures var t := After(s, more);
            Inv(t) && !t.drained && !t.slot && t.worker == Idle && t.lastRead > t.lastMsg
    decreases Work(s)
  {
    if s.worker == Idle && !s.slot {
      more := [];
    } else {
      var a := if s.worker == Debouncing then Snapshot(true) else if s.worker == Reading then Applied else Receive;
      InvStep(s, a);
      var rest := Settle(Do(s, a));
      more := [a] + rest;
      assert more[1..] == rest;
    }
  }

  // ---- a failing neighbor command ----

  predicate IsOspf(a: Step) {
    a.Message? && MentionsOspf(a.text)
  }

  predicate HasOspf(steps: seq<Step>) {
    exists i :: 0 <= i < |steps| && IsOspf(steps[i])
  }

  /** What happened after the last OSPF message. */
  function Tail(steps: seq<Step>): seq<Step> {
    if steps == [] then []
    else if IsOspf(steps[|steps| - 1]) then []
    else Tail(steps[..|steps| - 1]) + [steps[|steps| - 1]]
  }

  predicate SnapshotIn(steps: seq<Step>) {
    exists a :: a in steps && a.Snapshot?
  }

  /** A snapshot whose command succeeded was read after the last OSPF message. */
  predicate Covered(s: State) {
    s.lastMsg > 0 ==> s.lastGood > s.lastMsg
  }

  lemma {:induction false} RunInit(s: State, steps: seq<Step>, a: Step)
    requires Run(s, steps + [a])
    ensures Run(s, steps) && Enabled(After(s, steps), a) && After(s, steps + [a]) == Do(After(s, steps), a)
    decreases steps
  {
    var all := steps + [a];
    if steps == [] {
      assert all[1..] == [];
    } else {
      assert all[1..] == steps[1..] + [a];
      RunInit(Do(s, steps[0]), steps[1..], a);
    }
  }

  /** What the stamps of the state say about the steps that set them. */
  ghost predicate Stamps(s: State, steps: seq<Step>) {
    && 1 <= s.clock && s.lastMsg <= s.clock && s.lastRead <= s.clock && s.lastGood <= s.clock
    && (s.lastMsg > 0 <==> HasOspf(steps)) && s.lastMsg != 1
    && (HasOspf(steps) ==> (s.lastRead > s.lastMsg <==> SnapshotIn(Tail(steps))))
    && (HasOspf(steps) ==> (s.lastGood > s.lastMsg <==> Snapshot(true) in Tail(steps)))
  }

  lemma {:induction false} StampsMean(ok: bool, steps: seq<Step>)
    requires Run(Init(ok), steps)
    ensures Stamps(After(Init(ok), steps), steps)
    decreases steps
  {
    if steps != [] {
      var init, a := steps[..|steps| - 1], steps[|steps| - 1];
      assert steps == init + [a];
      RunInit(Init(ok), init, a);
      StampsMean(ok, init);
      StampsStep(After(Init(ok), init), init, a);
    }
  }

  lemma StampsStep(s: State, init: seq<Step>, a: Step)
    requires Stamps(s, init)
    ensures Stamps(Do(s, a), init + [a])
  {
    hide MentionsOspf, HasOspf;
    var steps := init + [a];
    HasOspfSnoc(init, a);
    assert steps[..|steps| - 1] == init;
    assert Tail(steps) == if IsOspf(a) then [] else Tail(init) + [a];
  }

  lemma HasOspfSnoc(init: seq<Step>, a: Step)
    ensures HasOspf(init + [a]) <==> HasOspf(init) || IsOspf(a)
  {
    hide MentionsOspf;
    var steps := init + [a];
    assert steps[|init|] == a && forall i :: 0 <= i < |init| ==> steps[i] == init[i];
  }

  /** The protocol delivers a read, and only the command's outcome is left to chance: in
      every run that is at rest, a snapshot was read after the last OSPF message, and the
      change is covered exactly when the command of one of those reads succeeded. */
  lemma CoveredIff(ok: bool, steps: seq<Step>)
    requires Run(Init(ok), steps) && AtRest(After(Init(ok), steps))
    ensures HasOspf(steps) ==> SnapshotIn(Tail(steps))
    ensures Covered(After(Init(ok), steps)) <==> !HasOspf(steps) || Snapshot(true) in Tail(steps)
  {
    NoLostWakeup(ok, steps);
    StampsMean(ok, steps);
  }

  /** The outcomes of the commands of a run. */
  predicate OutcomesIn(steps: seq<Step>, outcomes: set<bool>) {
    forall i :: 0 <= i < |steps| && steps[i].Snapshot? ==> steps[i].ok in outcomes
  }

  lemma {:induction false} TailIsSuffix(steps: seq<Step>)
    ensures |Tail(steps)| <= |steps| && Tail(steps) == steps[|steps| - |Tail(steps)|..]
  {
    if steps != [] { TailIsSuffix(steps[..|steps| - 1]); }
  }

  /** So every run at rest has covered its last OSPF message, whatever the interleaving and
      whether or not the startup command succeeded, exactly when no command may fail. */
  lemma AllCoveredIff(outcomes: set<bool>)
    ensures (forall ok, steps |
               Run(Init(ok), steps) && AtRest(After(Init(ok), steps)) && OutcomesIn(steps, outcomes) ::
               Covered(After(Init(ok), steps)))
            <==> false !in outcomes
  {
    hide Run, After, AtRest;
    if false in outcomes {
      FailedReadLosesChange(true);
      var steps := [Message("ospf"), Signal, Receive, Snapshot(false), Applied];
      assert OutcomesIn(steps, outcomes) && !Covered(After(Init(true), steps));
    } else {
      forall ok, steps | Run(Init(ok), steps) && AtRest(After(Init(ok), steps)) && OutcomesIn(steps, outcomes)
        ensures Covered(After(Init(ok), steps))
      {
        CoveredWhen(ok, steps, outcomes);
      }
    }
  }

  lemma CoveredWhen(ok: bool, steps: seq<Step>, outcomes: set<bool>)
    requires Run(Init(ok), steps) && AtRest(After(Init(ok), steps)) && OutcomesIn(steps, outcomes)
    requires false !in outcomes
    ensures Covered(After(Init(ok), steps))
  {
    hide Run, After, MentionsOspf, Tail, Covered, AtRest, HasOspf;
    CoveredIff(ok, steps);
    TailIsSuffix(steps);
    if HasOspf(steps) {
      var tail := Tail(steps);
      var a :| a in tail && a.Snapshot?;
      var i :| 0 <= i < |tail| && tail[i] == a;
      assert steps[|steps| - |tail| + i] == a;
    }
  }

  /** A single failing command can leave a change unseen at rest. */
  lemma FailedReadLosesChange(ok: bool)
    ensures var steps := [Message("ospf"), Signal, Receive, Snapshot(false), Applied];
            var s := After(Init(ok), steps);
            Run(Init(ok), steps) && AtRest(s) && s.lastGood < s.lastMsg < s.lastRead
  {
    assert MentionsOspf("ospf") by { assert "ospf"[0..] == "ospf"; assert StartsWithOspf("ospf"[0..]); }
    hide MentionsOspf;
    var steps := [Message("ospf"), Signal, Receive, Snapshot(false), Applied];
    var s1 := Do(Init(ok), steps[0]);
    var s2 := Do(s1, Signal);
    var s3 := Do(s2, Receive);
    var s4 := Do(s3, Snapshot(false));
    var r1, r2, r3, r4 := steps[1..], steps[2..], steps[3..], steps[4..];
    assert r1[1..] == r2 && r2[1..] == r3 && r3[1..] == r4 && r4[1..] == [];
    assert Run(s4, r4) && After(s4, r4) == Do(s4, Applied);
    assert Run(s3, r3) && After(s3, r3) == Do(s4, Applied);
    assert Run(s2, r2) && After(s2, r2) == Do(s4, Applied);
    assert Run(s1, r1) && After(s1, r1) == Do(s4, Applied);
  }
}
