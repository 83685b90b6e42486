/** The proportional share: how often a thread is visited and dispatched, over whole runs. */
module SchedShare {
  import opened Arithmetic
  import opened Wrappers
  import opened SchedSpec
  import opened SchedRun

  // ---------------------------------------------------------------- counting

  function Visits(log: seq<Visit>, t: nat): nat {
    if log == [] then 0
    else Visits(log[..|log| - 1], t) + (if log[|log| - 1].tid == t then 1 else 0)
  }

  function Dispatches(log: seq<Visit>, t: nat): nat {
    if log == [] then 0
    else Dispatches(log[..|log| - 1], t) + (if log[|log| - 1] == Visit(t, true) then 1 else 0)
  }

  lemma CountsAppend(log: seq<Visit>, v: Visit, t: nat)
    ensures Visits(log + [v], t) == Visits(log, t) + (if v.tid == t then 1 else 0)
    ensures Dispatches(log + [v], t) == Dispatches(log, t) + (if v == Visit(t, true) then 1 else 0)
  {
    assert (log + [v])[..|log|] == log;
  }

  // ---------------------------------------------------------------- dispatches follow visits

  /** The cool-down says how far the visits are behind a whole number of strides. */
  predicate ShareOK(s: State, t: nat) {
    && t < |s.threads| && 0 <= s.threads[t].cooldown < Stride(s.threads[t].priority)
    && Dispatches(s.log, t) * Stride(s.threads[t].priority) - Visits(s.log, t) == s.threads[t].cooldown
  }

  /** Then the thread has been dispatched once for every `stride` visits, rounded up. */
  lemma ShareIsCeiling(s: State, t: nat)
    requires ShareOK(s, t)
    ensures var k := Stride(s.threads[t].priority); Dispatches(s.log, t) == (Visits(s.log, t) + k - 1) / k
  {
    var k, d, v := Stride(s.threads[t].priority), Dispatches(s.log, t), Visits(s.log, t);
    DivMod(v + k - 1, k, d, k - 1 - s.threads[t].cooldown);
  }

  lemma NextDispatch(d: nat, k: nat)
    ensures (d + 1) * k == d * k + k
  {
  }

  lemma TurnShares(s: State, hand: Option<nat>, f: InterruptFrame, t: nat)
    requires MidOK(s) && (hand.Some? ==> hand.value < |s.threads|) && ShareOK(s, t)
    ensures ShareOK(SelectOnce(s, hand, f).0, t)
  {
    hide SelectOnce, MidOK, Stride, Resume, Work, Resumable, Visits, Dispatches;
    HeadAndRest(s);
    var h := s.queue[0];
    NextDispatch(Dispatches(s.log, t), Stride(s.threads[t].priority));
    if s.threads[h].cooldown > 0 {
      CoolTurn(s, hand, f);
      CountsAppend(s.log, Visit(h, false), t);
    } else {
      DueTurn(s, hand, f);
      CountsAppend(s.log, Visit(h, true), t);
    }
  }

  lemma {:induction false} SelectShares(s: State, hand: Option<nat>, f: InterruptFrame, t: nat)
    requires MidOK(s) && (hand.Some? ==> hand.value < |s.threads|) && ShareOK(s, t)
    ensures ShareOK(Select(s, hand, f).0, t)
    decreases Work(s.threads, s.queue)
  {
    hide SelectOnce, MidOK, ShareOK, Work;
    HeadAndRest(s);
    TurnKeeps(s, hand, f);
    TurnShares(s, hand, f, t);
    var (n, o) := SelectOnce(s, hand, f);
    if o.Again? {
      SelectShares(n, o.hand, f, t);
    }
  }

  lemma SaveShares(s: State, f: InterruptFrame, t: nat)
    requires Inv(s) && ShareOK(s, t)
    ensures ShareOK(Save(s, f), t)
  {
    hide Visits, Dispatches, Stride;
    var n := Save(s, f);
    assert n.threads[t].cooldown == s.threads[t].cooldown && n.threads[t].priority == s.threads[t].priority;
  }

  lemma StepShares(s: State, e: Event, t: nat)
    requires Inv(s) && Legal(s, e) && ShareOK(s, t)
    ensures ShareOK(Apply(s, e), t)
  {
    hide Select, Visits, Dispatches, Stride, MidOK;
    if e.Timer? {
      SaveMid(s, e.frame);
      SaveShares(s, e.frame, t);
      SelectShares(Save(s, e.frame), None, e.frame, t);
    }
  }

  /** Over every run: a thread whose cool-down started at 0 has been dispatched exactly once for every
      `stride` visits, rounded up. */
  lemma {:induction false} RunShares(s: State, events: seq<Event>, t: nat)
    requires Inv(s) && LegalRun(s, events) && ShareOK(s, t)
    ensures ShareOK(Run(s, events), t)
    ensures var n := Run(s, events);
            var k := Stride(n.threads[t].priority);
            Dispatches(n.log, t) == (Visits(n.log, t) + k - 1) / k
    ensures var n := Run(s, events);
            var d, v := Dispatches(n.log, t), Visits(n.log, t);
            match n.threads[t].priority
            case Ultra => d == (v + 1) / 2
            case Normal => d == (v + 3) / 4
            case Low => d == (v + 15) / 16
            case Background => d == (v + 63) / 64
            case High => d == v
            case Immediates => d == v
    decreases |events|
  {
    if events != [] {
      hide Apply, Inv, ShareOK;
      StepKeeps(s, events[0]);
      StepShares(s, events[0], t);
      RunShares(Apply(s, events[0]), events[1..], t);
    } else {
      ShareIsCeiling(s, t);
    }
  }

  // ---------------------------------------------------------------- visits go round

  /** The k-th place of an endless repetition of q. */
  function Turn(q: seq<nat>, k: nat): nat
    requires q != []
  {
    q[k % |q|]
  }

  lemma TurnWraps(q: seq<nat>, k: nat)
    requires q != []
    ensures Turn(q, k + |q|) == Turn(q, k)
  {
    ModWraps(k, |q|);
  }

  lemma ModWraps(k: nat, n: nat)
    requires n > 0
    ensures (k + n) % n == k % n
  {
    DivMod(k + n, n, k / n + 1, k % n);
  }

  /** The queue is q turned by b places. */
  predicate Turned(queue: seq<nat>, q: seq<nat>, b: nat)
    requires q != []
  {
    |queue| == |q| && forall i | 0 <= i < |q| :: queue[i] == Turn(q, b + i)
  }

  /** From entry `from` on, the log visits q round and round. */
  predicate Round(log: seq<Visit>, from: nat, q: seq<nat>)
    requires q != []
  {
    from <= |log| && forall j | from <= j < |log| :: log[j].tid == Turn(q, j - from)
  }

  lemma TurnedNext(queue: seq<nat>, q: seq<nat>, b: nat)
    requires q != [] && Turned(queue, q, b)
    ensures queue[0] == Turn(q, b) && Turned(queue[1..] + [queue[0]], q, b + 1)
  {
    hide Turn;
    TurnWraps(q, b);
    var next := queue[1..] + [queue[0]];
    forall i | 0 <= i < |q| ensures next[i] == Turn(q, b + 1 + i) {
      if i < |q| - 1 {
        assert next[i] == queue[i + 1];
      }
    }
  }

  /** All queued threads can be resumed. */
  predicate AllResumable(s: State) {
    forall i | 0 <= i < |s.queue| :: s.queue[i] < |s.threads| && Resumable(s.threads[s.queue[i]])
  }

  /** The queue of a tick, the interrupted thread at its tail. */
  function Ring(s: State): seq<nat> { if s.current.Some? then s.queue + [s.current.value] else s.queue }

  lemma {:induction false} SelectRounds(s: State, hand: Option<nat>, f: InterruptFrame, q: seq<nat>, from: nat)
    requires MidOK(s) && (hand.Some? ==> hand.value < |s.threads|) && AllResumable(s) && q != []
    requires Round(s.log, from, q) && Turned(s.queue, q, |s.log| - from)
    ensures var n := Select(s, hand, f).0;
            && Round(n.log, from, q) && Turned(Ring(n), q, |n.log| - from) && |n.log| > |s.log|
            && AllResumable(n)
    decreases Work(s.threads, s.queue)
  {
    hide SelectOnce, MidOK, Work, Resume, Turn, Turned;
    HeadAndRest(s);
    TurnKeeps(s, hand, f);
    TurnedNext(s.queue, q, |s.log| - from);
    var (n, o) := SelectOnce(s, hand, f);
    if s.threads[s.queue[0]].cooldown > 0 {
      CoolTurn(s, hand, f);
      StillResumable(s, n);
      SelectRounds(n, None, f, q, from);
    } else {
      DueTurn(s, hand, f);
      assert Resumable(s.threads[s.queue[0]]);
      StillResumable(s, n);
    }
  }

  lemma StillResumable(s: State, n: State)
    requires AllResumable(s) && s.queue != [] && |n.threads| == |s.threads|
    requires n.queue == s.queue[1..] || n.queue == s.queue[1..] + [s.queue[0]]
    requires forall u | 0 <= u < |s.threads| :: Resumable(s.threads[u]) ==> Resumable(n.threads[u])
    ensures AllResumable(n)
  {
    hide Resumable;
    forall i | 0 <= i < |n.queue| ensures n.queue[i] < |n.threads| && Resumable(n.threads[n.queue[i]]) {
      assert n.queue[i] == if i < |s.queue| - 1 then s.queue[i + 1] else s.queue[0];
    }
  }

  // ---------------------------------------------------------------- runs of ticks

  /** Every thread in the round is always runnable: the current one runs, the queued ones can be
      resumed. */
  predicate Rounding(s: State) {
    && Inv(s) && s.threads[s.current.value].status == Running && AllResumable(s)
  }

  /** The interrupted thread can be resumed from the frame it was interrupted with. */
  predicate Whole(s: State, f: InterruptFrame) {
    s.current.Some? && s.current.value < |s.threads| && Resumable(s.threads[s.current.value].(context := f))
  }

  lemma TickRounds(s: State, f: InterruptFrame, q: seq<nat>, from: nat)
    requires Rounding(s) && Whole(s, f) && q != []
    requires Round(s.log, from, q) && Turned(Ring(s), q, |s.log| - from)
    ensures var n := Tick(s, f).0;
            Rounding(n) && Round(n.log, from, q) && Turned(Ring(n), q, |n.log| - from) && |n.log| > |s.log|
  {
    hide Save, Select, MidOK, Inv, Resumable, Round, Turned, Ring, Whole, AllResumable, Chose;
    RoundingInv(s);
    SaveMid(s, f);
    SaveRing(s, f);
    TickRuns(s, f);
    SelectRounds(Save(s, f), None, f, q, from);
  }

  lemma TickRuns(s: State, f: InterruptFrame)
    requires Inv(s)
    ensures var n := Tick(s, f).0;
            Inv(n) && n.current.Some? && n.current.value < |n.threads| && n.threads[n.current.value].status == Running
  {
    hide Save, Tick, Inv;
    TickKeeps(s, f);
  }

  lemma SaveRing(s: State, f: InterruptFrame)
    requires Rounding(s) && Whole(s, f)
    ensures var n := Save(s, f);
            n.queue == Ring(s) && AllResumable(n) && n.log == s.log
  {
    hide Resumable;
    var c := s.current.value;
    var n := Save(s, f);
    assert n.queue == s.queue + [c];
    SameResumable(s.threads[c].(context := f), n.threads[c]);
    forall i | 0 <= i < |n.queue| ensures n.queue[i] < |n.threads| && Resumable(n.threads[n.queue[i]]) {
      assert i < |s.queue| ==> n.queue[i] == s.queue[i] && n.threads[s.queue[i]] == s.threads[s.queue[i]];
    }
  }

  lemma SameResumable(a: Thread, b: Thread)
    requires b == a.(status := b.status)
    ensures Resumable(b) == Resumable(a)
  {
  }

  /** Nothing happens but ticks, each with a frame to resume from. */
  predicate OnlyTicks(s: State, events: seq<Event>)
    requires Inv(s) && LegalRun(s, events)
    decreases |events|
  {
    events == [] ||
    (events[0].Timer? && Whole(s, events[0].frame)
     && (StepKeeps(s, events[0]); OnlyTicks(Apply(s, events[0]), events[1..])))
  }

  lemma RoundingInv(s: State)
    requires Rounding(s)
    ensures Inv(s) && InRange(s)
  {
  }

  lemma FirstTick(s: State, events: seq<Event>)
    requires Rounding(s) && LegalRun(s, events) && OnlyTicks(s, events) && events != []
    ensures var e, n := events[0], Apply(s, events[0]);
            && e.Timer? && Whole(s, e.frame) && n == Tick(s, e.frame).0
            && Inv(n) && LegalRun(n, events[1..]) && OnlyTicks(n, events[1..]) && Run(s, events) == Run(n, events[1..])
  {
    hide Apply, Tick, Inv, Whole, AllResumable;
    StepKeeps(s, events[0]);
    ApplyTimer(s, events[0]);
  }

  lemma {:induction false} RunRounds(s: State, events: seq<Event>, q: seq<nat>, from: nat)
    requires Rounding(s) && LegalRun(s, events) && OnlyTicks(s, events) && q != []
    requires Round(s.log, from, q) && Turned(Ring(s), q, |s.log| - from)
    ensures var n := Run(s, events); Rounding(n) && Round(n.log, from, q) && |n.log| >= |s.log| + |events|
    decreases |events|
  {
    hide Apply, Tick, Rounding, Inv, Round, Turned, Ring, Whole, AllResumable, LegalRun, OnlyTicks;
    RoundingInv(s);
    if events != [] {
      FirstTick(s, events);
      TickRounds(s, events[0].frame, q, from);
      RunRounds(Apply(s, events[0]), events[1..], q, from);
    }
  }

  /** How often t comes up in the first k places of the endless repetition of q. */
  function Occurs(q: seq<nat>, t: nat, k: nat): nat
    requires q != []
  {
    if k == 0 then 0 else Occurs(q, t, k - 1) + (if Turn(q, k - 1) == t then 1 else 0)
  }

  lemma DivStep(k: nat, n: nat)
    requires n > 0
    ensures if k % n == n - 1 then (k + 1) / n == k / n + 1 && (k + 1) % n == 0
            else (k + 1) / n == k / n && (k + 1) % n == k % n + 1
  {
    if k % n == n - 1 {
      DivMod(k + 1, n, k / n + 1, 0);
    } else {
      DivMod(k + 1, n, k / n, k % n + 1);
    }
  }

  lemma {:induction false} OccursEvenly(q: seq<nat>, i: nat, k: nat)
    requires Distinct(q) && i < |q|
    ensures Occurs(q, q[i], k) == k / |q| + (if i < k % |q| then 1 else 0)
  {
    if k > 0 {
      OccursEvenly(q, i, k - 1);
      DivStep(k - 1, |q|);
    } else {
      DivMod(0, |q|, 0, 0);
    }
  }

  lemma {:induction false} VisitsInRound(log: seq<Visit>, from: nat, q: seq<nat>, t: nat)
    requires q != [] && Round(log, from, q)
    ensures Visits(log, t) == Visits(log[..from], t) + Occurs(q, t, |log| - from)
    decreases |log|
  {
    hide Turn;
    if |log| > from {
      var rest := log[..|log| - 1];
      assert rest[..from] == log[..from];
      VisitsInRound(rest, from, q, t);
    } else {
      assert log[..from] == log;
    }
  }

  /** Among always-runnable threads, under ticks alone, head-of-queue visits go strictly round the
      queue, so that the visits of any two threads never differ by more than 1. */
  lemma VisitsDifferByOne(s: State, events: seq<Event>, i: nat, j: nat)
    requires Rounding(s) && LegalRun(s, events) && OnlyTicks(s, events)
    requires i < |Ring(s)| && j < |Ring(s)|
    ensures var n := Run(s, events);
            && Round(n.log, |s.log|, Ring(s)) && |n.log| >= |s.log| + |events| && n.log[..|s.log|] == s.log
            && -1 <= (Visits(n.log, Ring(s)[i]) - Visits(s.log, Ring(s)[i]))
                     - (Visits(n.log, Ring(s)[j]) - Visits(s.log, Ring(s)[j])) <= 1
  {
    hide Round, Run, Ring, Turned, Rounding, Occurs, Visits, LegalRun, OnlyTicks, Inv;
    RoundingInv(s);
    var q, n := Ring(s), Run(s, events);
    TurnedZero(q);
    RoundZero(s, q);
    RunRounds(s, events, q, |s.log|);
    RunLog(s, events);
    RingDistinct(s);
    VisitsInRound(n.log, |s.log|, q, q[i]);
    VisitsInRound(n.log, |s.log|, q, q[j]);
    OccursEvenly(q, i, |n.log| - |s.log|);
    OccursEvenly(q, j, |n.log| - |s.log|);
  }

  lemma RoundZero(s: State, q: seq<nat>)
    requires q != []
    ensures Round(s.log, |s.log|, q)
  {
  }

  lemma TurnedZero(q: seq<nat>)
    requires q != []
    ensures Turned(q, q, 0)
  {
    forall i | 0 <= i < |q| ensures q[i] == Turn(q, i) {
      DivMod(i, |q|, 0, i);
    }
  }

  lemma RingDistinct(s: State)
    requires Rounding(s)
    ensures Distinct(Ring(s))
  {
    AppendDistinct(s.queue, s.current.value);
  }

  // ---------------------------------------------------------------- the log only grows

  lemma {:induction false} SelectLog(s: State, hand: Option<nat>, f: InterruptFrame)
    requires MidOK(s) && (hand.Some? ==> hand.value < |s.threads|)
    ensures var n := Select(s, hand, f).0; |n.log| >= |s.log| && n.log[..|s.log|] == s.log
    decreases Work(s.threads, s.queue)
  {
    hide SelectOnce, MidOK, Work, Resume, Resumable;
    HeadAndRest(s);
    TurnKeeps(s, hand, f);
    var (n, o) := SelectOnce(s, hand, f);
    if s.threads[s.queue[0]].cooldown > 0 {
      CoolTurn(s, hand, f);
    } else {
      DueTurn(s, hand, f);
    }
    if o.Again? {
      SelectLog(n, o.hand, f);
      assert n.log[..|s.log|] == s.log;
    }
  }

  lemma StepLog(s: State, e: Event)
    requires Inv(s) && Legal(s, e)
    ensures var n := Apply(s, e); |n.log| >= |s.log| && n.log[..|s.log|] == s.log
  {
    hide Select, MidOK;
    if e.Timer? {
      SaveMid(s, e.frame);
      SelectLog(Save(s, e.frame), None, e.frame);
    }
  }

  lemma {:induction false} RunLog(s: State, events: seq<Event>)
    requires Inv(s) && LegalRun(s, events)
    ensures var n := Run(s, events); |n.log| >= |s.log| && n.log[..|s.log|] == s.log
    decreases |events|
  {
    if events != [] {
      hide Apply, Inv, Legal;
      StepKeeps(s, events[0]);
      StepLog(s, events[0]);
      RunLog(Apply(s, events[0]), events[1..]);
    }
  }
}
