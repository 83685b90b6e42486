/** Whole runs of the scheduler: the invariant, contexts that come back, bounded waiting and the
    proportional share. */
module SchedRun {
  import opened Wrappers
  import opened SchedSpec

  // ---------------------------------------------------------------- the steps

  /** The selection loop; its measure is the work left in the queue. */
  function Select(s: State, hand: Option<nat>, f: InterruptFrame): (State, InterruptFrame)
    requires MidOK(s) && (hand.Some? ==> hand.value < |s.threads|)
    decreases Work(s.threads, s.queue)
  {
    TurnKeeps(s, hand, f);
    var (n, o) := SelectOnce(s, hand, f);
    match o
    case Again(h) => Select(n, h, f)
    case Switched(g) => (n, g)
    case NoThread => (n, f)
  }

  /** `scheduler_tick`: the new state and the frame the interrupt returns with. */
  function Tick(s: State, f: InterruptFrame): (State, InterruptFrame)
    requires Inv(s)
  {
    SaveMid(s, f);
    Select(Save(s, f), None, f)
  }

  const KERNEL_CODE_SELECTOR := 0x08
  const KERNEL_DATA_SELECTOR := 0x10
  const THREAD_STACK_SIZE := 0x4000

  /** The context `thread_create` sets up; other registers are what the memory held. */
  function NewContext(raw: InterruptFrame, ring3: bool, entry: nat, arg: nat, stackBase: nat): InterruptFrame {
    raw.(rsp := stackBase + THREAD_STACK_SIZE - 8, rip := entry, rdi := arg, rflags := 0x202,
         cs := if ring3 then USER_CODE_SELECTOR else KERNEL_CODE_SELECTOR,
         ss := if ring3 then USER_DATA_SELECTOR else KERNEL_DATA_SELECTOR)
  }

  /** What happens to the scheduler.  `raw` and `cooldown` are what the new thread's memory held. */
  datatype Event =
    | Timer(frame: InterruptFrame)
    | Execute(t: nat)
    | Block
    | Unblock(t: nat)
    | Create(ring3: bool, priority: Priority, entry: nat, arg: nat, stackBase: nat, kernelStack: nat,
             raw: InterruptFrame, cooldown: int)

  /** `thread_create`: refused if the table is full or a stack could not be had. */
  function CreateThread(s: State, e: Event): State
    requires e.Create?
  {
    if |s.threads| >= MAX_THREADS || e.stackBase == 0 || (e.ring3 && e.kernelStack == 0) then s
    else
      var context := NewContext(e.raw, e.ring3, e.entry, e.arg, e.stackBase);
      s.(threads := s.threads + [Thread(Ready, e.ring3, e.priority, context, if e.ring3 then e.kernelStack else 0, e.cooldown)])
  }

  function ExecuteThread(s: State, t: nat): State {
    if t >= |s.threads| || s.threads[t].status != Ready then s else s.(queue := s.queue + [t])
  }

  function BlockCurrent(s: State): State
    requires InRange(s)
  {
    if s.current.None? || s.current.value == 0 then s
    else
      var c := s.current.value;
      s.(threads := s.threads[c := s.threads[c].(status := Blocked)], queue := Without(s.queue, c))
  }

  function UnblockThread(s: State, t: nat): State {
    if t >= |s.threads| || s.threads[t].status != Blocked then s
    else s.(threads := s.threads[t := s.threads[t].(status := Ready)], queue := s.queue + [t])
  }

  function Apply(s: State, e: Event): State
    requires Inv(s)
  {
    match e
    case Timer(f) => Tick(s, f).0
    case Execute(t) => ExecuteThread(s, t)
    case Block => BlockCurrent(s)
    case Unblock(t) => UnblockThread(s, t)
    case Create(_, _, _, _, _, _, _, _) => CreateThread(s, e)
  }

  /** The caller's part: `thread_execute` does not look whether the thread is queued already. */
  predicate Legal(s: State, e: Event) { e.Execute? ==> e.t !in s.queue }

  /** The state `threading_init` leaves; the kernel thread's context and cool-down are not set. */
  function Initial(raw: InterruptFrame, kernelStack: nat, cooldown: int): State {
    State([Thread(Running, false, Immediates, raw, kernelStack, cooldown)], [], Some(0), 0, [])
  }

  lemma InitialInv(raw: InterruptFrame, kernelStack: nat, cooldown: int)
    ensures var s := Initial(raw, kernelStack, cooldown);
            && Inv(s) && |s.threads| == 1 && s.current == Some(0) && s.queue == [] && s.rsp0 == 0
            && s.threads[0].status == Running && s.threads[0].priority == Immediates && s.threads[0].context == raw
            && s.threads[0].cooldown == cooldown
  {
  }

  // ---------------------------------------------------------------- the interrupted thread

  lemma {:induction false} NotInQueue(q: seq<nat>, t: nat)
    requires t !in q
    ensures Without(q, t) == q
  {
    if q != [] {
      assert q[0] in q;
      assert t !in q[1..];
      NotInQueue(q[1..], t);
    }
  }

  /** q is the queue with thread t left out; the others keep their order. */
  predicate LeftOut(queue: seq<nat>, q: seq<nat>, t: nat) {
    || (t !in queue && q == queue)
    || (exists i | 0 <= i < |queue| :: queue[i] == t && t !in queue[..i] && q == queue[..i] + queue[i + 1..])
  }

  lemma {:induction false} WithoutAt(queue: seq<nat>, t: nat) returns (i: nat)
    requires t in queue
    ensures i < |queue| && queue[i] == t && t !in queue[..i] && Without(queue, t) == queue[..i] + queue[i + 1..]
  {
    if queue[0] == t {
      i := 0;
    } else {
      var rest := queue[1..];
      assert t in rest;
      var k := WithoutAt(rest, t);
      i := k + 1;
      ConsCut(queue, k);
    }
  }

  lemma ConsCut(queue: seq<nat>, k: nat)
    requires k + 1 < |queue|
    ensures queue[k + 1] == queue[1..][k] && queue[..k + 1] == [queue[0]] + queue[1..][..k]
    ensures [queue[0]] + (queue[1..][..k] + queue[1..][k + 1..]) == queue[..k + 1] + queue[k + 2..]
  {
    assert queue[k + 2..] == queue[1..][k + 1..];
  }

  lemma WithoutLeavesOut(queue: seq<nat>, t: nat)
    ensures LeftOut(queue, Without(queue, t), t)
  {
    if t in queue {
      var _ := WithoutAt(queue, t);
    } else {
      NotInQueue(queue, t);
    }
  }

  /** The frame of the interrupted thread is saved.  The thread is ready, and queued at the tail unless it was
      queued already, or, being blocked or terminated, left out; nothing else changed. */
  predicate Saved(s: State, m: State, f: InterruptFrame)
    requires InRange(s) && s.current.Some?
  {
    var c := s.current.value;
    && |m.threads| == |s.threads| && m.rsp0 == s.rsp0 && m.log == s.log
    && (forall u | 0 <= u < |s.threads| && u != c :: m.threads[u] == s.threads[u])
    && m.threads[c].(status := s.threads[c].status) == s.threads[c].(context := f)
    && if s.threads[c].status == Blocked || s.threads[c].status == Terminated then
         m.threads[c].status == s.threads[c].status && m.current == None && LeftOut(s.queue, m.queue, c)
       else
         && m.threads[c].status == Ready && m.current == s.current
         && m.queue == if c in s.queue then s.queue else s.queue + [c]
  }

  lemma SaveEffect(s: State, f: InterruptFrame)
    requires InRange(s) && s.current.Some?
    ensures Saved(s, Save(s, f), f)
  {
    hide LeftOut, Without;
    WithoutLeavesOut(s.queue, s.current.value);
  }

  /** A thread that is neither queued nor terminated becomes ready, its number the last of the queue; any
      other stays as it is. */
  lemma AddEffect(s: State, t: nat)
    requires t < |s.threads|
    ensures var n := Add(s, t);
            if s.threads[t].status == Terminated || t in s.queue then n == s
            else
              && n.queue == s.queue + [t] && n.current == s.current && n.rsp0 == s.rsp0 && n.log == s.log
              && |n.threads| == |s.threads| && n.threads[t].status == Ready
              && n.threads[t].(status := s.threads[t].status) == s.threads[t]
              && forall u | 0 <= u < |s.threads| && u != t :: n.threads[u] == s.threads[u]
  {
  }

  /** A candidate that is blocked or terminated is left out of the queue and the loop goes on with nothing in
      hand; with nothing queued it goes on with what it has in hand. */
  lemma OffTurn(s: State, t: nat, f: InterruptFrame)
    requires InRange(s) && t < |s.threads|
    ensures s.threads[t].status == Blocked || s.threads[t].status == Terminated ==>
              var (n, o) := TurnOn(s, t, f);
              o == Again(None) && LeftOut(s.queue, n.queue, t) && n == s.(queue := n.queue)
    ensures s.queue == [] ==> Pick(s, Some(t)) == (s, Some(t))
  {
    hide LeftOut, Without;
    WithoutLeavesOut(s.queue, t);
  }

  /** With nothing queued and nothing in hand, the loop takes the first ready thread of the table behind the
      kernel's, else the kernel's unless it is terminated. */
  lemma FallbackEffect(s: State)
    requires InRange(s) && s.queue == [] && s.threads != []
    ensures var (n, r) := Pick(s, None);
            && n == s
            && (r.Some? && r.value > 0 ==>
                  s.threads[r.value].status == Ready && forall u | 0 < u < r.value :: s.threads[u].status != Ready)
            && (!(r.Some? && r.value > 0) ==> forall u | 0 < u < |s.threads| :: s.threads[u].status != Ready)
            && (r.None? ==> s.threads[0].status == Terminated)
            && (r == Some(0) ==> s.threads[0].status != Terminated)
  {
    FirstIsLowest(s.threads, 1);
  }

  lemma {:induction false} FirstIsLowest(threads: seq<Thread>, i: nat)
    requires i <= |threads|
    ensures var r := FirstReady(threads, i);
            r.Some? ==> forall u | i <= u < r.value :: threads[u].status != Ready
    decreases |threads| - i
  {
    if i < |threads| && threads[i].status != Ready {
      FirstIsLowest(threads, i + 1);
    }
  }

  // ---------------------------------------------------------------- the loop as a whole

  /** Between a and b no thread changed its context, ring, priority or kernel stack. */
  predicate SameIdentity(a: seq<Thread>, b: seq<Thread>) {
    && |a| == |b|
    && forall u | 0 <= u < |a| ::
         a[u].context == b[u].context && a[u].ring3 == b[u].ring3 && a[u].priority == b[u].priority
         && a[u].kernelStack == b[u].kernelStack
  }

  /** What the loop did to a thread it did not choose: nothing but count its cool-down, unless the thread was
      due and could not be resumed. */
  predicate Passed(a: Thread, b: Thread) {
    if b.status == a.status then b.cooldown <= a.cooldown
    else a.status == Ready && !Resumable(a) && b.status == Terminated
  }

  /** The queue has lost thread `gone` and those that were terminated, and no other. */
  ghost predicate QueueLost(s: State, n: State, gone: Option<nat>) {
    forall u: nat :: u in n.queue <==>
      u in s.queue && Some(u) != gone && u < |n.threads| && n.threads[u].status != Terminated
  }

  /** The thread the loop chose: it was queued, it alone runs now, and the frame is the one its saved
      context asks for. */
  ghost predicate Chose(s: State, n: State, t: nat, g: InterruptFrame, f: InterruptFrame) {
    && QueueOK(n) && SameIdentity(s.threads, n.threads) && t < |n.threads| && t in s.queue
    && n.current == Some(t) && n.threads[t].status == Running && Resumable(n.threads[t])
    && (forall u | 0 <= u < |n.threads| :: n.threads[u].status == Running ==> u == t)
    && (0 in n.queue || t == 0) && !n.threads[0].ring3
    && (forall u | 0 <= u < |n.threads| && u != t :: Passed(s.threads[u], n.threads[u]))
    && QueueLost(s, n, Some(t))
    && g == Resume(n.threads[t], f) && Rested(n.threads[t])
    && (n.threads[t].ring3 ==> n.rsp0 == n.threads[t].kernelStack + 0x1FF8)
  }

  /** The turn that ends the loop. */
  lemma LastTurn(s: State, hand: Option<nat>, f: InterruptFrame)
    requires MidOK(s) && (hand.Some? ==> hand.value < |s.threads|) && SelectOnce(s, hand, f).1.Switched?
    ensures var (n, o) := SelectOnce(s, hand, f);
            n.current.Some? && Chose(s, n, n.current.value, o.frame, f)
  {
    hide SelectOnce;
    HeadAndRest(s);
    if s.threads[s.queue[0]].cooldown > 0 {
      CoolTurn(s, hand, f);
    } else {
      DueTurn(s, hand, f);
    }
  }

  /** A turn that does not leaves the threads who they are, and queues no one new. */
  lemma AgainTurn(s: State, hand: Option<nat>, f: InterruptFrame)
    requires MidOK(s) && (hand.Some? ==> hand.value < |s.threads|) && SelectOnce(s, hand, f).1.Again?
    ensures var n := SelectOnce(s, hand, f).0;
            && SameIdentity(s.threads, n.threads) && QueueLost(s, n, None)
            && forall u | 0 <= u < |n.threads| :: Passed(s.threads[u], n.threads[u])
  {
    hide SelectOnce, Resume, MidOK;
    HeadAndRest(s);
    if s.threads[s.queue[0]].cooldown > 0 {
      CoolTurn(s, hand, f);
    } else {
      DueTurn(s, hand, f);
    }
  }

  lemma ChoseThrough(s: State, m: State, n: State, t: nat, g: InterruptFrame, f: InterruptFrame)
    requires SameIdentity(s.threads, m.threads) && QueueLost(s, m, None) && Chose(m, n, t, g, f)
    requires forall u | 0 <= u < |m.threads| :: Passed(s.threads[u], m.threads[u])
    ensures Chose(s, n, t, g, f)
  {
    hide Resume, Rested, QueueOK;
    forall u | 0 <= u < |n.threads| && u != t ensures Passed(s.threads[u], n.threads[u]) {
      assert Resumable(m.threads[u]) == Resumable(s.threads[u]);
      assert Passed(m.threads[u], n.threads[u]);
    }
    forall u: nat ensures u in n.queue <==> u in s.queue && u != t && u < |n.threads| && n.threads[u].status != Terminated {
      if u < |n.threads| && u != t {
        assert Passed(m.threads[u], n.threads[u]);
      }
    }
  }

  lemma {:induction false} SelectChooses(s: State, hand: Option<nat>, f: InterruptFrame)
    requires MidOK(s) && (hand.Some? ==> hand.value < |s.threads|)
    ensures var (n, g) := Select(s, hand, f);
            n.current.Some? && Chose(s, n, n.current.value, g, f)
    decreases Work(s.threads, s.queue)
  {
    hide SelectOnce, Work, Resume, MidOK, QueueOK, Resumable, Chose, SameIdentity, QueueLost, Passed;
    HeadAndRest(s);
    TurnKeeps(s, hand, f);
    var (n, o) := SelectOnce(s, hand, f);
    if o.Again? {
      AgainTurn(s, hand, f);
      SelectChooses(n, o.hand, f);
      var (m, g) := Select(n, o.hand, f);
      ChoseThrough(s, n, m, m.current.value, g, f);
    } else {
      LastTurn(s, hand, f);
    }
  }

  // ---------------------------------------------------------------- the invariant over runs

  /** A tick saves the interrupted thread, chooses some queued one or that, and keeps the invariant. */
  lemma TickKeeps(s: State, f: InterruptFrame)
    requires Inv(s)
    ensures var (n, g) := Tick(s, f);
            && Inv(n) && |n.threads| == |s.threads|
            && Saved(s, Save(s, f), f) && Chose(Save(s, f), n, n.current.value, g, f)
  {
    hide Select, Save, Resume, Resumable, Saved, Passed, QueueLost, Rested;
    SaveMid(s, f);
    SaveEffect(s, f);
    SelectChooses(Save(s, f), None, f);
  }

  lemma AppendDistinct(q: seq<nat>, t: nat)
    requires Distinct(q) && t !in q
    ensures Distinct(q + [t])
  {
  }

  lemma StepKeeps(s: State, e: Event)
    requires Inv(s) && Legal(s, e)
    ensures Inv(Apply(s, e))
  {
    hide Inv, Tick, Chose, ExecuteThread, BlockCurrent, UnblockThread, CreateThread;
    match e
    case Timer(f) => TickKeeps(s, f);
    case Execute(t) => ExecuteKeeps(s, t);
    case Block => BlockKeeps(s);
    case Unblock(t) => UnblockKeeps(s, t);
    case Create(_, _, _, _, _, _, _, _) => CreateKeeps(s, e);
  }

  lemma ExecuteKeeps(s: State, t: nat)
    requires Inv(s) && t !in s.queue
    ensures Inv(ExecuteThread(s, t))
  {
    AppendDistinct(s.queue, t);
  }

  lemma BlockKeeps(s: State)
    requires Inv(s)
    ensures Inv(BlockCurrent(s))
  {
    WithoutKeeps(s.queue, s.current.value);
  }

  lemma UnblockKeeps(s: State, t: nat)
    requires Inv(s)
    ensures Inv(UnblockThread(s, t))
  {
    if t < |s.threads| && s.threads[t].status == Blocked {
      AppendDistinct(s.queue, t);
    }
  }

  lemma CreateKeeps(s: State, e: Event)
    requires Inv(s) && e.Create?
    ensures Inv(CreateThread(s, e))
  {
  }

  // ---------------------------------------------------------------- what each call does

  /** From s to n every thread but t, which is there in both, is as it was, and so are the processor and the
      history. */
  predicate OnlyThread(s: State, n: State, t: nat) {
    && t < |s.threads| == |n.threads| && n.current == s.current && n.rsp0 == s.rsp0 && n.log == s.log
    && forall u | 0 <= u < |s.threads| && u != t :: n.threads[u] == s.threads[u]
  }

  /** Thread t, which was blocked, is ready and stands at the tail of the queue. */
  predicate Woken(s: State, n: State, t: nat) {
    && OnlyThread(s, n, t) && s.threads[t].status == Blocked
    && n.threads[t].status == Ready && n.threads[t].(status := Blocked) == s.threads[t]
    && n.queue == s.queue + [t]
  }

  /** Thread t, which was ready, stands at the tail of the queue. */
  predicate Queued(s: State, n: State, t: nat) {
    OnlyThread(s, n, t) && s.threads[t].status == Ready && n.threads[t] == s.threads[t] && n.queue == s.queue + [t]
  }

  /** The current thread t is blocked and not queued. */
  predicate Stopped(s: State, n: State, t: nat) {
    && OnlyThread(s, n, t) && s.current == Some(t) && t != 0
    && n.threads[t].status == Blocked && n.threads[t].(status := s.threads[t].status) == s.threads[t]
    && LeftOut(s.queue, n.queue, t) && t !in n.queue
  }

  /** There is one thread more, ready to start at `entry` with `arg` on a stack of its own; nothing else
      changed, and it is not queued yet. */
  predicate Created(s: State, n: State, ring3: bool, priority: Priority, entry: nat, arg: nat, stackBase: nat,
                    kernelStack: nat, raw: InterruptFrame, cooldown: int)
  {
    && |s.threads| < 256 && stackBase != 0 && (ring3 ==> kernelStack != 0)
    && |n.threads| == |s.threads| + 1 && n == s.(threads := n.threads) && n.threads[..|s.threads|] == s.threads
    && var th := n.threads[|s.threads|];
       var c := th.context;
       && th.status == Ready && th.ring3 == ring3 && th.priority == priority && th.cooldown == cooldown
       && th.kernelStack == (if ring3 then kernelStack else 0)
       && c.rip == entry && c.rdi == arg && c.rsp == stackBase + 0x3FF8 && c.rflags == 0x202
       && c.cs == (if ring3 then 0x1B else 0x08) && c.ss == (if ring3 then 0x23 else 0x10)
       && c.(rip := raw.rip, rdi := raw.rdi, rsp := raw.rsp, rflags := raw.rflags, cs := raw.cs, ss := raw.ss) == raw
  }

  /** Unblocking a blocked thread wakes it; for any other number nothing happens. */
  lemma UnblockEffect(s: State, t: nat)
    requires Inv(s)
    ensures if t < |s.threads| && s.threads[t].status == Blocked then Woken(s, Apply(s, Unblock(t)), t)
            else Apply(s, Unblock(t)) == s
  {
  }

  lemma ExecuteEffect(s: State, t: nat)
    requires Inv(s)
    ensures if t < |s.threads| && s.threads[t].status == Ready then Queued(s, Apply(s, Execute(t)), t)
            else Apply(s, Execute(t)) == s
  {
  }

  /** Blocking stops the current thread, unless that is the kernel's. */
  lemma BlockEffect(s: State)
    requires Inv(s)
    ensures if s.current.value != 0 then Stopped(s, Apply(s, Block), s.current.value) else Apply(s, Block) == s
  {
    hide LeftOut, Without, Distinct;
    WithoutKeeps(s.queue, s.current.value);
    WithoutLeavesOut(s.queue, s.current.value);
  }

  /** A thread is created unless the table is full or a stack is missing. */
  lemma CreateEffect(s: State, ring3: bool, priority: Priority, entry: nat, arg: nat, stackBase: nat, kernelStack: nat,
      raw: InterruptFrame, cooldown: int)
    requires Inv(s)
    ensures var n := Apply(s, Create(ring3, priority, entry, arg, stackBase, kernelStack, raw, cooldown));
            if |s.threads| == 256 || stackBase == 0 || (ring3 && kernelStack == 0) then n == s
            else Created(s, n, ring3, priority, entry, arg, stackBase, kernelStack, raw, cooldown)
  {
    hide QueueOK;
  }

  /** The events of a run, each legal where it happens. */
  predicate LegalRun(s: State, events: seq<Event>)
    requires Inv(s)
    decreases |events|
  {
    events == [] ||
    (Legal(s, events[0]) && (StepKeeps(s, events[0]); LegalRun(Apply(s, events[0]), events[1..])))
  }

  function Run(s: State, events: seq<Event>): State
    requires Inv(s) && LegalRun(s, events)
    decreases |events|
  {
    if events == [] then s
    else
      StepKeeps(s, events[0]);
      Run(Apply(s, events[0]), events[1..])
  }

  /** Over every legal run from any good state the invariant holds. */
  lemma {:induction false} RunKeeps(s: State, events: seq<Event>)
    requires Inv(s) && LegalRun(s, events)
    ensures Inv(Run(s, events))
    decreases |events|
  {
    if events != [] {
      hide Apply, Inv;
      StepKeeps(s, events[0]);
      RunKeeps(Apply(s, events[0]), events[1..]);
    }
  }

  // ---------------------------------------------------------------- contexts come back

  function Contexts(threads: seq<Thread>): (r: seq<InterruptFrame>)
    ensures |r| == |threads| && forall i | 0 <= i < |r| :: r[i] == threads[i].context
  {
    seq(|threads|, i requires 0 <= i < |threads| => threads[i].context)
  }

  /** Kept beside the machine: for every thread the frame with which it last lost the processor, or
      the context it was created with. */
  function Ledger(s: State, events: seq<Event>, saved: seq<InterruptFrame>): seq<InterruptFrame>
    requires Inv(s) && LegalRun(s, events) && |saved| == |s.threads|
    decreases |events|
  {
    if events == [] then saved
    else
      StepKeeps(s, events[0]);
      LedgerSize(s, events[0], saved);
      Ledger(Apply(s, events[0]), events[1..], Noted(s, events[0], saved))
  }

  function Noted(s: State, e: Event, saved: seq<InterruptFrame>): seq<InterruptFrame>
    requires Inv(s) && |saved| == |s.threads|
  {
    match e
    case Timer(f) => saved[s.current.value := f]
    case Create(ring3, _, entry, arg, stackBase, kernelStack, raw, _) =>
      if |s.threads| < MAX_THREADS && stackBase != 0 && (ring3 ==> kernelStack != 0)
      then saved + [NewContext(raw, ring3, entry, arg, stackBase)] else saved
    case _ => saved
  }

  lemma LedgerSize(s: State, e: Event, saved: seq<InterruptFrame>)
    requires Inv(s) && Legal(s, e) && |saved| == |s.threads|
    ensures |Noted(s, e, saved)| == |Apply(s, e).threads|
  {
    hide Tick, Chose;
    if e.Timer? {
      TickKeeps(s, e.frame);
    }
  }

  lemma TickContexts(s: State, f: InterruptFrame)
    requires Inv(s)
    ensures Contexts(Tick(s, f).0.threads) == Contexts(s.threads)[s.current.value := f]
  {
    hide Tick, Contexts;
    TickKeeps(s, f);
    var n := Tick(s, f).0;
    assert SameIdentity(Save(s, f).threads, n.threads);
    assert Contexts(Save(s, f).threads) == Contexts(s.threads)[s.current.value := f] by { SaveContexts(s, f); }
    assert Contexts(n.threads) == Contexts(Save(s, f).threads);
  }

  lemma SaveContexts(s: State, f: InterruptFrame)
    requires Inv(s)
    ensures Contexts(Save(s, f).threads) == Contexts(s.threads)[s.current.value := f]
  {
    hide Contexts;
    var c := s.current.value;
    var n := Save(s, f);
    assert forall i | 0 <= i < |s.threads| :: n.threads[i].context == if i == c then f else s.threads[i].context;
  }

  lemma StepContexts(s: State, e: Event)
    requires Inv(s) && Legal(s, e)
    ensures Contexts(Apply(s, e).threads) == Noted(s, e, Contexts(s.threads))
  {
    hide Tick, NewContext;
    if e.Timer? {
      TickContexts(s, e.frame);
    } else {
      assert forall i | 0 <= i < |s.threads| :: Apply(s, e).threads[i].context == s.threads[i].context;
    }
  }

  /** The contexts in the machine are the ones in the ledger, over every run. */
  lemma {:induction false} RunContexts(s: State, events: seq<Event>)
    requires Inv(s) && LegalRun(s, events)
    ensures Contexts(Run(s, events).threads) == Ledger(s, events, Contexts(s.threads))
    decreases |events|
  {
    if events != [] {
      hide Apply, Inv, Contexts, Noted;
      StepKeeps(s, events[0]);
      StepContexts(s, events[0]);
      LedgerSize(s, events[0], Contexts(s.threads));
      RunContexts(Apply(s, events[0]), events[1..]);
    }
  }

  /** The fifteen general registers, the instruction pointer and the stack pointer agree. */
  predicate SameRegisters(a: InterruptFrame, b: InterruptFrame) {
    && a.rax == b.rax && a.rbx == b.rbx && a.rcx == b.rcx && a.rdx == b.rdx && a.rsi == b.rsi && a.rdi == b.rdi
    && a.rbp == b.rbp && a.r8 == b.r8 && a.r9 == b.r9 && a.r10 == b.r10 && a.r11 == b.r11 && a.r12 == b.r12
    && a.r13 == b.r13 && a.r14 == b.r14 && a.r15 == b.r15 && a.rip == b.rip && a.rsp == b.rsp
  }

  /** Bit 9, the interrupt flag, is set; all other bits are as they were. */
  predicate SameFlagsBut9(a: nat, b: nat) { a / 0x200 % 2 == 1 && a % 0x200 == b % 0x200 && a / 0x400 == b / 0x400 }

  lemma InterruptsOn(rflags: nat)
    ensures SameFlagsBut9(WithInterrupts(rflags), rflags)
  {
  }

  /** At the end of every run a timer interrupt resumes some thread t with exactly what was on the
      processor when t last lost it, or with its creation context: the whole frame for a kernel
      thread; for a user thread all registers, with the interrupt flag set, the user selectors, and
      its own kernel stack in rsp0. */
  lemma ContextRoundTrip(s: State, events: seq<Event>, f: InterruptFrame)
    requires Inv(s) && LegalRun(s, events)
    ensures Inv(Run(s, events))
    ensures var m := Run(s, events);
            var (n, g) := Tick(m, f);
            var saved := Ledger(s, events, Contexts(s.threads));
            && n.current.Some? && n.current.value < |n.threads| && |saved| == |m.threads| == |n.threads|
            && m.current.Some? && m.current.value < |saved|
            && var t := n.current.value;
               var x := saved[m.current.value := f][t];
               if !n.threads[t].ring3 then g == x
               else
                 && SameRegisters(g, x) && SameFlagsBut9(g.rflags, x.rflags)
                 && g.cs == 0x1B && g.ss == 0x23 && g.intNo == f.intNo && g.errCode == f.errCode
                 && n.threads[t].kernelStack != 0 && n.rsp0 == n.threads[t].kernelStack + 0x1FF8
  {
    hide Tick, Ledger, Run, LegalRun, Save;
    RunKeeps(s, events);
    RunContexts(s, events);
    var m := Run(s, events);
    TickKeeps(m, f);
    TickContexts(m, f);
    var n := Tick(m, f).0;
    assert n.threads[n.current.value].context == Contexts(n.threads)[n.current.value];
    InterruptsOn(n.threads[n.current.value].context.rflags);
  }

  // ---------------------------------------------------------------- bounded waiting

  /** What is left of a cool-down. */
  function Wait(th: Thread): nat { if th.cooldown > 0 then th.cooldown else 0 }

  /** The bound: cool-down times queue bound, plus position. */
  function Rank(c: nat, n: nat, p: nat): nat { c * n + p }

  lemma RankDrops(c: nat, n: nat, p: nat)
    requires c > 0 && p < n
    ensures Rank(c - 1, n, p) < Rank(c, n, 0)
  {
    assert Rank(c, n, 0) == (c - 1) * n + n;
  }

  /** Thread t waits at queue position p. */
  predicate WaitsAt(s: State, t: nat, p: nat) { t < |s.threads| && p < |s.queue| && s.queue[p] == t }

  /** The rest of a tick brings a waiting thread nearer, or onto the processor. */
  lemma {:induction false} SelectNearer(s: State, hand: Option<nat>, f: InterruptFrame, t: nat, p: nat,
      n: nat) returns (p': nat)
    requires MidOK(s) && (hand.Some? ==> hand.value < |s.threads|)
    requires WaitsAt(s, t, p) && Resumable(s.threads[t]) && |s.queue| <= n
    ensures var m := Select(s, hand, f).0;
            || m.current == Some(t)
            || (WaitsAt(m, t, p') && Rank(Wait(m.threads[t]), n, p') < Rank(Wait(s.threads[t]), n, p))
    decreases Work(s.threads, s.queue)
  {
    hide SelectOnce, Work, MidOK, Resume, Rank;
    HeadAndRest(s);
    TurnKeeps(s, hand, f);
    var m := SelectOnce(s, hand, f).0;
    p' := if p > 0 then p - 1 else |s.queue| - 1;
    if s.threads[s.queue[0]].cooldown > 0 {
      CoolTurn(s, hand, f);
      if p == 0 {
        RankDrops(Wait(s.threads[t]), n, p');
      } else {
        assert s.queue[1..][p'] == t;
        RankStep(Wait(s.threads[t]), n, p);
      }
      p' := SelectNearer(m, None, f, t, p', n);
    } else {
      DueTurn(s, hand, f);
      if p > 0 {
        assert s.queue[1..][p'] == t;
        RankStep(Wait(s.threads[t]), n, p);
        if !Resumable(s.threads[s.queue[0]]) {
          p' := SelectNearer(m, Some(s.queue[0]), f, t, p', n);
        }
      }
    }
  }

  lemma RankStep(c: nat, n: nat, p: nat)
    requires p > 0
    ensures Rank(c, n, p - 1) < Rank(c, n, p)
  {
  }

  /** The event gives thread t the processor. */
  predicate Runs(s: State, e: Event, t: nat)
    requires Inv(s)
  {
    e.Timer? && Apply(s, e).current == Some(t)
  }

  /** What the bound asks of one event: t does not block (it could only by being the interrupted thread
      still), the queue stays within n, and t has a context to resume. */
  predicate Fair(s: State, e: Event, t: nat, n: nat)
    requires Inv(s) && t < |s.threads|
  {
    && (e.Block? ==> s.current != Some(t))
    && (e.Timer? ==>
          var m := Save(s, e.frame);
          |m.queue| <= n && |m.threads| == |s.threads| && Resumable(m.threads[t]))
  }

  lemma {:induction false} WithoutPosition(q: seq<nat>, u: nat, p: nat) returns (p': nat)
    requires p < |q| && q[p] != u
    ensures p' <= p && p' < |Without(q, u)| && Without(q, u)[p'] == q[p]
  {
    if q[0] == u {
      p' := p - 1;
    } else if p == 0 {
      p' := 0;
    } else {
      p' := WithoutPosition(q[1..], u, p - 1);
      p' := p' + 1;
    }
  }

  lemma RankLess(c: nat, n: nat, p': nat, p: nat)
    requires p' <= p
    ensures Rank(c, n, p') <= Rank(c, n, p)
  {
  }

  /** A timer tick brings t nearer or runs it. */
  lemma TickNearer(s: State, f: InterruptFrame, t: nat, p: nat, n: nat) returns (p': nat)
    requires Inv(s) && WaitsAt(s, t, p) && Fair(s, Timer(f), t, n)
    ensures Runs(s, Timer(f), t)
         || (var m := Tick(s, f).0; WaitsAt(m, t, p') && Rank(Wait(m.threads[t]), n, p') < Rank(Wait(s.threads[t]), n, p))
  {
    SaveMid(s, f);
    SaveQueue(s, f, t, p);
    hide Save, Select, MidOK, Inv, Rank, Resumable;
    p' := SelectNearer(Save(s, f), None, f, t, p, n);
  }

  lemma SaveQueue(s: State, f: InterruptFrame, t: nat, p: nat)
    requires Inv(s) && WaitsAt(s, t, p)
    ensures WaitsAt(Save(s, f), t, p) && Wait(Save(s, f).threads[t]) == Wait(s.threads[t])
  {
    var c := s.current.value;
    if s.threads[c].status == Blocked {
      NotInQueue(s.queue, c);
    }
  }

  /** Any other event leaves t no further from the head. */
  lemma OtherNearer(s: State, e: Event, t: nat, p: nat, n: nat) returns (p': nat)
    requires Inv(s) && Legal(s, e) && WaitsAt(s, t, p) && Fair(s, e, t, n) && !e.Timer?
    ensures var m := Apply(s, e); WaitsAt(m, t, p') && Rank(Wait(m.threads[t]), n, p') <= Rank(Wait(s.threads[t]), n, p)
  {
    hide Rank;
    p' := p;
    if e.Block? && s.current.value != 0 {
      p' := WithoutPosition(s.queue, s.current.value, p);
    }
    RankLess(Wait(s.threads[t]), n, p', p);
  }

  function Ticks(events: seq<Event>): nat {
    if events == [] then 0 else (if events[0].Timer? then 1 else 0) + Ticks(events[1..])
  }

  /** Some event of the run gives t the processor, with every event up to then fair to t. */
  predicate RunsBy(s: State, events: seq<Event>, t: nat)
    requires Inv(s) && LegalRun(s, events)
    decreases |events|
  {
    events != [] && (Runs(s, events[0], t) || (StepKeeps(s, events[0]); RunsBy(Apply(s, events[0]), events[1..], t)))
  }

  predicate FairUntilRun(s: State, events: seq<Event>, t: nat, n: nat)
    requires Inv(s) && LegalRun(s, events)
    decreases |events|
  {
    events == [] ||
    (t < |s.threads| && Fair(s, events[0], t, n)
     && (Runs(s, events[0], t) || (StepKeeps(s, events[0]); FairUntilRun(Apply(s, events[0]), events[1..], t, n))))
  }

  /** Bounded waiting: with at most n threads queued, a thread at queue position p with cool-down c is
      on the processor within c * n + p + 1 ticks, whatever the other threads' priorities, and whoever
      joins, blocks or is created on the way. */
  lemma BoundedWaiting(s: State, events: seq<Event>, t: nat, p: nat, n: nat)
    requires Inv(s) && LegalRun(s, events) && WaitsAt(s, t, p) && FairUntilRun(s, events, t, n)
    requires Ticks(events) >= Wait(s.threads[t]) * n + p + 1
    ensures RunsBy(s, events, t)
    decreases |events|
  {
    BoundedWaitingByRank(s, events, t, p, n);
  }

  lemma {:induction false} BoundedWaitingByRank(s: State, events: seq<Event>, t: nat, p: nat, n: nat)
    requires Inv(s) && LegalRun(s, events) && WaitsAt(s, t, p) && FairUntilRun(s, events, t, n)
    requires Ticks(events) > Rank(Wait(s.threads[t]), n, p)
    ensures RunsBy(s, events, t)
    decreases |events|
  {
    hide Apply, Tick, Inv, Rank, Wait, Fair, Legal;
    if events != [] && !Runs(s, events[0], t) {
      var e, m := events[0], Apply(s, events[0]);
      StepKeeps(s, e);
      if e.Timer? {
        ApplyTimer(s, e);
        var p' := TickNearer(s, e.frame, t, p, n);
        BoundedWaitingByRank(m, events[1..], t, p', n);
      } else {
        var p' := OtherNearer(s, e, t, p, n);
        BoundedWaitingByRank(m, events[1..], t, p', n);
      }
    }
  }

  lemma ApplyTimer(s: State, e: Event)
    requires Inv(s) && e.Timer?
    ensures Apply(s, e) == Tick(s, e.frame).0 && e == Timer(e.frame)
  {
  }

  /** A woken thread runs within c * n + |queue| + 1 ticks. */
  lemma WokenRuns(s: State, m: State, events: seq<Event>, t: nat, n: nat)
    requires Inv(s) && t < |s.threads| && s.threads[t].status == Blocked && m == Apply(s, Unblock(t)) && Inv(m)
    requires LegalRun(m, events) && FairUntilRun(m, events, t, n)
    requires Ticks(events) >= Wait(s.threads[t]) * n + |s.queue| + 1
    ensures RunsBy(m, events, t)
  {
    hide Apply, Inv, LegalRun, FairUntilRun, RunsBy;
    UnblockEffect(s, t);
    BoundedWaiting(m, events, t, |s.queue|, n);
  }

  /** So does one just executed. */
  lemma ExecutedRuns(s: State, m: State, events: seq<Event>, t: nat, n: nat)
    requires Inv(s) && t < |s.threads| && s.threads[t].status == Ready && t !in s.queue && m == Apply(s, Execute(t)) && Inv(m)
    requires LegalRun(m, events) && FairUntilRun(m, events, t, n)
    requires Ticks(events) >= Wait(s.threads[t]) * n + |s.queue| + 1
    ensures RunsBy(m, events, t)
  {
    hide Apply, Inv, LegalRun, FairUntilRun, RunsBy;
    ExecuteEffect(s, t);
    BoundedWaiting(m, events, t, |s.queue|, n);
  }
}
