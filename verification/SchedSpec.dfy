/** The scheduler on values: a ready queue with stride cooldowns, the selection loop of a tick, and
    what every tick keeps. */
module SchedSpec {
  import opened Wrappers

  // ---------------------------------------------------------------- threads

  datatype Status = Ready | Running | Blocked | Terminated

  datatype Priority = Low | Background | Normal | High | Ultra | Immediates

  /** `interrupt_frame_t`: what an interrupt saves and restores. */
  datatype InterruptFrame = InterruptFrame(
    r15: nat, r14: nat, r13: nat, r12: nat, r11: nat, r10: nat, r9: nat, r8: nat,
    rbp: nat, rdi: nat, rsi: nat, rdx: nat, rcx: nat, rbx: nat, rax: nat,
    intNo: nat, errCode: nat, rip: nat, cs: nat, rflags: nat, rsp: nat, ss: nat)

  datatype Thread = Thread(status: Status, ring3: bool, priority: Priority, context: InterruptFrame,
                           kernelStack: nat, cooldown: int)

  /** One thread taken from the head of the queue, and whether it got the processor. */
  datatype Visit = Visit(tid: nat, dispatched: bool)

  /** Thread 0 is the kernel's; a thread's number is its place in the table.  `log` is the history of
      head-of-queue visits. */
  datatype State = State(threads: seq<Thread>, queue: seq<nat>, current: Option<nat>, rsp0: nat, log: seq<Visit>)

  const MAX_THREADS := 256
  const KERNEL_STACK_SIZE := 0x2000
  const USER_CODE_SELECTOR := 0x1B
  const USER_DATA_SELECTOR := 0x23

  /** How many visits a thread waits from one dispatch to the next. */
  function Stride(p: Priority): (s: nat)
    ensures s >= 1
  {
    match p
    case Ultra => 2
    case Normal => 4
    case Low => 16
    case Background => 64
    case _ => 1
  }

  /** The cool-down of a thread that has just had its turn: one visit less than it waits from one dispatch
      to the next. */
  predicate Rested(th: Thread) {
    match th.priority
    case Ultra => th.cooldown == 1
    case Normal => th.cooldown == 3
    case Low => th.cooldown == 15
    case Background => th.cooldown == 63
    case High => th.cooldown == 0
    case Immediates => th.cooldown == 0
  }

  // ---------------------------------------------------------------- the queue

  /** `add_to_ready_queue`: not twice, and not a terminated thread. */
  function Add(s: State, t: nat): State
    requires t < |s.threads|
  {
    if s.threads[t].status == Terminated || t in s.queue then s
    else s.(threads := s.threads[t := s.threads[t].(status := Ready)], queue := s.queue + [t])
  }

  /** `remove_from_ready_queue`: the first occurrence, if any. */
  function Without(queue: seq<nat>, t: nat): (q: seq<nat>)
    ensures |q| <= |queue| && forall i | 0 <= i < |q| :: q[i] in queue
  {
    if queue == [] then []
    else if queue[0] == t then queue[1..]
    else [queue[0]] + Without(queue[1..], t)
  }

  // ---------------------------------------------------------------- one tick

  predicate InRange(s: State) {
    && (forall i | 0 <= i < |s.queue| :: s.queue[i] < |s.threads|)
    && (s.current.Some? ==> s.current.value < |s.threads|)
  }

  /** The first half of a tick: the interrupted thread's frame is saved and the thread queued again,
      or dropped if it is blocked or terminated. */
  function Save(s: State, f: InterruptFrame): State
    requires InRange(s)
  {
    if s.current.None? then s
    else
      var c := s.current.value;
      var st := s.threads[c].status;
      var s1 := s.(threads := s.threads[c := s.threads[c].(context := f)]);
      if st == Terminated || st == Blocked then s1.(queue := Without(s1.queue, c), current := None)
      else Add(s1.(threads := s1.threads[c := s1.threads[c].(status := Ready)]), c)
  }

  /** The first ready thread of the table from number i on. */
  function FirstReady(threads: seq<Thread>, i: nat): (r: Option<nat>)
    requires i <= |threads|
    ensures r.Some? ==> i <= r.value < |threads| && threads[r.value].status == Ready
    ensures r.None? ==> forall j | i <= j < |threads| :: threads[j].status != Ready
    decreases |threads| - i
  {
    if i == |threads| then None else if threads[i].status == Ready then Some(i) else FirstReady(threads, i + 1)
  }

  /** What the code falls back on when nothing is queued: a ready thread of the table, or the kernel's. */
  function Fallback(threads: seq<Thread>): (r: Option<nat>)
    ensures r.Some? ==> r.value < |threads|
  {
    if threads == [] then None
    else
      var r := FirstReady(threads, 1);
      if r.Some? then r else if threads[0].status != Terminated then Some(0) else None
  }

  /** The next candidate: from the queue, else the one in hand, else the fall-back. */
  function Pick(s: State, hand: Option<nat>): (r: (State, Option<nat>))
    requires InRange(s) && (hand.Some? ==> hand.value < |s.threads|)
    ensures InRange(r.0) && r.0.threads == s.threads && (r.1.Some? ==> r.1.value < |s.threads|)
  {
    if s.queue != [] then (s.(queue := s.queue[1..]), Some(s.queue[0]))
    else if hand.Some? then (s, hand)
    else (s, Fallback(s.threads))
  }

  datatype Outcome = Again(hand: Option<nat>) | Switched(frame: InterruptFrame) | NoThread

  /** `rflags | 0x200`. */
  function WithInterrupts(rflags: nat): nat { if rflags / 0x200 % 2 == 1 then rflags else rflags + 0x200 }

  /** The frame a dispatch leaves for the return from the interrupt: all of the saved one in ring 0; in
      ring 3 the registers, rip and rsp, with interrupts on and the user selectors. */
  function Resume(th: Thread, f: InterruptFrame): InterruptFrame {
    var c := th.context;
    if !th.ring3 then c
    else c.(intNo := f.intNo, errCode := f.errCode, cs := USER_CODE_SELECTOR, rflags := WithInterrupts(c.rflags), ss := USER_DATA_SELECTOR)
  }

  /** Thread t gets the processor; a ring 3 thread without a kernel stack or stack pointer is
      terminated instead. */
  function Dispatch(s: State, t: nat, f: InterruptFrame): (State, Outcome)
    requires t < |s.threads|
  {
    var th := s.threads[t];
    var cooled := th.(cooldown := Stride(th.priority) - 1, status := Running);
    var s1 := s.(threads := s.threads[t := cooled], current := Some(t), log := s.log + [Visit(t, true)]);
    var dead := s1.(threads := s.threads[t := cooled.(status := Terminated)]);
    if !th.ring3 then (s1, Switched(Resume(th, f)))
    else if th.kernelStack == 0 then (dead, Again(Some(t)))
    else
      var rsp0 := th.kernelStack + KERNEL_STACK_SIZE - 8;
      if th.context.rsp == 0 then (dead.(rsp0 := rsp0), Again(Some(t)))
      else (s1.(rsp0 := rsp0), Switched(Resume(th, f)))
  }

  /** What a turn does with its candidate. */
  function TurnOn(s: State, t: nat, f: InterruptFrame): (r: (State, Outcome))
    requires InRange(s) && t < |s.threads|
    ensures InRange(r.0) && |r.0.threads| == |s.threads|
    ensures r.1.Again? && r.1.hand.Some? ==> r.1.hand.value < |s.threads|
  {
    var th := s.threads[t];
    if th.status == Blocked || th.status == Terminated then
      (s.(queue := Without(s.queue, t)), Again(None))
    else if th.cooldown > 0 then
      var s1 := s.(threads := s.threads[t := th.(cooldown := th.cooldown - 1)], log := s.log + [Visit(t, false)]);
      (Add(s1, t), Again(None))
    else Dispatch(s, t, f)
  }

  /** One turn of the selection loop. */
  function SelectOnce(s: State, hand: Option<nat>, f: InterruptFrame): (r: (State, Outcome))
    requires InRange(s) && (hand.Some? ==> hand.value < |s.threads|)
    ensures InRange(r.0) && |r.0.threads| == |s.threads|
    ensures r.1.Again? && r.1.hand.Some? ==> r.1.hand.value < |s.threads|
  {
    var (s1, next) := Pick(s, hand);
    if next.None? then (s1, NoThread) else TurnOn(s1, next.value, f)
  }

  // ---------------------------------------------------------------- the invariant

  predicate Distinct(q: seq<nat>) { forall i, j | 0 <= i < j < |q| :: q[i] != q[j] }

  /** The queue has no duplicates and holds ready threads. */
  predicate QueueOK(s: State) {
    && InRange(s) && Distinct(s.queue)
    && forall i | 0 <= i < |s.queue| :: s.threads[s.queue[i]].status == Ready
  }

  /** Inside a tick, once the interrupted thread is saved: nothing runs, and the kernel's thread is
      queued. */
  predicate MidOK(s: State) {
    && QueueOK(s) && 0 in s.queue && 0 < |s.threads| && !s.threads[0].ring3
    && forall t | 0 <= t < |s.threads| :: s.threads[t].status != Running
  }

  /** Between steps: one thread is current; it alone may be running, and then it is not queued; if it
      was unblocked before it lost the processor it is ready and queued.  The kernel's thread is
      running or queued. */
  predicate Inv(s: State) {
    && QueueOK(s) && 0 < |s.threads| <= MAX_THREADS && !s.threads[0].ring3 && s.current.Some?
    && (forall t | 0 <= t < |s.threads| :: s.threads[t].status == Running ==> s.current == Some(t))
    && s.threads[s.current.value].status != Terminated
    && (s.threads[s.current.value].status == Ready ==> s.current.value in s.queue)
    && (0 in s.queue || s.threads[0].status == Running)
  }

  lemma SaveMid(s: State, f: InterruptFrame)
    requires Inv(s)
    ensures MidOK(Save(s, f)) && |Save(s, f).threads| == |s.threads|
  {
    var c := s.current.value;
    if s.threads[c].status == Blocked {
      WithoutKeeps(s.queue, c);
    }
  }

  lemma {:induction false} WithoutKeeps(q: seq<nat>, t: nat)
    requires Distinct(q)
    ensures Distinct(Without(q, t)) && t !in Without(q, t)
    ensures forall u | u != t :: u in Without(q, t) <==> u in q
  {
    if q != [] {
      if q[0] == t {
        assert forall u | u in q && u != t :: u in q[1..];
      } else {
        var r := Without(q[1..], t);
        WithoutKeeps(q[1..], t);
        assert q[0] !in r;
        ConsDistinct(q[0], r);
        assert forall u :: u in q <==> u == q[0] || u in q[1..];
      }
    }
  }

  lemma ConsDistinct(t: nat, q: seq<nat>)
    requires Distinct(q) && t !in q
    ensures Distinct([t] + q)
  {
  }

  /** What is left to do before the loop must find a thread. */
  function Work(threads: seq<Thread>, queue: seq<nat>): nat {
    if queue == [] then 0
    else
      (if queue[0] < |threads| && threads[queue[0]].cooldown > 0 then threads[queue[0]].cooldown + 1 else 1)
      + Work(threads, queue[1..])
  }

  lemma {:induction false} WorkSame(threads: seq<Thread>, others: seq<Thread>, queue: seq<nat>)
    requires |threads| == |others|
    requires forall u | u in queue :: u < |threads| && threads[u].cooldown == others[u].cooldown
    ensures Work(threads, queue) == Work(others, queue)
  {
    if queue != [] {
      assert queue[0] in queue;
      WorkSame(threads, others, queue[1..]);
    }
  }

  lemma {:induction false} WorkAdd(threads: seq<Thread>, queue: seq<nat>, t: nat)
    ensures Work(threads, queue + [t]) == Work(threads, queue) + Work(threads, [t])
  {
    if queue != [] {
      assert (queue + [t])[1..] == queue[1..] + [t];
      WorkAdd(threads, queue[1..], t);
    } else {
      assert queue + [t] == [t];
    }
  }

  lemma HeadAndRest(s: State)
    requires MidOK(s)
    ensures s.queue != [] && Distinct(s.queue[1..]) && s.queue[0] !in s.queue[1..] && s.queue[0] < |s.threads|
    ensures s.threads[s.queue[0]].status == Ready
    ensures forall u :: u in s.queue <==> u == s.queue[0] || u in s.queue[1..]
    ensures forall i | 0 <= i < |s.queue[1..]| ::
              s.queue[1..][i] != s.queue[0] && s.queue[1..][i] < |s.threads| && s.threads[s.queue[1..][i]].status == Ready
    ensures InRange(s)
  {
  }

  /** The head of the queue is on cool-down: it goes to the tail, one visit nearer. */
  lemma CoolTurn(s: State, hand: Option<nat>, f: InterruptFrame)
    requires MidOK(s) && (hand.Some? ==> hand.value < |s.threads|) && s.threads[s.queue[0]].cooldown > 0
    ensures var (n, o) := SelectOnce(s, hand, f);
            var t := s.queue[0];
            && o == Again(None) && MidOK(n) && n.current == s.current && n.rsp0 == s.rsp0
            && n.queue == s.queue[1..] + [t] && n.log == s.log + [Visit(t, false)]
            && n.threads == s.threads[t := s.threads[t].(cooldown := s.threads[t].cooldown - 1)]
            && Work(n.threads, n.queue) < Work(s.threads, s.queue)
  {
    hide Work, Dispatch, Fallback, Without;
    HeadAndRest(s);
    var t, rest := s.queue[0], s.queue[1..];
    var (n, o) := SelectOnce(s, hand, f);
    assert n.threads == s.threads[t := s.threads[t].(cooldown := s.threads[t].cooldown - 1)];
    CoolWork(s, t, rest);
  }

  lemma CoolWork(s: State, t: nat, rest: seq<nat>)
    requires t < |s.threads| && s.threads[t].cooldown > 0 && s.queue == [t] + rest && t !in rest
    requires forall u | u in rest :: u < |s.threads|
    ensures Work(s.threads[t := s.threads[t].(cooldown := s.threads[t].cooldown - 1)], rest + [t]) < Work(s.threads, s.queue)
  {
    var ths := s.threads[t := s.threads[t].(cooldown := s.threads[t].cooldown - 1)];
    assert s.queue[1..] == rest;
    WorkSame(s.threads, ths, rest);
    WorkAdd(ths, rest, t);
  }

  /** Whether a dispatch of the thread succeeds. */
  predicate Resumable(th: Thread) { !th.ring3 || (th.kernelStack != 0 && th.context.rsp != 0) }

  /** The head of the queue is due: it runs, or, if it cannot, it is terminated and gone. */
  lemma DueTurn(s: State, hand: Option<nat>, f: InterruptFrame)
    requires MidOK(s) && (hand.Some? ==> hand.value < |s.threads|) && s.threads[s.queue[0]].cooldown <= 0
    ensures var (n, o) := SelectOnce(s, hand, f);
            var t := s.queue[0];
            var th := s.threads[t];
            && |n.threads| == |s.threads| && n.queue == s.queue[1..] && n.log == s.log + [Visit(t, true)]
            && n.threads[t].(status := th.status, cooldown := th.cooldown) == th && Rested(n.threads[t])
            && n.threads[t].cooldown == Stride(th.priority) - 1
            && (forall u | 0 <= u < |s.threads| && u != t :: n.threads[u] == s.threads[u])
            && n.current == Some(t)
            && (if Resumable(th) then
                  && o == Switched(Resume(th, f)) && n.threads[t].status == Running
                  && n.rsp0 == if th.ring3 then th.kernelStack + 0x1FF8 else s.rsp0
                else
                  && o == Again(Some(t)) && n.threads[t].status == Terminated && MidOK(n)
                  && n.rsp0 == (if th.kernelStack == 0 then s.rsp0 else th.kernelStack + 0x1FF8)
                  && Work(n.threads, n.queue) < Work(s.threads, s.queue))
  {
    hide Work, Resume;
    HeadAndRest(s);
    var n := SelectOnce(s, hand, f).0;
    if !Resumable(s.threads[s.queue[0]]) {
      DroppedHead(s, n);
    }
  }

  lemma DroppedHead(s: State, n: State)
    requires MidOK(s) && n.queue == s.queue[1..] && |n.threads| == |s.threads| && InRange(n)
    requires s.queue[0] < |s.threads| && s.threads[s.queue[0]].ring3 && n.threads[s.queue[0]].status == Terminated
    requires forall u | 0 <= u < |s.threads| && u != s.queue[0] :: n.threads[u] == s.threads[u]
    ensures MidOK(n) && Work(n.threads, n.queue) < Work(s.threads, s.queue)
  {
    HeadAndRest(s);
    WorkSame(s.threads, n.threads, s.queue[1..]);
  }

  /** A turn of the loop takes the head of the queue, never the fall-back.  It ends the loop, or keeps
      the kernel's thread queued and leaves less to do. */
  lemma TurnKeeps(s: State, hand: Option<nat>, f: InterruptFrame)
    requires MidOK(s) && (hand.Some? ==> hand.value < |s.threads|)
    ensures s.queue != []
    ensures var (n, o) := SelectOnce(s, hand, f);
            && !o.NoThread?
            && (o.Again? ==> MidOK(n) && Work(n.threads, n.queue) < Work(s.threads, s.queue))
  {
    HeadAndRest(s);
    hide SelectOnce, MidOK, Work;
    if s.threads[s.queue[0]].cooldown > 0 {
      CoolTurn(s, hand, f);
    } else {
      DueTurn(s, hand, f);
    }
  }

  /** Were the kernel's thread blocked with nothing queued and no other thread ready, the loop would
      take it from the table, drop it and come round unchanged: the fall-back cannot end then. */
  lemma BlockedKernelLoops(s: State, f: InterruptFrame)
    requires InRange(s) && s.queue == [] && s.threads != [] && s.threads[0].status == Blocked
    requires forall t | 1 <= t < |s.threads| :: s.threads[t].status != Ready
    ensures SelectOnce(s, None, f) == (s, Again(None))
  {
    assert FirstReady(s.threads, 1).None?;
  }
}
