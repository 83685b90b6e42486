/** The scheduler as the kernel keeps it: linked thread control blocks, proved to do what SchedSpec and
    SchedRun say. */
module Scheduler {
  import opened Wrappers
  import opened SchedSpec
  import opened SchedRun

  /** `thread_t`. */
  class Tcb {
    const tid: nat
    const ring3: bool
    const priority: Priority
    const kernelStack: nat
    var status: Status
    var context: InterruptFrame
    var cooldown: int
    var next: Tcb?

    constructor (tid: nat, ring3: bool, priority: Priority, kernelStack: nat, status: Status,
                 context: InterruptFrame, cooldown: int)
      ensures this.tid == tid && this.ring3 == ring3 && this.priority == priority && this.kernelStack == kernelStack
      ensures this.status == status && this.context == context && this.cooldown == cooldown && next == null
    {
      this.tid, this.ring3, this.priority, this.kernelStack := tid, ring3, priority, kernelStack;
      this.status, this.context, this.cooldown, next := status, context, cooldown, null;
    }
  }

  ghost function ThreadOf(t: Tcb): Thread
    reads t`status, t`context, t`cooldown
  {
    Thread(t.status, t.ring3, t.priority, t.context, t.kernelStack, t.cooldown)
  }

  ghost function Threads(ts: seq<Tcb>): (r: seq<Thread>)
    reads ts`status, ts`context, ts`cooldown
    ensures |r| == |ts| && forall i | 0 <= i < |r| :: r[i] == ThreadOf(ts[i])
  {
    if ts == [] then [] else [ThreadOf(ts[0])] + Threads(ts[1..])
  }

  ghost function Tids(ts: seq<Tcb>): (r: seq<nat>)
    ensures |r| == |ts| && forall i | 0 <= i < |r| :: r[i] == ts[i].tid
  {
    if ts == [] then [] else [ts[0].tid] + Tids(ts[1..])
  }

  /** What follows node i. */
  predicate NextOf(nodes: seq<Tcb>, i: nat, next: Tcb?) {
    if i + 1 < |nodes| then next == nodes[i + 1] else next == null
  }

  ghost predicate Chained(nodes: seq<Tcb>, head: Tcb?)
    reads nodes`next
  {
    && head == (if nodes == [] then null else nodes[0])
    && (forall i | 0 <= i < |nodes| :: NextOf(nodes, i, nodes[i].next))
    && (forall i, j | 0 <= i < j < |nodes| :: nodes[i] != nodes[j])
  }

  /** A thread of the table. */
  predicate Known(all: seq<Tcb>, t: Tcb) { t.tid < |all| && all[t.tid] == t }

  /** Threads that are not queued have no successor. */
  ghost predicate Loose(all: seq<Tcb>, queue: seq<Tcb>)
    reads all`next
  {
    forall i | 0 <= i < |all| && all[i] !in queue :: all[i].next == null
  }

  /** The queue without a thread. */
  ghost function Removed(q: seq<Tcb>, t: Tcb): (r: seq<Tcb>)
    ensures forall i | 0 <= i < |r| :: r[i] in q
  {
    if q == [] then [] else if q[0] == t then q[1..] else [q[0]] + Removed(q[1..], t)
  }

  lemma {:induction false} RemovedAt(q: seq<Tcb>, i: nat)
    requires i < |q| && forall j | 0 <= j < i :: q[j] != q[i]
    ensures Removed(q, q[i]) == q[..i] + q[i + 1..]
  {
    if i > 0 {
      assert q[1..][i - 1] == q[i];
      RemovedAt(q[1..], i - 1);
    }
  }

  lemma {:induction false} RemovedNone(q: seq<Tcb>, t: Tcb)
    requires t !in q
    ensures Removed(q, t) == q
  {
    if q != [] {
      RemovedNone(q[1..], t);
    }
  }

  lemma {:induction false} RemovedTids(all: seq<Tcb>, q: seq<Tcb>, t: Tcb)
    requires Known(all, t) && forall i | 0 <= i < |q| :: Known(all, q[i])
    ensures Tids(Removed(q, t)) == Without(Tids(q), t.tid)
    ensures t.tid in Tids(q) <==> t in q
  {
    if q != [] {
      RemovedTids(all, q[1..], t);
      assert Known(all, q[0]);
      assert Tids(q)[1..] == Tids(q[1..]);
      assert t in q <==> t == q[0] || t in q[1..];
      assert t.tid in Tids(q) <==> t.tid == Tids(q)[0] || t.tid in Tids(q)[1..];
    }
  }

  class ThreadScheduler {
    const table: array<Tcb?>
    var count: nat
    var nextTid: nat
    var current: Tcb?
    var readyQueue: Tcb?
    var rsp0: nat
    ghost var all: seq<Tcb>
    ghost var queue: seq<Tcb>
    ghost var log: seq<Visit>

    ghost predicate TableOK()
      reads `all, `count, `nextTid, table
    {
      && table.Length == MAX_THREADS && |all| == count == nextTid <= MAX_THREADS
      && (forall i | 0 <= i < MAX_THREADS :: table[i] == if i < count then all[i] else null)
      && (forall i | 0 <= i < |all| :: all[i].tid == i)
    }

    ghost predicate Wf()
      reads `all, `count, `nextTid, `queue, `readyQueue, `current, table, all`next, queue`next
    {
      && TableOK() && Chained(queue, readyQueue) && Loose(all, queue)
      && (forall i | 0 <= i < |queue| :: Known(all, queue[i]))
      && (current != null ==> Known(all, current))
    }

    ghost function View(): (s: State)
      requires Wf()
      reads this, table, all, queue
      ensures InRange(s)
    {
      State(Threads(all), Tids(queue), if current == null then None else Some(current.tid), rsp0, log)
    }

    /** Is the thread queued?  The check of `add_to_ready_queue`. */
    method IsQueued(t: Tcb) returns (r: bool)
      requires Wf()
      ensures r <==> t in queue
    {
      var check := readyQueue;
      ghost var i := 0;
      while check != null
        invariant i <= |queue| && check == (if i < |queue| then queue[i] else null)
        invariant t !in queue[..i]
        decreases |queue| - i
      {
        if check == t {
          return true;
        }
        check, i := check.next, i + 1;
      }
      assert queue[..i] == queue;
      return false;
    }

    /** The walk to the end of a queue that is not empty. */
    method Last() returns (last: Tcb)
      requires Chained(queue, readyQueue) && queue != []
      ensures last == queue[|queue| - 1]
    {
      last := readyQueue;
      ghost var i := 0;
      while last.next != null
        invariant i < |queue| && last == queue[i]
        decreases |queue| - i
      {
        last, i := last.next, i + 1;
      }
    }

    /** Links a thread behind the last one. */
    method Link(t: Tcb)
      requires Chained(queue, readyQueue) && t !in queue
      modifies `readyQueue, `queue, t`next, queue`next
      ensures Chained(queue, readyQueue) && queue == old(queue) + [t]
    {
      t.next := null;
      ghost var before := queue;
      if readyQueue == null {
        readyQueue := t;
      } else {
        var last := Last();
        last.next := t;
      }
      queue := queue + [t];
      forall i | 0 <= i < |queue| ensures NextOf(queue, i, queue[i].next) {
        assert i < |before| ==> queue[i] == before[i] && NextOf(before, i, old(before[i].next));
      }
    }

    /** The same, with the rest of the scheduler in view. */
    method Append(t: Tcb)
      requires Wf() && Known(all, t) && t !in queue
      modifies `readyQueue, `queue, t`next, queue`next
      ensures Wf() && View() == old(View()).(queue := old(View()).queue + [t.tid])
      ensures queue == old(queue) + [t]
    {
      hide Chained, Threads, Tids;
      Link(t);
      assert Threads(all) == old(Threads(all));
      assert Tids(queue) == old(Tids(queue)) + [t.tid];
    }

    /** Writes to one thread's fields. */
    method SetStatus(t: Tcb, status: Status)
      requires Wf() && Known(all, t)
      modifies t`status
      ensures Wf() && View() == old(View()).(threads := old(View()).threads[t.tid := old(ThreadOf(t)).(status := status)])
    {
      hide Threads, Tids, Chained, Loose;
      t.status := status;
      assert Threads(all) == old(Threads(all))[t.tid := old(ThreadOf(t)).(status := status)];
    }

    method SetContext(t: Tcb, context: InterruptFrame)
      requires Wf() && Known(all, t)
      modifies t`context
      ensures Wf() && View() == old(View()).(threads := old(View()).threads[t.tid := old(ThreadOf(t)).(context := context)])
    {
      hide Threads, Tids, Chained, Loose;
      t.context := context;
      assert Threads(all) == old(Threads(all))[t.tid := old(ThreadOf(t)).(context := context)];
    }

    method SetCooldown(t: Tcb, cooldown: int)
      requires Wf() && Known(all, t)
      modifies t`cooldown
      ensures Wf() && View() == old(View()).(threads := old(View()).threads[t.tid := old(ThreadOf(t)).(cooldown := cooldown)])
    {
      hide Threads, Tids, Chained, Loose;
      t.cooldown := cooldown;
      assert Threads(all) == old(Threads(all))[t.tid := old(ThreadOf(t)).(cooldown := cooldown)];
    }

    /** `add_to_ready_queue`. */
    method AddToReadyQueue(t: Tcb)
      requires Wf() && Known(all, t)
      modifies `readyQueue, `queue, t`next, t`status, queue`next
      ensures Wf() && View() == Add(old(View()), t.tid) && (forall u | u in queue :: u == t || u in old(queue))
    {
      hide Chained, Threads, Tids, Loose, TableOK, Without;
      if t.status == Terminated {
        return;
      }
      var queued := IsQueued(t);
      RemovedTids(all, queue, t);
      if queued {
        return;
      }
      SetStatus(t, Ready);
      Append(t);
    }

    /** Unlinks the head. */
    method Unhook() returns (t: Tcb)
      requires Chained(queue, readyQueue) && queue != []
      modifies `readyQueue, `queue, queue`next
      ensures Chained(queue, readyQueue) && t == old(queue)[0] && queue == old(queue)[1..] && t.next == null
    {
      t := readyQueue;
      readyQueue := t.next;
      t.next := null;
      ghost var before := queue;
      queue := queue[1..];
      assert NextOf(before, 0, old(before[0].next));
      forall i | 0 <= i < |queue| ensures NextOf(queue, i, queue[i].next) {
        assert queue[i] == before[i + 1] && NextOf(before, i + 1, old(before[i + 1].next));
      }
    }

    /** Takes the head off the queue. */
    method PopHead() returns (t: Tcb)
      requires Wf() && queue != []
      modifies `readyQueue, `queue, queue`next
      ensures Wf() && t == old(queue)[0] && queue == old(queue)[1..]
      ensures View() == old(View()).(queue := old(View()).queue[1..])
    {
      hide Threads, Tids, Chained;
      t := Unhook();
      assert Threads(all) == old(Threads(all));
      assert Tids(queue) == old(Tids(queue))[1..];
      assert Loose(all, queue) by {
        forall i | 0 <= i < |all| && all[i] !in queue ensures all[i].next == null {
          assert all[i] in old(queue) ==> all[i] == t;
        }
      }
    }

    /** Unlinks a thread that is not the head, if it is there. */
    method UnlinkInner(target: Tcb)
      requires Chained(queue, readyQueue) && queue != [] && queue[0] != target
      modifies `queue, queue`next
      ensures Chained(queue, readyQueue) && queue == Removed(old(queue), target)
      ensures target in old(queue) ==> target.next == null
    {
      var cur := readyQueue;
      ghost var before := queue;
      ghost var i := 0;
      while cur.next != null
        invariant i < |queue| && cur == queue[i] && target !in queue[..i + 1]
        invariant queue == before && Chained(queue, readyQueue)
        decreases |queue| - i
      {
        assert NextOf(queue, i, cur.next);
        if cur.next == target {
          cur.next := target.next;
          target.next := null;
          queue := queue[..i + 1] + queue[i + 2..];
          RemovedAt(before, i + 1);
          Relinked(before, queue, i + 1);
          return;
        }
        cur, i := cur.next, i + 1;
      }
      assert NextOf(queue, i, cur.next);
      assert queue[..i + 1] == queue;
      RemovedNone(queue, target);
    }

    /** `remove_from_ready_queue`. */
    method RemoveFromReadyQueue(target: Tcb)
      requires Wf() && Known(all, target)
      modifies `readyQueue, `queue, queue`next
      ensures Wf() && View() == old(View()).(queue := Without(old(View()).queue, target.tid))
      ensures forall u | u in queue :: u in old(queue)
    {
      hide Threads, Tids, Chained;
      RemovedTids(all, queue, target);
      HeadOf(queue, readyQueue);
      if readyQueue == null {
        return;
      }
      if readyQueue == target {
        var _ := PopHead();
        return;
      }
      UnlinkInner(target);
      assert Threads(all) == old(Threads(all));
      RemovedKeeps(old(queue), target);
    }

    /** The last resort of a tick: a ready thread of the table, or the kernel's. */
    method FromTable() returns (next: Tcb?)
      requires Wf()
      ensures next != null ==> Known(all, next)
      ensures OptTid(next) == Fallback(View().threads)
    {
      hide Threads, Tids, Chained;
      var i := 1;
      while i < MAX_THREADS
        invariant 1 <= i <= MAX_THREADS
        invariant |all| > 0 ==> FirstReady(Threads(all), 1) == FirstReady(Threads(all), if i < |all| then i else |all|)
      {
        var t := table[i];
        if t != null && t.status == Ready {
          return t;
        }
        i := i + 1;
      }
      var kernel := table[0];
      if kernel != null && kernel.status != Terminated {
        return kernel;
      }
      return null;
    }

    /** The next candidate of the loop. */
    method PickThread(hand: Tcb?) returns (next: Tcb?)
      requires Wf() && (hand != null ==> Known(all, hand))
      modifies `readyQueue, `queue, queue`next
      ensures Wf() && (View(), OptTid(next)) == Pick(old(View()), OptTid(hand)) && (next != null ==> Known(all, next))
      ensures forall u | u in queue :: u in old(queue)
    {
      hide Threads, Tids, Chained, Loose, TableOK, Fallback;
      next := hand;
      HeadOf(queue, readyQueue);
      if readyQueue != null {
        next := PopHead();
      }
      if next == null {
        next := FromTable();
      }
    }

    method MakeCurrent(t: Tcb)
      requires Wf() && Known(all, t)
      modifies `current, `log, t`cooldown, t`status
      ensures Wf() && ThreadOf(t) == old(ThreadOf(t)).(cooldown := Stride(t.priority) - 1, status := Running)
      ensures View() == old(View()).(threads := old(View()).threads[t.tid := ThreadOf(t)], current := Some(t.tid),
                                     log := old(log) + [Visit(t.tid, true)])
    {
      hide Threads, Tids, Chained, Loose, TableOK, Stride;
      ghost var before, th := View().threads, ThreadOf(t);
      SetCooldown(t, Stride(t.priority) - 1);
      Overwritten(before, t.tid, ThreadOf(t), th.(cooldown := Stride(t.priority) - 1, status := Running));
      current := t;
      SetStatus(t, Running);
      log := log + [Visit(t.tid, true)];
    }

    /** The end of a turn: the thread is made current and its frame restored, or it is terminated. */
    method DispatchThread(t: Tcb, frame: InterruptFrame) returns (switched: bool, restored: InterruptFrame)
      requires Wf() && Known(all, t)
      modifies `current, `rsp0, `log, t`cooldown, t`status
      ensures Wf()
      ensures (View(), if switched then Switched(restored) else Again(Some(t.tid))) == Dispatch(old(View()), t.tid, frame)
    {
      hide Threads, Tids, Chained, Loose, TableOK;
      restored := frame;
      switched := false;
      ghost var before := View().threads;
      MakeCurrent(t);
      Overwritten(before, t.tid, ThreadOf(t), ThreadOf(t).(status := Terminated));
      if t.ring3 {
        if t.kernelStack == 0 {
          SetStatus(t, Terminated);
          return;
        }
        rsp0 := t.kernelStack + KERNEL_STACK_SIZE - 8;
        if t.context.rsp == 0 {
          SetStatus(t, Terminated);
          return;
        }
        var c := t.context;
        restored := InterruptFrame(
          c.r15, c.r14, c.r13, c.r12, c.r11, c.r10, c.r9, c.r8, c.rbp, c.rdi, c.rsi, c.rdx, c.rcx, c.rbx, c.rax,
          frame.intNo, frame.errCode, c.rip, USER_CODE_SELECTOR, WithInterrupts(c.rflags), c.rsp, USER_DATA_SELECTOR);
      } else {
        restored := t.context;
      }
      switched := true;
    }

    /** A thread on cool-down goes to the tail. */
    method CoolDown(t: Tcb)
      requires Wf() && Known(all, t)
      modifies `log, `readyQueue, `queue, t`cooldown, t`next, t`status, queue`next
      ensures Wf()
      ensures var s := old(View());
              View() == Add(s.(threads := s.threads[t.tid := old(ThreadOf(t)).(cooldown := old(t.cooldown) - 1)],
                               log := s.log + [Visit(t.tid, false)]), t.tid)
    {
      hide Threads, Tids, Chained, Loose, TableOK, Add;
      log := log + [Visit(t.tid, false)];
      SetCooldown(t, t.cooldown - 1);
      AddToReadyQueue(t);
    }

    method Requeue(t: Tcb)
      requires Wf() && Known(all, t)
      modifies `readyQueue, `queue, t`next, t`status, queue`next
      ensures Wf()
      ensures var s := old(View()); View() == Add(s.(threads := s.threads[t.tid := old(ThreadOf(t)).(status := Ready)]), t.tid)
    {
      hide Threads, Tids, Chained, Loose, TableOK, Add;
      SetStatus(t, Ready);
      AddToReadyQueue(t);
    }

    method DropCurrent()
      requires Wf() && current != null
      modifies `readyQueue, `queue, `current, queue`next
      ensures Wf() && View() == old(View()).(queue := Without(old(View()).queue, old(current.tid)), current := None)
    {
      hide Threads, Tids, Chained, Loose, TableOK, Without;
      RemoveFromReadyQueue(current);
      current := null;
    }

    /** The second half of a turn. */
    method UseThread(t: Tcb, frame: InterruptFrame) returns (again: bool, next: Tcb?, restored: InterruptFrame)
      requires Wf() && Known(all, t)
      modifies this, all
      ensures Wf() && all == old(all) && (next != null ==> Known(all, next))
      ensures (View(), TurnEnd(again, OptTid(next), restored)) == TurnOn(old(View()), t.tid, frame)
      ensures !again ==> next != null
    {
      hide Threads, Tids, Chained, Loose, TableOK, Dispatch, Stride, Without;
      again, next, restored := true, null, frame;
      QueueInAll();
      if t.status == Blocked || t.status == Terminated {
        RemoveFromReadyQueue(t);
      } else if t.cooldown > 0 {
        CoolDown(t);
      } else {
        var found;
        found, restored := DispatchThread(t, frame);
        again, next := !found, t;
      }
    }

    /** One turn of the loop behind `select_again`; it never finds nothing once a thread is queued. */
    method SelectTurn(hand: Tcb?, frame: InterruptFrame) returns (again: bool, next: Tcb?, restored: InterruptFrame)
      requires Wf() && (hand != null ==> Known(all, hand))
      modifies this, all
      ensures Wf() && all == old(all) && (next != null ==> Known(all, next))
      ensures SelectOnce(old(View()), OptTid(hand), frame)
           == (View(), if !again && next == null then NoThread else TurnEnd(again, OptTid(next), restored))
    {
      hide Threads, Tids, Chained, Loose, TableOK, TurnOn, Pick;
      again, restored := false, frame;
      QueueInAll();
      next := PickThread(hand);
      if next != null {
        again, next, restored := UseThread(next, frame);
      }
    }

    lemma QueueInAll()
      requires Wf()
      ensures forall u | u in queue :: u in all
    {
    }

    /** The first half of a tick. */
    method SaveCurrent(frame: InterruptFrame)
      requires Wf()
      modifies this, all
      ensures Wf() && all == old(all) && View() == Save(old(View()), frame)
    {
      hide Threads, Tids, Chained, Loose, TableOK, Add, Without;
      QueueInAll();
      if current != null {
        SetContext(current, frame);
        if current.status == Running {
          Requeue(current);
        } else if current.status == Terminated {
          DropCurrent();
        } else if current.status == Blocked {
          DropCurrent();
        } else {
          Requeue(current);
        }
      }
    }

    /** `scheduler_tick`. */
    method Tick(frame: InterruptFrame) returns (restored: InterruptFrame)
      requires Wf() && Inv(View())
      modifies this, all
      ensures Wf() && all == old(all) && Inv(View()) && (View(), restored) == SchedRun.Tick(old(View()), frame)
    {
      hide View, Wf, SelectOnce, MidOK, Inv, Work, Save, Chose;
      TickKeeps(View(), frame);
      SaveMid(View(), frame);
      SaveCurrent(frame);
      var again, next := true, null;
      restored := frame;
      while again
        invariant Wf() && all == old(all) && (next != null ==> Known(all, next))
        invariant OptTid(next).Some? ==> OptTid(next).value < |View().threads|
        invariant again ==> MidOK(View()) && Select(View(), OptTid(next), frame) == SchedRun.Tick(old(View()), frame)
        invariant !again ==> (View(), restored) == SchedRun.Tick(old(View()), frame)
        decreases again, Work(View().threads, View().queue)
      {
        TurnKeeps(View(), OptTid(next), frame);
        again, next, restored := SelectTurn(next, frame);
        HandInRange(next);
      }
    }

    lemma HandInRange(next: Tcb?)
      requires Wf() && (next != null ==> Known(all, next))
      ensures OptTid(next).Some? ==> OptTid(next).value < |View().threads|
    {
    }

    /** `thread_execute`: -1 unless the thread is ready; whether it is queued already is not checked. */
    method ThreadExecute(t: Tcb) returns (r: int)
      requires Wf() && Inv(View()) && Known(all, t) && Legal(View(), Execute(t.tid))
      modifies this, all
      ensures Wf() && all == old(all) && Inv(View()) && View() == ExecuteThread(old(View()), t.tid)
      ensures r == if old(t.status) == Ready then 0 else -1
      ensures if r == 0 then Queued(old(View()), View(), t.tid) else View() == old(View())
    {
      hide Queued, Threads, Tids, Chained, Loose, TableOK, Inv;
      StepKeeps(View(), Execute(t.tid));
      ExecuteEffect(View(), t.tid);
      RemovedTids(all, queue, t);
      QueueInAll();
      if t.status != Ready {
        return -1;
      }
      Append(t);
      return 0;
    }

    /** `thread_block`, up to the interrupt it raises. */
    method ThreadBlock() returns (r: int)
      requires Wf() && Inv(View())
      modifies this, all
      ensures Wf() && all == old(all) && Inv(View()) && View() == BlockCurrent(old(View()))
      ensures r == if old(current) == null || old(current).tid == 0 then -1 else 0
      ensures if r == 0 then Stopped(old(View()), View(), old(current.tid)) else View() == old(View())
    {
      hide Stopped, Threads, Tids, Chained, Loose, TableOK, Inv, Without;
      StepKeeps(View(), Block);
      BlockEffect(View());
      QueueInAll();
      if current == null {
        return -1;
      }
      if current.tid == 0 {
        return -1;
      }
      SetStatus(current, Blocked);
      RemoveFromReadyQueue(current);
      return 0;
    }

    /** `thread_get_by_tid`. */
    method GetByTid(tid: nat) returns (t: Tcb?)
      requires Wf()
      ensures if tid < |all| then t == all[tid] && t.tid == tid && Known(all, t) else t == null
    {
      hide Chained, Loose;
      var i := 0;
      while i < MAX_THREADS
        invariant 0 <= i <= MAX_THREADS && (tid < |all| ==> i <= tid)
      {
        var u := table[i];
        if u != null && u.tid == tid {
          return u;
        }
        i := i + 1;
      }
      return null;
    }

    /** `thread_unblock`. */
    method ThreadUnblock(tid: nat) returns (r: int)
      requires Wf() && Inv(View())
      modifies this, all
      ensures Wf() && all == old(all) && Inv(View()) && View() == UnblockThread(old(View()), tid)
      ensures r == if tid >= |all| then -1 else if old(View()).threads[tid].status != Blocked then -2 else 0
      ensures if r == 0 then Woken(old(View()), View(), tid) else View() == old(View())
    {
      hide Woken, Threads, Tids, Chained, Loose, TableOK, Inv;
      StepKeeps(View(), Unblock(tid));
      UnblockEffect(View(), tid);
      QueueInAll();
      var t := GetByTid(tid);
      if t == null {
        return -1;
      }
      if t.status != Blocked {
        return -2;
      }
      NotQueued(t);
      SetStatus(t, Ready);
      Append(t);
      return 0;
    }

    /** A blocked thread is not queued. */
    lemma NotQueued(t: Tcb)
      requires Wf() && Inv(View()) && Known(all, t) && t.status == Blocked
      ensures t !in queue
    {
      hide Threads, Tids, Chained, Loose;
      assert forall i | 0 <= i < |queue| :: ThreadOf(queue[i]) == View().threads[View().queue[i]];
    }

    /** `threading_init`; what it leaves unset in the kernel's thread is what its memory held. */
    constructor (raw: InterruptFrame, kernelStack: nat, cooldown: int)
      ensures Wf() && View() == Initial(raw, kernelStack, cooldown) && Inv(View())
      ensures fresh(all) && fresh(table)
    {
      var kernel := new Tcb(0, false, Immediates, kernelStack, Running, raw, cooldown);
      table := new Tcb?[MAX_THREADS](i => if i == 0 then kernel else null);
      current, readyQueue := kernel, null;
      count, nextTid, rsp0 := 1, 1, 0;
      all, queue, log := [kernel], [], [];
      new;
      InitialInv(raw, kernelStack, cooldown);
    }

    /** The thread enters the table at the first empty place. */
    method Enter(t: Tcb)
      requires Wf() && 1 <= count < MAX_THREADS && t.tid == count && t !in all && t.next == null
      modifies `all, `count, `nextTid, table
      ensures Wf() && all == old(all) + [t]
      ensures View() == old(View()).(threads := old(View()).threads + [ThreadOf(t)])
    {
      hide Threads, Tids, Chained;
      var i := 1;
      while i < MAX_THREADS
        invariant 1 <= i <= count && unchanged(table)
      {
        if table[i] == null {
          table[i] := t;
          break;
        }
        i := i + 1;
      }
      assert Threads(all + [t]) == Threads(all) + [ThreadOf(t)];
      all := all + [t];
      count := count + 1;
      nextTid := nextTid + 1;
      assert forall k | 0 <= k < |queue| :: Known(all, queue[k]);
    }

    /** `thread_create`, given the stacks it could allocate. */
    method ThreadCreate(ring3: bool, priority: Priority, entry: nat, arg: nat, stackBase: nat, kernelStack: nat,
                        raw: InterruptFrame, cooldown: int) returns (t: Tcb?)
      requires Wf() && Inv(View())
      modifies this, all, table
      ensures Wf() && Inv(View()) && fresh(set u | u in all && u !in old(all))
      ensures View() == CreateThread(old(View()), Create(ring3, priority, entry, arg, stackBase, kernelStack, raw, cooldown))
      ensures t == null <==> old(count) == 256 || stackBase == 0 || (ring3 && kernelStack == 0)
      ensures t == null ==> View() == old(View())
      ensures t != null ==>
                && fresh(t) && Known(all, t) && t.tid == old(|all|)
                && Created(old(View()), View(), ring3, priority, entry, arg, stackBase, kernelStack, raw, cooldown)
    {
      hide Created, Threads, Tids, Chained, Loose, Inv;
      StepKeeps(View(), Create(ring3, priority, entry, arg, stackBase, kernelStack, raw, cooldown));
      CreateEffect(View(), ring3, priority, entry, arg, stackBase, kernelStack, raw, cooldown);
      if count >= MAX_THREADS {
        return null;
      }
      if ring3 {
        if stackBase == 0 || kernelStack == 0 {
          return null;
        }
      } else if stackBase == 0 {
        return null;
      }
      var context := raw.(rsp := stackBase + THREAD_STACK_SIZE - 8, rip := entry, rdi := arg, rflags := 0x202,
                          cs := if ring3 then USER_CODE_SELECTOR else KERNEL_CODE_SELECTOR,
                          ss := if ring3 then USER_DATA_SELECTOR else KERNEL_DATA_SELECTOR);
      InvSome();
      t := new Tcb(nextTid, ring3, priority, if ring3 then kernelStack else 0, Ready, context, cooldown);
      Enter(t);
    }

    lemma InvSome()
      requires Wf() && Inv(View())
      ensures count >= 1
    {
    }
  }

  lemma Overwritten<T>(s: seq<T>, i: nat, a: T, b: T)
    requires i < |s|
    ensures s[i := a][i := b] == s[i := b]
  {
  }

  /** What a turn's results mean. */
  function TurnEnd(again: bool, next: Option<nat>, restored: InterruptFrame): Outcome {
    if again then Again(next) else Switched(restored)
  }

  function OptTid(t: Tcb?): Option<nat> { if t == null then None else Some(t.tid) }

  lemma HeadOf(q: seq<Tcb>, head: Tcb?)
    requires Chained(q, head)
    ensures head == if q == [] then null else q[0]
  {
  }

  /** A queue with node i taken out is linked, if the node before it points past it. */
  lemma Relinked(before: seq<Tcb>, q: seq<Tcb>, i: nat)
    requires 0 < i < |before| && q == before[..i] + before[i + 1..]
    requires forall k, j | 0 <= k < j < |before| :: before[k] != before[j]
    requires forall k | 0 <= k < |before| && k != i && k != i - 1 :: NextOf(before, k, before[k].next)
    requires before[i - 1].next == if i + 1 < |before| then before[i + 1] else null
    ensures Chained(q, q[0])
  {
    forall k | 0 <= k < |q| ensures NextOf(q, k, q[k].next) {
      if k >= i {
        assert NextOf(before, k + 1, before[k + 1].next);
      } else if k < i - 1 {
        assert NextOf(before, k, before[k].next);
      }
    }
  }

  lemma {:induction false} RemovedKeeps(q: seq<Tcb>, t: Tcb)
    ensures forall u | u in q && u != t :: u in Removed(q, t)
  {
    if q != [] && q[0] != t {
      RemovedKeeps(q[1..], t);
      assert forall u | u in q :: u == q[0] || u in q[1..];
    }
  }
}
