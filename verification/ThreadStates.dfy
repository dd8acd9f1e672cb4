/**
 The life of threads and processes under so3/kernel/schedule.c: what every step does to the state of every thread,
 said without the functions the steps are made of.
 */
module ThreadStates {
  import opened Queues
  import opened Scheduling

  // ---------------------------------------------------------------- single calls

  /** wake_up: a WAITING thread becomes READY and the last in the queue; for any other nothing happens. */
  lemma WakeEffect(s: State, t: nat)
    requires Inv(s) && t in s.tcb
    ensures var r := WakeUp(s, t);
      if s.tcb[t].state != Waiting then r == s
      else
        t in r.tcb && r.tcb[t].state == Ready && t !in s.readyQ && r.readyQ == s.readyQ + [t] && OthersKept(s, r, t) &&
        r.current == s.current && r.zombieQ == s.zombieQ && r.proc == s.proc && r.space == s.space && r.idle == s.idle
  {
  }

  /** No thread but t has changed, and t in its state only. */
  ghost predicate OthersKept(s: State, r: State, t: nat) {
    r.tcb.Keys == s.tcb.Keys && (forall u :: u in s.tcb && u != t ==> r.tcb[u] == s.tcb[u]) &&
    (t in s.tcb ==> r.tcb[t].pcb == s.tcb[t].pcb && r.tcb[t].prio == s.tcb[t].prio)
  }

  /** The state of a process that loses the CPU to another. */
  function LeftAs(x: ProcState): ProcState {
    if x == ProcZombie || x == ProcWaiting then x else ProcReady
  }

  /** Loading another process: it is RUNNING, and the one left is READY unless it is a zombie or waits. */
  lemma SpaceEffect(s: State, prev: Option<nat>, next: nat)
    requires next in s.tcb && (prev.Some? ==> prev.value in s.tcb)
    ensures var r, p := SwitchSpace(s, prev, next), s.tcb[next].pcb;
      var q := if prev.Some? then s.tcb[prev.value].pcb else None;
      r == s.(proc := r.proc, space := r.space) &&
      if p.None? || p == s.space then r == s
      else
        r.space == p && p.value in r.proc && (q != p ==> r.proc[p.value] == ProcRunning) &&
        (q == p ==> r.proc[p.value] == ProcReady) &&
        (q.Some? && q != p && q.value in s.proc ==>
          q.value in r.proc && r.proc[q.value] == LeftAs(s.proc[q.value])) &&
        (forall x :: Some(x) != p && Some(x) != q ==> (x in r.proc <==> x in s.proc)) &&
        (forall x :: Some(x) != p && Some(x) != q && x in s.proc ==> r.proc[x] == s.proc[x])
  {
  }

  // ---------------------------------------------------------------- the state diagram

  /**
   The state of thread t after op, from its state before and from who runs afterwards. READY is left only for
   RUNNING, WAITING and ZOMBIE are entered only by the running thread itself, and WAITING is left only by a wake-up.
   */
  ghost function Diagram(s: State, op: Op, runs: Option<nat>, t: nat): ThreadState
    requires t in s.tcb
  {
    var now := s.tcb[t].state;
    match op
    case MakeRunnable(u) => if t == u then Ready else now
    case Wake(u) => if t == u && now == Waiting then Ready else now
    case Exit => if s.current == Some(t) then Zombie else now
    case Block => if runs == Some(t) then Running else if s.current == Some(t) then Waiting else now
    case Tick =>
      if runs == Some(t) then Running
      else if s.current == Some(t) && now == Running && t != s.idle then Ready
      else now
    case _ => now
  }

  /** Which threads there are: creation adds one, discarding and freeing itself remove one. */
  ghost function Population(s: State, op: Op): set<nat> {
    match op
    case Create(t, _, _) => s.tcb.Keys + {t}
    case Discard(t) => s.tcb.Keys - {t}
    case Vanish => if s.current.Some? then s.tcb.Keys - {s.current.value} else s.tcb.Keys
    case _ => s.tcb.Keys
  }

  ghost predicate FollowsDiagram(s: State, op: Op, r: State) {
    r.tcb.Keys == Population(s, op) &&
    (forall t :: t in s.tcb && t in r.tcb ==>
      r.tcb[t].state == Diagram(s, op, r.current, t) && r.tcb[t].pcb == s.tcb[t].pcb &&
      r.tcb[t].prio == s.tcb[t].prio) &&
    (op.Create? ==> r.tcb[op.t] == Tcb(Ready, op.pcb, op.prio)) &&
    r.zombieQ == (if op.Exit? && s.current.Some? then s.zombieQ + [s.current.value] else s.zombieQ)
  }

  lemma PrepareDiagram(s: State, op: Op)
    requires Inv(s) && Enabled(s, op) && !op.Block? && !op.Tick?
    ensures FollowsDiagram(s, op, Prepare(s, op))
  {
    hide QueueRight;
  }

  /** What a completed schedule call does to the states. */
  lemma ScheduleStates(policy: Policy, s: State)
    requires Core(s)
    ensures Known(s) && (Target(policy, s).Some? ==> Target(policy, s).value in s.tcb)
    ensures var r := Schedule(policy, s);
      r.tcb.Keys == s.tcb.Keys && r.zombieQ == s.zombieQ && r.current.Some? &&
      forall t :: t in s.tcb ==>
        r.tcb[t].pcb == s.tcb[t].pcb && r.tcb[t].prio == s.tcb[t].prio &&
        r.tcb[t].state == if r.current == Some(t) then Running
                          else if s.current == Some(t) && s.tcb[t].state == Running && t != s.idle then Ready
                          else s.tcb[t].state
  {
    hide Target, Rest, SwitchSpace;
    ScheduleInv(policy, s);
    TargetIs(policy, s);
    var u := Target(policy, s);
    if u.Some? {
      SwitchStates(s, Rest(policy, s), u.value);
    }
  }

  lemma SwitchStates(s: State, q: seq<nat>, next: nat)
    requires Core(s) && next in s.tcb && s.current != Some(next) && (s.current.Some? ==> s.current.value in s.tcb)
    ensures var r := Dispatch(s.(readyQ := q), next);
      r.tcb.Keys == s.tcb.Keys && r.zombieQ == s.zombieQ && r.current == Some(next) &&
      forall t :: t in s.tcb ==>
        r.tcb[t].pcb == s.tcb[t].pcb && r.tcb[t].prio == s.tcb[t].prio &&
        r.tcb[t].state == if t == next then Running
                          else if s.current == Some(t) && s.tcb[t].state == Running && t != s.idle then Ready
                          else s.tcb[t].state
  {
    hide Core;
  }

  /** Every step, under either policy, moves every thread along the diagram. */
  lemma StepDiagram(policy: Policy, s: State, op: Op)
    requires Inv(s) && Enabled(s, op)
    ensures FollowsDiagram(s, op, Step(policy, s, op))
  {
    hide Schedule, QueueRight, Prepare, FollowsDiagram;
    PrepareCore(s, op);
    if op.Block? || op.Tick? {
      ScheduleStates(policy, Prepare(s, op));
      ScheduledDiagram(s, op, Prepare(s, op), Step(policy, s, op));
    } else {
      PrepareDiagram(s, op);
    }
  }

  lemma ScheduledDiagram(s: State, op: Op, p: State, r: State)
    requires Enabled(s, op) && (op.Block? || op.Tick?) && p == Prepare(s, op)
    requires r.tcb.Keys == p.tcb.Keys && r.zombieQ == p.zombieQ && r.current.Some?
    requires forall t :: t in p.tcb ==>
      r.tcb[t].pcb == p.tcb[t].pcb && r.tcb[t].prio == p.tcb[t].prio &&
      r.tcb[t].state == if r.current == Some(t) then Running
                        else if p.current == Some(t) && p.tcb[t].state == Running && t != p.idle then Ready
                        else p.tcb[t].state
    ensures FollowsDiagram(s, op, r)
  {
  }

  // ---------------------------------------------------------------- who is chosen

  /** A kernel thread, or a thread whose process is READY or RUNNING. */
  predicate MayRun(s: State, t: nat) {
    t in s.tcb &&
    match s.tcb[t].pcb
    case None => true
    case Some(p) => p in s.proc && (s.proc[p] == ProcReady || s.proc[p] == ProcRunning)
  }

  /** Round robin switches to the first thread of the queue that may run, and to the idle thread only if none may. */
  lemma RoundRobinPicks(s: State)
    requires Core(s) && Known(s)
    ensures var t := Target(RoundRobin, s);
      (t.Some? && t.value in s.readyQ ==>
        MayRun(s, t.value) &&
        exists k :: 0 <= k < |s.readyQ| && s.readyQ[k] == t.value &&
          forall i :: 0 <= i < k ==> !MayRun(s, s.readyQ[i])) &&
      (t.Some? && t.value !in s.readyQ ==>
        t.value == s.idle && !IsRunning(s, s.current) && forall i :: 0 <= i < |s.readyQ| ==> !MayRun(s, s.readyQ[i])) &&
      (t.None? ==> IsRunning(s, s.current) && forall i :: 0 <= i < |s.readyQ| ==> !MayRun(s, s.readyQ[i]))
  {
    hide Core, FirstRunnable, QueueRight;
    NotCurrent(s);
    if Next(RoundRobin, s).None? {
      NobodyRunnable(RoundRobin, s);
    }
    FirstRunnableIs(s, s.readyQ);
    assert forall u :: MayRun(s, u) <==> Runnable(s, u);
  }

  lemma NotCurrent(s: State)
    requires Core(s)
    ensures QueueRight(s) && s.idle in s.tcb && s.tcb[s.idle].pcb.None?
    ensures s.current.Some? ==> s.current.value !in s.readyQ
  {
  }

  // ---------------------------------------------------------------- from wake-up to CPU

  lemma {:induction false} IndexLast(q: seq<nat>, t: nat)
    requires t !in q
    ensures t in q + [t] && IndexOf(q + [t], t) == |q|
  {
    if q != [] {
      assert (q + [t])[1..] == q[1..] + [t];
      IndexLast(q[1..], t);
    }
  }

  /** Round robin: a woken thread whose process stays runnable runs within one schedule call more than were ready. */
  lemma WokenRuns(s: State, ops: seq<Op>, t: nat)
    requires Inv(s) && t in s.tcb && s.tcb[t].state == Waiting
    requires Inv(Step(RoundRobin, s, Wake(t))) && Possible(RoundRobin, Step(RoundRobin, s, Wake(t)), ops)
    requires StaysRunnable(Step(RoundRobin, s, Wake(t)), ops, t) && Completed(ops) > |s.readyQ|
    ensures GetsCpu(Step(RoundRobin, s, Wake(t)), ops, t)
  {
    hide Inv, Possible, StaysRunnable, GetsCpu, Completed, IndexOf, WakeUp;
    WakeEffect(s, t);
    IndexLast(s.readyQ, t);
    Dispatched(Step(RoundRobin, s, Wake(t)), ops, t);
  }
}
