/**
 The ready queue and dispatcher of so3/kernel/schedule.c as steps on one CPU, for the round-robin
 and the fixed-priority policy.
 */
module Scheduling {
  import opened Queues

  datatype ThreadState = New | Ready | Running | Waiting | Zombie
  datatype ProcState = ProcNew | ProcReady | ProcRunning | ProcWaiting | ProcZombie
  datatype Policy = RoundRobin | Priority

  /** pcb is the process of a user thread. */
  datatype Tcb = Tcb(state: ThreadState, pcb: Option<nat>, prio: nat)

  /** space is the process whose page table is loaded. */
  datatype State = State(tcb: map<nat, Tcb>, readyQ: seq<nat>, zombieQ: seq<nat>, current: Option<nat>, idle: nat,
                         proc: map<nat, ProcState>, space: Option<nat>)

  // ---------------------------------------------------------------- small steps

  function Set(s: State, t: nat, x: ThreadState): State
    requires t in s.tcb
  {
    s.(tcb := s.tcb[t := s.tcb[t].(state := x)])
  }

  /** ready. */
  function MakeReady(s: State, t: nat): State
    requires t in s.tcb
  {
    Set(s, t, Ready).(readyQ := s.readyQ + [t])
  }

  function WakeUp(s: State, t: nat): State
    requires t in s.tcb
  {
    if s.tcb[t].state == Waiting then MakeReady(s, t) else s
  }

  /** q without its first t. */
  function Without(q: seq<nat>, t: nat): seq<nat> {
    if q == [] then [] else if q[0] == t then q[1..] else [q[0]] + Without(q[1..], t)
  }

  ghost predicate IsRunning(s: State, t: Option<nat>) {
    t.Some? && t.value in s.tcb && s.tcb[t.value].state == Running
  }

  // ---------------------------------------------------------------- choosing a thread

  /** A kernel thread, or a thread of a process that is ready or running. */
  predicate Runnable(s: State, t: nat) {
    t in s.tcb &&
    (s.tcb[t].pcb.None? ||
      (s.tcb[t].pcb.value in s.proc &&
      (s.proc[s.tcb[t].pcb.value] == ProcReady || s.proc[s.tcb[t].pcb.value] == ProcRunning)))
  }

  /** The first runnable thread of q. */
  function FirstRunnable(s: State, q: seq<nat>): Option<nat> {
    if q == [] then None else if Runnable(s, q[0]) then Some(q[0]) else FirstRunnable(s, q[1..])
  }

  /** best, or the first thread of q with the highest priority if that is higher. */
  function Highest(s: State, best: Option<nat>, q: seq<nat>): Option<nat>
    requires (best.Some? ==> best.value in s.tcb) && forall i :: 0 <= i < |q| ==> q[i] in s.tcb
    decreases |q|
  {
    if q == [] then best
    else Highest(s, if best.None? || s.tcb[q[0]].prio > s.tcb[best.value].prio then Some(q[0]) else best, q[1..])
  }

  ghost predicate Known(s: State) {
    s.idle in s.tcb && (s.current.Some? ==> s.current.value in s.tcb) &&
    forall i :: 0 <= i < |s.readyQ| ==> s.readyQ[i] in s.tcb
  }

  /** next_thread's answer. */
  ghost function Next(policy: Policy, s: State): Option<nat>
    requires Known(s)
  {
    match policy
    case RoundRobin => FirstRunnable(s, s.readyQ)
    case Priority => Highest(s, if IsRunning(s, s.current) then s.current else None, s.readyQ)
  }

  /** The ready queue next_thread leaves. */
  ghost function Rest(policy: Policy, s: State): seq<nat>
    requires Known(s)
  {
    var t := Next(policy, s);
    if t.None? || (policy.Priority? && IsRunning(s, s.current) && t == s.current) then s.readyQ
    else Without(s.readyQ, t.value)
  }

  // ---------------------------------------------------------------- schedule

  /** Loading another process's page table moves the two process states. */
  function SwitchSpace(s: State, prev: Option<nat>, next: nat): State
    requires next in s.tcb && (prev.Some? ==> prev.value in s.tcb)
  {
    var p := s.tcb[next].pcb;
    if p.None? || p == s.space then s
    else
      var after := s.proc[p.value := ProcRunning];
      var left := if prev.Some? then s.tcb[prev.value].pcb else None;
      s.(space := p,
         proc := if left.Some? && left.value in after && after[left.value] != ProcZombie &&
                    after[left.value] != ProcWaiting
                 then after[left.value := ProcReady] else after)
  }

  /** What schedule switches to: None stays with the current thread. */
  ghost function Target(policy: Policy, s: State): Option<nat>
    requires Known(s)
  {
    var t := Next(policy, s);
    if t.None? && !IsRunning(s, s.current) then Some(s.idle) else if t == s.current then None else t
  }

  ghost function Dispatch(s: State, next: nat): State
    requires next in s.tcb && (s.current.Some? ==> s.current.value in s.tcb)
  {
    var s1 := if IsRunning(s, s.current) && s.current.value != s.idle then MakeReady(s, s.current.value) else s;
    SwitchSpace(Set(s1, next, Running).(current := Some(next)), s.current, next)
  }

  /** A completed call of schedule. */
  ghost function Schedule(policy: Policy, s: State): State
    requires Known(s) && (Target(policy, s).Some? ==> Target(policy, s).value in s.tcb)
  {
    var r := s.(readyQ := Rest(policy, s));
    if Target(policy, s).None? || Target(policy, s) == s.current then r else Dispatch(r, Target(policy, s).value)
  }

  // ---------------------------------------------------------------- what every step keeps

  /** The ready queue holds exactly the READY threads, once each. */
  ghost predicate QueueRight(s: State) {
    Distinct(s.readyQ) && forall t :: t in s.readyQ <==> t in s.tcb && s.tcb[t].state == Ready
  }

  /** No thread but the current one is RUNNING; a preempted idle thread stays RUNNING. */
  ghost predicate OneRunning(s: State) {
    forall t :: t in s.tcb && s.tcb[t].state == Running && t != s.idle ==> s.current == Some(t)
  }

  ghost predicate CurrentRight(s: State) {
    s.idle in s.tcb && s.tcb[s.idle].pcb.None? &&
    (s.current.Some? ==> s.current.value in s.tcb && s.tcb[s.current.value].state != Ready) &&
    (s.current == Some(s.idle) ==> s.tcb[s.idle].state == Running)
  }

  /** Also in the middle of waiting(), before it calls schedule. */
  ghost predicate Core(s: State) {
    QueueRight(s) && OneRunning(s) && CurrentRight(s)
  }

  ghost predicate Inv(s: State) {
    Core(s) && (s.current.Some? ==> s.tcb[s.current.value].state == Running || s.tcb[s.current.value].state == Zombie)
  }

  lemma CoreKnown(s: State)
    requires Core(s)
    ensures Known(s)
  {
    assert forall i :: 0 <= i < |s.readyQ| ==> s.readyQ[i] in s.readyQ;
  }

  lemma {:induction false} WithoutElements(q: seq<nat>, t: nat)
    requires Distinct(q) && t in q
    ensures |Without(q, t)| == |q| - 1 && Distinct(Without(q, t))
    ensures forall x :: x in Without(q, t) <==> x in q && x != t
  {
    if q[0] != t {
      assert q == [q[0]] + q[1..];
      WithoutElements(q[1..], t);
      DistinctCons(q[0], Without(q[1..], t));
    } else {
      assert q == [q[0]] + q[1..];
    }
  }

  lemma {:induction false} FirstRunnableIs(s: State, q: seq<nat>)
    ensures var t := FirstRunnable(s, q);
      if t.Some? then IsFirst(s, q, t.value) else forall i :: 0 <= i < |q| ==> !Runnable(s, q[i])
  {
    if q != [] {
      if Runnable(s, q[0]) {
        assert IsFirst(s, q, q[0]);
      } else {
        FirstRunnableIs(s, q[1..]);
        assert forall i :: 1 <= i < |q| ==> q[i] == q[1..][i - 1];
        if FirstRunnable(s, q).Some? {
          var k :| 0 <= k < |q| - 1 && q[1..][k] == FirstRunnable(s, q).value &&
            forall i :: 0 <= i < k ==> !Runnable(s, q[1..][i]);
          assert q[k + 1] == FirstRunnable(s, q).value;
        }
      }
    }
  }

  /** t is runnable and stands in q, with only threads before it that are not. */
  ghost predicate IsFirst(s: State, q: seq<nat>, t: nat) {
    t in q && Runnable(s, t) && exists k :: 0 <= k < |q| && q[k] == t && forall i :: 0 <= i < k ==> !Runnable(s, q[i])
  }

  /** t has at least the priority of best and of all in q; if it is not best it is in q and above best. */
  ghost predicate Chosen(s: State, best: Option<nat>, q: seq<nat>, t: Option<nat>) {
    (t.None? ==> best.None? && q == []) &&
    (t.Some? ==>
      t.value in s.tcb && (forall i :: 0 <= i < |q| ==> q[i] in s.tcb && s.tcb[q[i]].prio <= s.tcb[t.value].prio)) &&
    (t.Some? && best.Some? ==> best.value in s.tcb && s.tcb[best.value].prio <= s.tcb[t.value].prio) &&
    (t == best ||
     (t.Some? && FirstWith(s, q, t.value) &&
      (best.Some? ==> best.value in s.tcb && s.tcb[best.value].prio < s.tcb[t.value].prio)))
  }

  /** t is the first thread of q with its priority. */
  ghost predicate FirstWith(s: State, q: seq<nat>, t: nat) {
    t in s.tcb &&
    exists k :: 0 <= k < |q| && q[k] == t &&
      forall i :: 0 <= i < k ==> q[i] in s.tcb && s.tcb[q[i]].prio < s.tcb[t].prio
  }

  /**
   The running thread keeps the CPU unless a ready one is strictly above it; then the first of the highest is
   taken.
   */
  lemma {:induction false} HighestIs(s: State, best: Option<nat>, q: seq<nat>)
    requires (best.Some? ==> best.value in s.tcb) && forall i :: 0 <= i < |q| ==> q[i] in s.tcb
    ensures Chosen(s, best, q, Highest(s, best, q))
    decreases |q|
  {
    if q != [] {
      var b := if best.None? || s.tcb[q[0]].prio > s.tcb[best.value].prio then Some(q[0]) else best;
      HighestIs(s, b, q[1..]);
      ChosenCons(s, best, q, b, Highest(s, b, q[1..]));
    }
  }

  lemma ChosenCons(s: State, best: Option<nat>, q: seq<nat>, b: Option<nat>, t: Option<nat>)
    requires q != [] && (best.Some? ==> best.value in s.tcb) && q[0] in s.tcb
    requires b == if best.None? || s.tcb[q[0]].prio > s.tcb[best.value].prio then Some(q[0]) else best
    requires Chosen(s, b, q[1..], t)
    ensures Chosen(s, best, q, t)
  {
    assert forall i :: 1 <= i < |q| ==> q[i] == q[1..][i - 1];
    if t != b {
      var k :| 0 <= k < |q| - 1 && q[1..][k] == t.value &&
        forall i :: 0 <= i < k ==> q[1..][i] in s.tcb && s.tcb[q[1..][i]].prio < s.tcb[t.value].prio;
      assert q[k + 1] == t.value;
    } else if t != best {
      assert q[0] == t.value;
    }
  }

  // ---------------------------------------------------------------- schedule keeps the invariant

  /** t is no thread, or another thread than the current one, and q is the ready queue without it. */
  ghost predicate TargetRight(s: State, t: Option<nat>, q: seq<nat>) {
    if t.None? then q == s.readyQ && IsRunning(s, s.current)
    else
      t.value in s.tcb && t != s.current && (t.value in s.readyQ || t.value == s.idle) &&
      Distinct(q) && forall x :: x in q <==> x in s.readyQ && x != t.value
  }

  /** The thread chosen: taken out of the ready queue, or the idle thread that is not in it, or none. */
  lemma TargetIs(policy: Policy, s: State)
    requires Core(s) && Known(s)
    ensures TargetRight(s, Target(policy, s), Rest(policy, s))
  {
    hide OneRunning;
    match policy
    case RoundRobin => RoundRobinTarget(s);
    case Priority => PriorityTarget(s);
  }

  lemma RoundRobinTarget(s: State)
    requires QueueRight(s) && CurrentRight(s) && Known(s)
    ensures TargetRight(s, Target(RoundRobin, s), Rest(RoundRobin, s))
  {
    hide FirstRunnable, Without;
    var t := FirstRunnable(s, s.readyQ);
    FirstRunnableIs(s, s.readyQ);
    if t.Some? {
      WithoutElements(s.readyQ, t.value);
    } else {
      assert Runnable(s, s.idle);
      assert s.idle !in s.readyQ;
    }
  }

  lemma PriorityTarget(s: State)
    requires QueueRight(s) && CurrentRight(s) && Known(s)
    ensures TargetRight(s, Target(Priority, s), Rest(Priority, s))
  {
    hide Highest, Without;
    var best := if IsRunning(s, s.current) then s.current else None;
    var t := Highest(s, best, s.readyQ);
    HighestIs(s, best, s.readyQ);
    if t != best {
      assert t.value in s.readyQ;
      WithoutElements(s.readyQ, t.value);
    }
  }

  lemma DispatchCore(s: State, q: seq<nat>, next: nat)
    requires Core(s) && next in s.tcb && s.current != Some(next) && (next in s.readyQ || next == s.idle)
    requires Distinct(q) && forall x :: x in q <==> x in s.readyQ && x != next
    ensures Inv(Dispatch(s.(readyQ := q), next)) && Dispatch(s.(readyQ := q), next).current == Some(next)
    ensures IsRunning(Dispatch(s.(readyQ := q), next), Some(next))
  {
  }

  /** A completed schedule restores the full invariant and leaves a RUNNING current thread. */
  lemma ScheduleInv(policy: Policy, s: State)
    requires Core(s)
    ensures Known(s) && (Target(policy, s).Some? ==> Target(policy, s).value in s.tcb)
    ensures Inv(Schedule(policy, s)) && IsRunning(Schedule(policy, s), Schedule(policy, s).current)
  {
    hide Target, Rest, Dispatch;
    CoreKnown(s);
    TargetIs(policy, s);
    var t := Target(policy, s);
    if t.Some? {
      DispatchCore(s, Rest(policy, s), t.value);
    }
  }

  // ---------------------------------------------------------------- every run

  /**
   Create: thread_create; MakeRunnable: ready from outside; Wake: wake_up; Block: waiting; Exit: zombie up to its
   schedule call; Tick: schedule; Discard: remove_ready of a thread that is then freed; Vanish: a kernel thread
   that frees itself; SetProc: a process state changed elsewhere.
   */
  datatype Op =
    | Create(t: nat, pcb: Option<nat>, prio: nat)
    | MakeRunnable(t: nat)
    | Wake(t: nat)
    | Block
    | Exit
    | Tick
    | Discard(t: nat)
    | Vanish
    | SetProc(p: nat, x: ProcState)

  function Init(idle: nat, prio: nat): State {
    State(map[idle := Tcb(New, None, prio)], [], [], None, idle, map[], None)
  }

  /** ready must not be applied to a READY thread or to the current one. */
  ghost predicate ReadyAllowed(s: State, t: nat) {
    t in s.tcb && s.tcb[t].state != Ready && s.current != Some(t)
  }

  ghost predicate Enabled(s: State, op: Op) {
    match op
    case Create(t, _, _) => t !in s.tcb
    case MakeRunnable(t) => ReadyAllowed(s, t)
    case Wake(t) => t in s.tcb
    case Block => IsRunning(s, s.current) && s.current.value != s.idle
    case Exit => IsRunning(s, s.current) && s.current.value != s.idle
    case Tick => true
    case Discard(t) => t in s.tcb && s.tcb[t].state == Ready && t != s.idle
    case Vanish => IsRunning(s, s.current) && s.current.value != s.idle
    case SetProc(_, _) => true
  }

  /** Everything but the call of schedule. */
  ghost function Prepare(s: State, op: Op): State
    requires Enabled(s, op)
  {
    match op
    case Create(t, pcb, prio) => MakeReady(s.(tcb := s.tcb[t := Tcb(New, pcb, prio)]), t)
    case MakeRunnable(t) => MakeReady(s, t)
    case Wake(t) => WakeUp(s, t)
    case Block => Set(s, s.current.value, Waiting)
    case Exit => Set(s, s.current.value, Zombie).(zombieQ := s.zombieQ + [s.current.value])
    case Tick => s
    case Discard(t) => s.(tcb := s.tcb - {t}, readyQ := Without(s.readyQ, t))
    case Vanish => s.(tcb := s.tcb - {s.current.value}, current := None)
    case SetProc(p, x) => s.(proc := s.proc[p := x])
  }

  ghost function Step(policy: Policy, s: State, op: Op): State
    requires Inv(s) && Enabled(s, op)
  {
    PrepareCore(s, op);
    if op.Block? || op.Tick? then
      ScheduleInv(policy, Prepare(s, op));
      Schedule(policy, Prepare(s, op))
    else Prepare(s, op)
  }

  lemma PrepareCore(s: State, op: Op)
    requires Inv(s) && Enabled(s, op)
    ensures Core(Prepare(s, op)) && (!op.Block? ==> Inv(Prepare(s, op)))
  {
    match op
    case Create(t, pcb, prio) => CreateInv(s, t, pcb, prio);
    case MakeRunnable(t) => ReadyInv(s, t);
    case Wake(t) => WakeInv(s, t);
    case Discard(t) => DiscardInv(s, t);
    case Block =>
    case Exit =>
    case Tick =>
    case Vanish =>
    case SetProc(_, _) =>
  }

  lemma CreateInv(s: State, t: nat, pcb: Option<nat>, prio: nat)
    requires Inv(s) && t !in s.tcb
    ensures Inv(Prepare(s, Create(t, pcb, prio)))
  {
    assert t !in s.readyQ;
  }

  /** Exactly when ready is called for a thread that is neither READY nor current the invariant is kept. */
  lemma ReadyInv(s: State, t: nat)
    requires Inv(s) && t in s.tcb
    ensures Inv(MakeReady(s, t)) <==> ReadyAllowed(s, t)
  {
    var r := MakeReady(s, t);
    if s.tcb[t].state == Ready {
      var i :| 0 <= i < |s.readyQ| && s.readyQ[i] == t;
      assert r.readyQ[i] == t && r.readyQ[|s.readyQ|] == t;
    } else {
      assert t !in s.readyQ;
    }
  }

  lemma WakeInv(s: State, t: nat)
    requires Inv(s) && t in s.tcb
    ensures Inv(WakeUp(s, t))
  {
    if s.tcb[t].state == Waiting {
      ReadyInv(s, t);
    }
  }

  lemma DiscardInv(s: State, t: nat)
    requires Inv(s) && Enabled(s, Discard(t))
    ensures Inv(Prepare(s, Discard(t)))
  {
    hide Without;
    WithoutElements(s.readyQ, t);
  }

  lemma StepInv(policy: Policy, s: State, op: Op)
    requires Inv(s) && Enabled(s, op)
    ensures Inv(Step(policy, s, op))
  {
    hide Core, Schedule, Prepare;
    PrepareCore(s, op);
    if op.Block? || op.Tick? {
      ScheduleInv(policy, Prepare(s, op));
    }
  }

  ghost predicate Possible(policy: Policy, s: State, ops: seq<Op>)
    requires Inv(s)
    decreases |ops|
  {
    ops == [] ||
    (Enabled(s, ops[0]) && (StepInv(policy, s, ops[0]); Possible(policy, Step(policy, s, ops[0]), ops[1..])))
  }

  ghost function After(policy: Policy, s: State, ops: seq<Op>): State
    requires Inv(s) && Possible(policy, s, ops)
    decreases |ops|
  {
    if ops == [] then s else
      StepInv(policy, s, ops[0]);
      After(policy, Step(policy, s, ops[0]), ops[1..])
  }

  lemma {:induction false} RunInv(policy: Policy, s: State, ops: seq<Op>)
    requires Inv(s) && Possible(policy, s, ops)
    ensures Inv(After(policy, s, ops))
    decreases |ops|
  {
    hide Inv, Step, Enabled;
    if ops != [] {
      StepInv(policy, s, ops[0]);
      RunInv(policy, Step(policy, s, ops[0]), ops[1..]);
    }
  }

  lemma InitInv(idle: nat, prio: nat)
    ensures Inv(Init(idle, prio))
  {
  }

  /** Every run from scheduler_init, under either policy. */
  lemma EveryRun(policy: Policy, idle: nat, prio: nat, ops: seq<Op>)
    requires Inv(Init(idle, prio)) && Possible(policy, Init(idle, prio), ops)
    ensures Inv(After(policy, Init(idle, prio), ops))
  {
    hide Inv;
    RunInv(policy, Init(idle, prio), ops);
  }

  // ---------------------------------------------------------------- priorities

  /** No ready thread has a higher priority than the current one. */
  ghost predicate TopPriority(s: State) {
    s.current.Some? && s.current.value in s.tcb &&
    forall i :: 0 <= i < |s.readyQ| ==> s.readyQ[i] in s.tcb && s.tcb[s.readyQ[i]].prio <= s.tcb[s.current.value].prio
  }

  /** What the choice says about the thread that then runs. */
  lemma HighestRuns(s: State)
    requires Core(s) && Known(s)
    ensures var t := Target(Priority, s);
      if t.None? then IsRunning(s, s.current) && Rest(Priority, s) == s.readyQ && TopPriority(s)
      else
        t.value in s.tcb && t != s.current &&
        (forall i :: 0 <= i < |s.readyQ| ==> s.tcb[s.readyQ[i]].prio <= s.tcb[t.value].prio) &&
        (IsRunning(s, s.current) ==> s.tcb[s.current.value].prio <= s.tcb[t.value].prio)
  {
    hide Highest, Without, FirstWith;
    var best := if IsRunning(s, s.current) then s.current else None;
    HighestIs(s, best, s.readyQ);
    TargetIs(Priority, s);
  }

  /** A switch keeps every priority; what is ready afterwards was ready or was running before. */
  lemma SwitchKeeps(s: State, q: seq<nat>, next: nat)
    requires Known(s) && next in s.tcb && (forall x :: x in q ==> x in s.tcb)
    ensures var r := Dispatch(s.(readyQ := q), next);
      r.current == Some(next) && r.tcb.Keys == s.tcb.Keys &&
      (forall x :: x in s.tcb ==> r.tcb[x].prio == s.tcb[x].prio) &&
      r.readyQ == if IsRunning(s, s.current) && s.current.value != s.idle then q + [s.current.value] else q
  {
  }

  /** Fixed priorities: a completed schedule call leaves no ready thread above the one that runs. */
  lemma ScheduleTop(s: State)
    requires Core(s)
    ensures Known(s) && (Target(Priority, s).Some? ==> Target(Priority, s).value in s.tcb)
    ensures TopPriority(Schedule(Priority, s))
  {
    hide Target, Rest, Dispatch, Core, IsRunning;
    ScheduleInv(Priority, s);
    HighestRuns(s);
    var t := Target(Priority, s);
    if t.Some? {
      TargetIs(Priority, s);
      SwitchKeeps(s, Rest(Priority, s), t.value);
      SwitchTop(s, Rest(Priority, s), t.value, Schedule(Priority, s));
    }
  }

  lemma SwitchTop(s: State, q: seq<nat>, next: nat, r: State)
    requires next in s.tcb && forall i :: 0 <= i < |s.readyQ| ==> s.readyQ[i] in s.tcb
    requires forall i :: 0 <= i < |s.readyQ| ==> s.tcb[s.readyQ[i]].prio <= s.tcb[next].prio
    requires IsRunning(s, s.current) ==> s.tcb[s.current.value].prio <= s.tcb[next].prio
    requires forall x :: x in q ==> x in s.readyQ
    requires r.current == Some(next) && r.tcb.Keys == s.tcb.Keys
    requires forall x :: x in s.tcb ==> r.tcb[x].prio == s.tcb[x].prio
    requires r.readyQ == if IsRunning(s, s.current) && s.current.value != s.idle then q + [s.current.value] else q
    ensures TopPriority(r)
  {
    forall i | 0 <= i < |r.readyQ|
      ensures r.readyQ[i] in s.tcb && s.tcb[r.readyQ[i]].prio <= s.tcb[next].prio
    {
      if i < |q| {
        assert r.readyQ[i] == q[i] && q[i] in q;
      }
    }
  }

  /** So after every run under fixed priorities that ends with a completed schedule call. */
  lemma {:induction false} EveryPriorityRun(s: State, ops: seq<Op>)
    requires Inv(s) && Possible(Priority, s, ops)
    requires ops != [] && (ops[|ops| - 1].Tick? || ops[|ops| - 1].Block?)
    ensures TopPriority(After(Priority, s, ops))
    decreases |ops|
  {
    hide Inv, Core, Prepare, Schedule, Enabled, TopPriority;
    StepInv(Priority, s, ops[0]);
    if |ops| == 1 {
      PrepareCore(s, ops[0]);
      ScheduleTop(Prepare(s, ops[0]));
      assert ops[1..] == [];
    } else {
      EveryPriorityRun(Step(Priority, s, ops[0]), ops[1..]);
    }
  }

  // ---------------------------------------------------------------- ready on the current thread

  /** Made ready while it is current, t would be chosen again: no one before it in the queue runs first. */
  ghost predicate ChosenAgain(policy: Policy, s: State, t: nat)
    requires t in s.tcb
  {
    match policy
    case RoundRobin => Runnable(s, t) && forall i :: 0 <= i < |s.readyQ| ==> !Runnable(s, s.readyQ[i])
    case Priority => forall i :: 0 <= i < |s.readyQ| ==> s.readyQ[i] in s.tcb && s.tcb[s.readyQ[i]].prio < s.tcb[t].prio
  }

  lemma {:induction false} FirstAfter(s: State, q: seq<nat>, t: nat)
    ensures FirstRunnable(s, q + [t]) ==
      if FirstRunnable(s, q).Some? then FirstRunnable(s, q) else if Runnable(s, t) then Some(t) else None
  {
    if q == [] {
      assert q + [t] == [t] && [t][1..] == [];
    } else {
      assert (q + [t])[1..] == q[1..] + [t];
      FirstAfter(s, q[1..], t);
    }
  }

  lemma {:induction false} HighestAfter(s: State, best: Option<nat>, q: seq<nat>, t: nat)
    requires (best.Some? ==> best.value in s.tcb) && t in s.tcb && forall i :: 0 <= i < |q| ==> q[i] in s.tcb
    ensures var h := Highest(s, best, q);
      h.Some? ==> h.value in s.tcb
    ensures var h := Highest(s, best, q);
      Highest(s, best, q + [t]) == if h.None? || s.tcb[t].prio > s.tcb[h.value].prio then Some(t) else h
    decreases |q|
  {
    if q == [] {
      assert q + [t] == [t] && [t][1..] == [];
    } else {
      assert (q + [t])[0] == q[0] && (q + [t])[1..] == q[1..] + [t];
      HighestAfter(s, if best.None? || s.tcb[q[0]].prio > s.tcb[best.value].prio then Some(q[0]) else best, q[1..], t);
    }
  }

  /** Who is runnable and who has which priority does not depend on thread states. */
  lemma {:induction false} SameChoice(s: State, r: State, best: Option<nat>, q: seq<nat>)
    requires s.tcb.Keys == r.tcb.Keys && s.proc == r.proc
    requires forall u :: u in s.tcb ==> r.tcb[u].pcb == s.tcb[u].pcb && r.tcb[u].prio == s.tcb[u].prio
    requires (best.Some? ==> best.value in s.tcb) && forall i :: 0 <= i < |q| ==> q[i] in s.tcb
    ensures FirstRunnable(r, q) == FirstRunnable(s, q) && Highest(r, best, q) == Highest(s, best, q)
    decreases |q|
  {
    if q != [] {
      SameChoice(s, r, if best.None? || s.tcb[q[0]].prio > s.tcb[best.value].prio then Some(q[0]) else best, q[1..]);
    }
  }

  /** Whom next_thread answers after ready on the current thread. */
  lemma NextAfterReady(policy: Policy, s: State, t: nat)
    requires Inv(s) && s.current == Some(t)
    ensures Known(MakeReady(s, t)) && (Next(policy, MakeReady(s, t)) == Some(t) <==> ChosenAgain(policy, s, t))
  {
    hide FirstRunnable, Highest, Runnable, Chosen;
    var r := MakeReady(s, t);
    CoreKnown(s);
    assert Known(r);
    assert t !in s.readyQ;
    SameChoice(s, r, None, r.readyQ);
    match policy
    case RoundRobin =>
      FirstAfter(s, s.readyQ, t);
      FirstRunnableIs(s, s.readyQ);
    case Priority =>
      HighestAfter(s, None, s.readyQ, t);
      HighestIs(s, None, s.readyQ);
      ChosenParts(s, s.readyQ, Highest(s, None, s.readyQ));
  }

  lemma ChosenParts(s: State, q: seq<nat>, t: Option<nat>)
    requires Chosen(s, None, q, t)
    ensures if t.None? then q == []
      else
        t.value in q && t.value in s.tcb &&
        forall i :: 0 <= i < |q| ==> q[i] in s.tcb && s.tcb[q[i]].prio <= s.tcb[t.value].prio
  {
  }

  /** ready on the current thread, then schedule: exactly if it is chosen again it ends READY in no queue. */
  lemma ReadyOnCurrent(policy: Policy, s: State, t: nat)
    requires Inv(s) && s.current == Some(t)
    ensures var r := MakeReady(s, t);
      Known(r) && (Target(policy, r).Some? ==> Target(policy, r).value in r.tcb) &&
      (Inv(Schedule(policy, r)) <==> !ChosenAgain(policy, s, t)) &&
      (ChosenAgain(policy, s, t) ==> Schedule(policy, r).tcb[t].state == Ready && t !in Schedule(policy, r).readyQ)
  {
    hide FirstRunnable, Highest, Runnable, ChosenAgain;
    var r := MakeReady(s, t);
    NextAfterReady(policy, s, t);
    ReadyTwice(s, t);
    NextIsQueued(policy, r);
    if Next(policy, r) == Some(t) {
      WithoutElements(r.readyQ, t);
    } else {
      OtherDispatched(policy, r, t);
    }
  }

  lemma ReadyTwice(s: State, t: nat)
    requires Inv(s) && s.current == Some(t)
    ensures var r := MakeReady(s, t); QueueRight(r) && OneRunning(r) && t in r.readyQ && !IsRunning(r, r.current)
  {
    assert t !in s.readyQ;
  }

  lemma NextAlone(policy: Policy, s: State, t: nat)
    requires Known(s) && s.current == None && s.readyQ == [t] && t in s.tcb && s.tcb[t].pcb == None
    ensures Next(policy, s) == Some(t)
  {
    match policy
    case RoundRobin => assert FirstRunnable(s, [t]) == Some(t);
    case Priority =>
      assert [t][1..] == [];
      assert Highest(s, Some(t), []) == Some(t);
  }

  /** The failing case arises: one thread created and dispatched, alone. */
  lemma ChosenAgainArises(policy: Policy, idle: nat, prio: nat, t: nat, p: nat)
    requires t != idle
    ensures var ops := [Create(t, None, p), Tick];
      Inv(Init(idle, prio)) && Possible(policy, Init(idle, prio), ops) &&
      var s := After(policy, Init(idle, prio), ops);
      s.current == Some(t) && t in s.tcb && ChosenAgain(policy, s, t)
  {
    hide Possible, After;
    var s0, create := Init(idle, prio), Create(t, None, p);
    InitInv(idle, prio);
    StepInv(policy, s0, create);
    var s1 := Step(policy, s0, create);
    StepInv(policy, s1, Tick);
    TickAlone(policy, s1, t);
    TwoSteps(policy, s0, create, Tick);
  }

  lemma TickAlone(policy: Policy, s: State, t: nat)
    requires Inv(s) && s.current == None && s.readyQ == [t] && t in s.tcb && s.tcb[t].pcb == None
    ensures var r := Step(policy, s, Tick); r.current == Some(t) && t in r.tcb && ChosenAgain(policy, r, t)
  {
    hide Next;
    CoreKnown(s);
    NextAlone(policy, s, t);
    assert s.readyQ[1..] == [];
  }

  lemma TwoSteps(policy: Policy, s: State, a: Op, b: Op)
    requires Inv(s) && Enabled(s, a) && Inv(Step(policy, s, a)) && Enabled(Step(policy, s, a), b)
    ensures Possible(policy, s, [a, b])
    ensures After(policy, s, [a, b]) == Step(policy, Step(policy, s, a), b)
  {
    hide Inv, Step, Enabled;
    StepInv(policy, s, a);
    var r := Step(policy, s, a);
    StepInv(policy, r, b);
    assert [a, b][1..] == [b] && [b][1..] == [];
    assert Possible(policy, Step(policy, r, b), []);
    assert Possible(policy, r, [b]);
    assert After(policy, Step(policy, r, b), []) == Step(policy, r, b);
    assert After(policy, r, [b]) == Step(policy, r, b);
  }

  lemma NextIsQueued(policy: Policy, r: State)
    requires Known(r) && QueueRight(r) && !IsRunning(r, r.current)
    ensures Next(policy, r).Some? ==> Next(policy, r).value in r.readyQ && Next(policy, r).value in r.tcb
  {
    hide FirstRunnable, Highest, Runnable, Chosen;
    match policy
    case RoundRobin => FirstRunnableIs(r, r.readyQ);
    case Priority =>
      HighestIs(r, None, r.readyQ);
      ChosenParts(r, r.readyQ, Highest(r, None, r.readyQ));
  }

  /** Switching away from a current thread that is READY leaves it in the queue. */
  lemma DispatchFromReady(r: State, q: seq<nat>, next: nat, t: nat)
    requires QueueRight(r) && OneRunning(r) && r.idle in r.tcb && r.tcb[r.idle].pcb.None?
    requires r.current == Some(t) && t in r.readyQ && next in r.tcb && next != t && (next in r.readyQ || next == r.idle)
    requires Distinct(q) && forall x :: x in q <==> x in r.readyQ && x != next
    ensures Inv(Dispatch(r.(readyQ := q), next))
  {
  }

  lemma OtherDispatched(policy: Policy, r: State, t: nat)
    requires Known(r) && QueueRight(r) && OneRunning(r) && r.tcb[r.idle].pcb.None?
    requires r.current == Some(t) && t in r.readyQ && Next(policy, r) != Some(t)
    requires Next(policy, r).Some? ==> Next(policy, r).value in r.readyQ && Next(policy, r).value in r.tcb
    ensures Target(policy, r).Some? && Target(policy, r).value in r.tcb && Inv(Schedule(policy, r))
  {
    hide FirstRunnable, Highest, Without, OneRunning, Dispatch;
    var u := Next(policy, r);
    assert !IsRunning(r, r.current);
    if u.Some? {
      WithoutElements(r.readyQ, u.value);
      DispatchFromReady(r, Rest(policy, r), u.value, t);
    } else {
      NobodyRunnable(policy, r);
      DispatchFromReady(r, r.readyQ, r.idle, t);
    }
  }

  /** With no thread to choose, the idle thread is not in the queue. */
  lemma NobodyRunnable(policy: Policy, r: State)
    requires Known(r) && QueueRight(r) && r.tcb[r.idle].pcb.None? && Next(policy, r).None?
    ensures r.idle !in r.readyQ
  {
    hide FirstRunnable, Highest, Chosen;
    match policy
    case RoundRobin =>
      FirstRunnableIs(r, r.readyQ);
      assert Runnable(r, r.idle);
    case Priority =>
      var best := if IsRunning(r, r.current) then r.current else None;
      HighestIs(r, best, r.readyQ);
      EmptyQueue(r, best, r.readyQ, Highest(r, best, r.readyQ));
  }

  lemma EmptyQueue(s: State, best: Option<nat>, q: seq<nat>, t: Option<nat>)
    requires Chosen(s, best, q, t) && t.None?
    ensures q == []
  {
  }

  // ---------------------------------------------------------------- round robin dispatches every ready thread

  lemma {:induction false} IndexWithout(q: seq<nat>, t: nat, u: nat)
    requires t in q && t != u
    ensures t in Without(q, u) && IndexOf(Without(q, u), t) <= IndexOf(q, t)
  {
    if q[0] == u {
      assert q == [u] + q[1..];
    } else if q[0] != t {
      IndexWithout(q[1..], t, u);
      assert Without(q, u)[1..] == Without(q[1..], u);
    }
  }

  /** The first runnable thread is t itself or stands before it. */
  lemma {:induction false} FirstBefore(s: State, q: seq<nat>, t: nat)
    requires t in q && Runnable(s, t)
    ensures var u := FirstRunnable(s, q);
      u.Some? && (u.value != t ==> t in Without(q, u.value) && IndexOf(Without(q, u.value), t) < IndexOf(q, t))
  {
    if Runnable(s, q[0]) {
      if q[0] != t {
        assert q == [q[0]] + q[1..];
      }
    } else {
      FirstBefore(s, q[1..], t);
      var u := FirstRunnable(s, q[1..]).value;
      FirstRunnableIs(s, q[1..]);
      if u != t {
        assert Without(q, u) == [q[0]] + Without(q[1..], u);
        assert Without(q, u)[1..] == Without(q[1..], u);
      }
    }
  }

  /** A completed schedule call dispatches t or moves it up. */
  lemma ScheduleAdvances(s: State, t: nat)
    requires Core(s) && t in s.readyQ && Runnable(s, t) && Known(s)
    requires Target(RoundRobin, s).Some? ==> Target(RoundRobin, s).value in s.tcb
    ensures var r := Schedule(RoundRobin, s);
      r.current == Some(t) || (t in r.readyQ && IndexOf(r.readyQ, t) < IndexOf(s.readyQ, t))
  {
    hide Runnable, FirstRunnable, Without, IndexOf;
    FirstBefore(s, s.readyQ, t);
    FirstRunnableIs(s, s.readyQ);
    var u := FirstRunnable(s, s.readyQ);
    var q := Without(s.readyQ, u.value);
    assert Target(RoundRobin, s) == u by {
      assert u.value in s.readyQ;
    }
    if u.value != t && IsRunning(s, s.current) {
      IndexAppend(q, t, s.current.value);
    }
  }

  /** The steps that end with a completed schedule call. */
  predicate Schedules(op: Op) {
    op.Block? || op.Tick?
  }

  /** Any other step leaves t in the queue, no further back; its process need not change. */
  lemma StepAdvances(s: State, op: Op, t: nat)
    requires Inv(s) && Enabled(s, op) && op != Discard(t) && t in s.readyQ && Runnable(s, t)
    ensures var r := Step(RoundRobin, s, op);
      r.current == Some(t) ||
      (t in r.readyQ && IndexOf(r.readyQ, t) <= IndexOf(s.readyQ, t) - if Schedules(op) then 1 else 0)
  {
    hide IndexOf, Without, Schedule;
    var p := Prepare(s, op);
    PrepareCore(s, op);
    match op
    case Create(u, _, _) => IndexAppend(s.readyQ, t, u);
    case MakeRunnable(u) => IndexAppend(s.readyQ, t, u);
    case Wake(u) => IndexAppend(s.readyQ, t, u);
    case Discard(u) => IndexWithout(s.readyQ, t, u);
    case Block =>
      ScheduleInv(RoundRobin, p);
      ScheduleAdvances(p, t);
    case Tick =>
      ScheduleInv(RoundRobin, p);
      ScheduleAdvances(p, t);
    case Exit =>
    case Vanish =>
    case SetProc(_, _) =>
  }

  /** Until it gets the CPU, t's process is runnable and t is not discarded. */
  ghost predicate StaysRunnable(s: State, ops: seq<Op>, t: nat)
    requires Inv(s) && Possible(RoundRobin, s, ops)
    decreases |ops|
  {
    s.current == Some(t) ||
    (Runnable(s, t) && (ops == [] || (ops[0] != Discard(t) &&
      (StepInv(RoundRobin, s, ops[0]); StaysRunnable(Step(RoundRobin, s, ops[0]), ops[1..], t)))))
  }

  /** t gets the CPU somewhere along the run. */
  ghost predicate GetsCpu(s: State, ops: seq<Op>, t: nat)
    requires Inv(s) && Possible(RoundRobin, s, ops)
    decreases |ops|
  {
    s.current == Some(t) ||
    (ops != [] && (StepInv(RoundRobin, s, ops[0]); GetsCpu(Step(RoundRobin, s, ops[0]), ops[1..], t)))
  }

  function Completed(ops: seq<Op>): nat {
    if ops == [] then 0 else (if Schedules(ops[0]) then 1 else 0) + Completed(ops[1..])
  }

  /**
   Round robin: a ready thread at position i gets the CPU within i + 1 completed schedule calls, whatever else
   happens.
   */
  lemma {:induction false} Dispatched(s: State, ops: seq<Op>, t: nat)
    requires Inv(s) && Possible(RoundRobin, s, ops) && t in s.readyQ && StaysRunnable(s, ops, t)
    requires Completed(ops) > IndexOf(s.readyQ, t)
    ensures GetsCpu(s, ops, t)
    decreases |ops|
  {
    hide Inv, Step, Enabled, IndexOf, Runnable;
    if s.current != Some(t) {
      StepInv(RoundRobin, s, ops[0]);
      StepAdvances(s, ops[0], t);
      var r := Step(RoundRobin, s, ops[0]);
      if r.current != Some(t) {
        Dispatched(r, ops[1..], t);
      }
    }
  }

  /** Switching processes never makes a runnable thread unrunnable. */
  lemma SwitchKeepsRunnable(s: State, prev: Option<nat>, next: nat, t: nat)
    requires next in s.tcb && (prev.Some? ==> prev.value in s.tcb) && Runnable(s, t)
    ensures Runnable(SwitchSpace(s, prev, next), t)
  {
  }

  lemma ScheduleKeepsRunnable(policy: Policy, s: State, t: nat)
    requires Known(s) && (Target(policy, s).Some? ==> Target(policy, s).value in s.tcb) && Runnable(s, t)
    ensures Runnable(Schedule(policy, s), t)
  {
    hide SwitchSpace, Target, Rest;
    var u := Target(policy, s);
    if u.Some? && u != s.current {
      var r := s.(readyQ := Rest(policy, s));
      var s1 := if IsRunning(r, r.current) && r.current.value != r.idle then MakeReady(r, r.current.value) else r;
      SwitchKeepsRunnable(Set(s1, u.value, Running).(current := u), s.current, u.value, t);
    }
  }

  /** op does not take t's process out of the runnable states, nor t out of the queue. */
  ghost predicate Spares(s: State, op: Op, t: nat) {
    op != Discard(t) &&
    (op.SetProc? && t in s.tcb && s.tcb[t].pcb == Some(op.p) ==> op.x == ProcReady || op.x == ProcRunning)
  }

  lemma StepKeepsRunnable(s: State, op: Op, t: nat)
    requires Inv(s) && Enabled(s, op) && Spares(s, op, t) && t in s.readyQ && Runnable(s, t)
    ensures Runnable(Step(RoundRobin, s, op), t)
  {
    hide Schedule, Without;
    var p := Prepare(s, op);
    PrepareCore(s, op);
    assert s.tcb[t].state == Ready;
    assert Runnable(p, t);
    if op.Block? || op.Tick? {
      ScheduleInv(RoundRobin, p);
      ScheduleKeepsRunnable(RoundRobin, p, t);
    }
  }

  /** Along the run, until t gets the CPU, every step spares it. */
  ghost predicate Spared(s: State, ops: seq<Op>, t: nat)
    requires Inv(s) && Possible(RoundRobin, s, ops)
    decreases |ops|
  {
    s.current == Some(t) || ops == [] ||
    (Spares(s, ops[0], t) && (StepInv(RoundRobin, s, ops[0]); Spared(Step(RoundRobin, s, ops[0]), ops[1..], t)))
  }

  /** So the process stays runnable by itself: only a change of its state from outside can stop it. */
  lemma {:induction false} SparedStaysRunnable(s: State, ops: seq<Op>, t: nat)
    requires Inv(s) && Possible(RoundRobin, s, ops) && t in s.readyQ && Runnable(s, t) && Spared(s, ops, t)
    ensures StaysRunnable(s, ops, t)
    decreases |ops|
  {
    hide Inv, Step, Enabled, Runnable, IndexOf;
    if s.current != Some(t) && ops != [] {
      StepInv(RoundRobin, s, ops[0]);
      StepKeepsRunnable(s, ops[0], t);
      StepAdvances(s, ops[0], t);
      var r := Step(RoundRobin, s, ops[0]);
      if r.current != Some(t) {
        SparedStaysRunnable(r, ops[1..], t);
      }
    }
  }

  // ---------------------------------------------------------------- the scheduler itself

  lemma {:induction false} WithoutAt(q: seq<nat>, i: nat)
    requires i < |q| && q[i] !in q[..i]
    ensures Without(q, q[i]) == q[..i] + q[i + 1..]
    decreases i
  {
    if i > 0 {
      assert q[0] in q[..i];
      assert q[1..][..i - 1] == q[..i][1..];
      WithoutAt(q[1..], i - 1);
      assert q[..i] == [q[0]] + q[1..i];
    }
  }

  class Scheduler {
    var tcb: map<nat, Tcb>
    var readyThreads: seq<nat>
    var zombieThreads: seq<nat>
    var current: Option<nat>
    var idle: nat
    var proc: map<nat, ProcState>
    var space: Option<nat>

    ghost function Snapshot(): State
      reads this
    {
      State(tcb, readyThreads, zombieThreads, current, idle, proc, space)
    }

    /** scheduler_init: the idle thread exists but is not in the ready queue. */
    constructor (idle: nat, prio: nat)
      ensures Snapshot() == Init(idle, prio) && Inv(Snapshot())
    {
      this.idle := idle;
      tcb, readyThreads, zombieThreads, current := map[idle := Tcb(New, None, prio)], [], [], None;
      proc, space := map[], None;
      new;
      InitInv(idle, prio);
    }

    method SetState(t: nat, x: ThreadState)
      requires t in tcb
      modifies this`tcb
      ensures Snapshot() == Set(old(Snapshot()), t, x)
    {
      tcb := tcb[t := tcb[t].(state := x)];
    }

    /** ready. */
    method MakeReadyNow(t: nat)
      requires t in tcb
      modifies this`tcb, this`readyThreads
      ensures Snapshot() == MakeReady(old(Snapshot()), t)
    {
      SetState(t, Ready);
      readyThreads := readyThreads + [t];
    }

    /** wake_up. */
    method WakeUpNow(t: nat)
      requires t in tcb && Inv(Snapshot())
      modifies this`tcb, this`readyThreads
      ensures Snapshot() == WakeUp(old(Snapshot()), t) && Inv(Snapshot())
    {
      WakeInv(Snapshot(), t);
      if tcb[t].state == Waiting {
        MakeReadyNow(t);
      }
    }

    /** remove_ready; bug tells that the thread was not found. */
    method RemoveReady(t: nat) returns (bug: bool)
      modifies this`readyThreads
      ensures bug == (t !in old(readyThreads))
      ensures readyThreads == if bug then old(readyThreads) else Without(old(readyThreads), t)
    {
      var i := 0;
      while i < |readyThreads|
        invariant i <= |readyThreads| && readyThreads == old(readyThreads) && t !in readyThreads[..i]
      {
        if readyThreads[i] == t {
          WithoutAt(readyThreads, i);
          readyThreads := readyThreads[..i] + readyThreads[i + 1..];
          return false;
        }
        i := i + 1;
      }
      bug := true;
    }

    /** next_thread under CONFIG_SCHED_RR. */
    method NextRoundRobin() returns (t: Option<nat>)
      requires Core(Snapshot()) && Known(Snapshot())
      modifies this`readyThreads
      ensures t == Next(RoundRobin, old(Snapshot())) && readyThreads == Rest(RoundRobin, old(Snapshot()))
    {
      hide Core, Without;
      ghost var s := Snapshot();
      var i := 0;
      while i < |readyThreads|
        invariant i <= |readyThreads| && readyThreads == s.readyQ
        invariant FirstRunnable(s, s.readyQ) == FirstRunnable(s, s.readyQ[i..])
      {
        var u := readyThreads[i];
        assert s.readyQ[i..][0] == u && s.readyQ[i..][1..] == s.readyQ[i + 1..];
        var p := tcb[u].pcb;
        if p.None? || (p.value in proc && (proc[p.value] == ProcReady || proc[p.value] == ProcRunning)) {
          var bug := RemoveReady(u);
          return Some(u);
        }
        i := i + 1;
      }
      t := None;
    }

    /** next_thread under CONFIG_SCHED_PRIO. */
    method NextPriority() returns (t: Option<nat>)
      requires Core(Snapshot()) && Known(Snapshot())
      modifies this`readyThreads
      ensures t == Next(Priority, old(Snapshot())) && readyThreads == Rest(Priority, old(Snapshot()))
    {
      hide Core, Without, Chosen;
      ghost var s := Snapshot();
      var running := if current.Some? && tcb[current.value].state == Running then current else None;
      t := running;
      var i := 0;
      while i < |readyThreads|
        invariant i <= |readyThreads| && readyThreads == s.readyQ && (t.Some? ==> t.value in tcb)
        invariant Highest(s, running, s.readyQ) == Highest(s, t, s.readyQ[i..])
      {
        var u := readyThreads[i];
        assert s.readyQ[i..][0] == u && s.readyQ[i..][1..] == s.readyQ[i + 1..];
        if t.None? || tcb[u].prio > tcb[t.value].prio {
          t := Some(u);
        }
        i := i + 1;
      }
      HighestIs(s, running, s.readyQ);
      ChosenFrom(s, running, s.readyQ, t);
      if t != running {
        var bug := RemoveReady(t.value);
      }
    }

    /** A completed call of schedule. */
    method ScheduleNow(policy: Policy)
      requires Core(Snapshot())
      modifies this
      ensures Known(old(Snapshot())) &&
        (Target(policy, old(Snapshot())).Some? ==> Target(policy, old(Snapshot())).value in old(tcb))
      ensures Snapshot() == Schedule(policy, old(Snapshot())) && Inv(Snapshot())
    {
      hide Core, Inv, FirstRunnable, Highest, Without, Known;
      ghost var s := Snapshot();
      CoreKnown(s);
      ScheduleInv(policy, s);
      KnownParts(s);
      var prev := current;
      var next;
      if policy == RoundRobin {
        next := NextRoundRobin();
      } else {
        next := NextPriority();
      }
      if next.None? && (prev.None? || tcb[prev.value].state != Running) {
        next := Some(idle);
      }
      if next.Some? && next != prev {
        SwitchTo(prev, next.value);
      }
    }

    /** The context switch of schedule. */
    method SwitchTo(prev: Option<nat>, next: nat)
      requires next in tcb && prev == current && (prev.Some? ==> prev.value in tcb)
      modifies this
      ensures Snapshot() == Dispatch(old(Snapshot()), next)
    {
      hide SwitchSpace;
      if prev.Some? && tcb[prev.value].state == Running && prev.value != idle {
        MakeReadyNow(prev.value);
      }
      SetState(next, Running);
      current := Some(next);
      SwitchProcess(prev, next);
    }

    /** Under CONFIG_MMU: the process of the next thread gets its page table. */
    method SwitchProcess(prev: Option<nat>, next: nat)
      requires next in tcb && (prev.Some? ==> prev.value in tcb)
      modifies this`proc, this`space
      ensures Snapshot() == SwitchSpace(old(Snapshot()), prev, next)
    {
      var p := tcb[next].pcb;
      if p.Some? && p != space {
        proc := proc[p.value := ProcRunning];
        if prev.Some? {
          var q := tcb[prev.value].pcb;
          if q.Some? && q.value in proc && proc[q.value] != ProcZombie && proc[q.value] != ProcWaiting {
            proc := proc[q.value := ProcReady];
          }
        }
        space := p;
      }
    }

    /** waiting. */
    method WaitNow(policy: Policy)
      requires Inv(Snapshot()) && Enabled(Snapshot(), Block)
      modifies this
      ensures Snapshot() == Step(policy, old(Snapshot()), Block) && Inv(Snapshot())
    {
      hide Inv, Core, Schedule;
      PrepareCore(Snapshot(), Block);
      SetState(current.value, Waiting);
      ScheduleNow(policy);
    }

    /** zombie, up to its call of schedule. */
    method ZombieNow()
      requires Inv(Snapshot()) && Enabled(Snapshot(), Exit)
      modifies this
      ensures Snapshot() == Prepare(old(Snapshot()), Exit) && Inv(Snapshot())
    {
      hide Inv;
      PrepareCore(Snapshot(), Exit);
      SetState(current.value, Zombie);
      zombieThreads := zombieThreads + [current.value];
    }
  }

  lemma KnownParts(s: State)
    requires Known(s)
    ensures s.idle in s.tcb && (s.current.Some? ==> s.current.value in s.tcb)
  {
  }

  lemma ChosenFrom(s: State, best: Option<nat>, q: seq<nat>, t: Option<nat>)
    requires Chosen(s, best, q, t)
    ensures t == best || (t.Some? && t.value in q)
  {
  }
}
