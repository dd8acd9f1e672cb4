/**
 Deferred interrupt processing of so3/devices/irq.c: interrupts, the bottom-half workers they start
 and their deferred_pending and thread_active flags, as interleaved steps on one CPU.
 */
module BottomHalf {
  import opened Queues

  /** Where a worker is in __irq_deferred_fn. */
  datatype Pc =
    | Entry     // about to test deferred_pending for the first time, interrupts on
    | Loaded    // found it set, about to clear it
    | Cleared   // about to enable interrupts
    | Calling   // about to call the deferred function
    | Running   // in the deferred function
    | Checking  // back with interrupts off, about to test deferred_pending again
    | Leaving   // found it clear, about to reset thread_active
    | Left      // about to enable interrupts
    | Done

  datatype Worker = Worker(irq: nat, pc: Pc)

  /**
   Per interrupt: the two flags; the worker that runs under thread_active; how many times the top half
   asked for a bottom half; how many of those came before the latest start of the deferred function.
   masked is the worker that has interrupts off.
   */
  datatype State = State(pending: seq<bool>, active: seq<bool>, owner: seq<Option<nat>>, raises: seq<nat>,
                         served: seq<nat>, workers: map<nat, Worker>, masked: Option<nat>)

  datatype Op = Raise(irq: nat, tid: nat) | Work(id: nat)

  // ---------------------------------------------------------------- steps

  ghost predicate Shaped(s: State) {
    |s.pending| == |s.active| == |s.owner| == |s.raises| == |s.served|
  }

  function Init(n: nat): State {
    State(seq(n, _ => false), seq(n, _ => false), seq(n, _ => None), seq(n, _ => 0), seq(n, _ => 0), map[], None)
  }

  /** With interrupts off only the worker that turned them off makes progress. */
  ghost predicate Enabled(s: State, op: Op) {
    Shaped(s) &&
    match op
    case Raise(irq, tid) => irq < |s.pending| && s.masked == None && tid !in s.workers
    case Work(id) =>
      id in s.workers && s.workers[id].irq < |s.pending| && s.workers[id].pc != Done &&
      (s.masked == None || s.masked == Some(id))
  }

  /** irq_process, when the top half answers IRQ_BOTTOM and a deferred function is bound. */
  ghost function RaiseStep(s: State, irq: nat, tid: nat): State
    requires Enabled(s, Raise(irq, tid))
  {
    var r := s.(pending := s.pending[irq := true], raises := s.raises[irq := s.raises[irq] + 1]);
    if s.active[irq] then r
    else r.(active := s.active[irq := true], owner := s.owner[irq := Some(tid)],
            workers := s.workers[tid := Worker(irq, Entry)])
  }

  ghost function MoveTo(s: State, id: nat, pc: Pc): State
    requires id in s.workers
  {
    s.(workers := s.workers[id := s.workers[id].(pc := pc)])
  }

  /** The next step of a worker. */
  ghost function WorkStep(s: State, id: nat): State
    requires Enabled(s, Work(id))
  {
    var irq := s.workers[id].irq;
    match s.workers[id].pc
    case Entry => MoveTo(s, id, if s.pending[irq] then Loaded else Leaving)
    case Loaded => MoveTo(s, id, Cleared).(pending := s.pending[irq := false])
    case Cleared => MoveTo(s, id, Calling).(masked := None)
    case Calling => MoveTo(s, id, Running).(served := s.served[irq := s.raises[irq]])
    case Running => MoveTo(s, id, Checking).(masked := Some(id))
    case Checking => MoveTo(s, id, if s.pending[irq] then Loaded else Leaving)
    case Leaving => MoveTo(s, id, Left).(active := s.active[irq := false], owner := s.owner[irq := None])
    case Left => MoveTo(s, id, Done).(masked := None)
  }

  ghost function Step(s: State, op: Op): State
    requires Enabled(s, op)
  {
    match op
    case Raise(irq, tid) => RaiseStep(s, irq, tid)
    case Work(id) => WorkStep(s, id)
  }

  // ---------------------------------------------------------------- what every step keeps

  /** A worker that has not yet reset thread_active. */
  ghost predicate Live(s: State, id: nat) {
    id in s.workers && s.workers[id].pc != Left && s.workers[id].pc != Done
  }

  /** Live workers and thread_active flags correspond one to one. */
  ghost predicate Paired(s: State)
    requires Shaped(s)
  {
    (forall id :: Live(s, id) ==> s.workers[id].irq < |s.owner| && s.owner[s.workers[id].irq] == Some(id)) &&
    (forall i :: 0 <= i < |s.owner| ==> (s.active[i] <==> s.owner[i].Some?)) &&
    (forall i :: 0 <= i < |s.owner| && s.owner[i].Some? ==>
      Live(s, s.owner[i].value) && s.workers[s.owner[i].value].irq == i)
  }

  predicate MayMask(pc: Pc) {
    pc.Checking? || pc.Loaded? || pc.Cleared? || pc.Leaving? || pc.Left?
  }

  predicate MustMask(pc: Pc) {
    pc.Checking? || pc.Leaving? || pc.Left?
  }

  /** Which program points run with interrupts off. */
  ghost predicate MaskRight(s: State) {
    (forall id :: id in s.workers && MustMask(s.workers[id].pc) ==> s.masked == Some(id)) &&
    (s.masked.Some? ==> s.masked.value in s.workers && MayMask(s.workers[s.masked.value].pc))
  }

  /** A worker that is about to clear the flag finds it set, one about to leave finds it clear. */
  ghost predicate FlagRight(s: State) {
    forall id :: id in s.workers && s.workers[id].irq < |s.pending| ==> FlagAt(s, id)
  }

  ghost predicate FlagAt(s: State, id: nat)
    requires id in s.workers && s.workers[id].irq < |s.pending|
  {
    var w := s.workers[id];
    (w.pc.Entry? || w.pc.Loaded? ==> s.pending[w.irq]) && (w.pc.Leaving? ==> !s.pending[w.irq])
  }

  /** A request not yet served has a worker that will call the deferred function again. */
  ghost predicate Owed(s: State, i: nat)
    requires Shaped(s) && i < |s.pending|
  {
    s.served[i] <= s.raises[i] &&
    (s.pending[i] ==> s.owner[i].Some?) &&
    (s.served[i] < s.raises[i] ==>
      s.owner[i].Some? && s.owner[i].value in s.workers &&
      (s.pending[i] || s.workers[s.owner[i].value].pc.Cleared? || s.workers[s.owner[i].value].pc.Calling?))
  }

  ghost predicate Inv(s: State) {
    Shaped(s) && Paired(s) && MaskRight(s) && FlagRight(s) &&
    (forall id :: id in s.workers ==> s.workers[id].irq < |s.pending|) &&
    (forall i :: 0 <= i < |s.pending| ==> Owed(s, i))
  }

  lemma InitInv(n: nat)
    ensures Inv(Init(n))
  {
  }

  lemma RaisePaired(s: State, irq: nat, tid: nat)
    requires Enabled(s, Raise(irq, tid)) && Paired(s)
    ensures Paired(RaiseStep(s, irq, tid))
  {
    var r := RaiseStep(s, irq, tid);
    assert forall id :: id in s.workers ==> (Live(r, id) <==> Live(s, id));
  }

  lemma RaiseInv(s: State, irq: nat, tid: nat)
    requires Inv(s) && Enabled(s, Raise(irq, tid))
    ensures Inv(RaiseStep(s, irq, tid))
  {
    hide Paired;
    var r := RaiseStep(s, irq, tid);
    RaisePaired(s, irq, tid);
    RaiseKeeps(s, irq);
    forall i | 0 <= i < |s.pending|
      ensures Owed(r, i)
    {
      assert Owed(s, i);
    }
  }

  /** With interrupts on, no worker of an interrupt with thread_active set is about to leave. */
  lemma RaiseKeeps(s: State, irq: nat)
    requires Inv(s) && s.masked == None && irq < |s.pending|
    ensures forall id :: id in s.workers ==> !s.workers[id].pc.Leaving?
    ensures s.active[irq] ==> s.owner[irq].Some? && s.owner[irq].value in s.workers
  {
    assert forall id :: id in s.workers && s.workers[id].pc.Leaving? ==> MustMask(s.workers[id].pc);
  }

  /** r differs from s at most in worker id and the fields of its interrupt. */
  ghost predicate Only(s: State, r: State, id: nat)
    requires Shaped(s) && id in s.workers
  {
    Shaped(r) && |r.pending| == |s.pending| && r.workers.Keys == s.workers.Keys &&
    r.workers[id].irq == s.workers[id].irq &&
    (forall j :: j in s.workers && j != id ==> r.workers[j] == s.workers[j]) &&
    (forall i :: 0 <= i < |s.pending| && i != s.workers[id].irq ==> SameAt(s, r, i))
  }

  ghost predicate SameAt(s: State, r: State, i: nat)
    requires Shaped(s) && Shaped(r) && |r.pending| == |s.pending| && i < |s.pending|
  {
    r.pending[i] == s.pending[i] && r.active[i] == s.active[i] && r.owner[i] == s.owner[i] &&
    r.raises[i] == s.raises[i] && r.served[i] == s.served[i]
  }

  lemma WorkOnly(s: State, id: nat)
    requires Enabled(s, Work(id))
    ensures Only(s, WorkStep(s, id), id)
  {
  }

  /** A worker gives up its interrupt exactly on leaving. */
  lemma WorkOwner(s: State, id: nat)
    requires Enabled(s, Work(id))
    ensures Only(s, WorkStep(s, id), id)
    ensures var r, irq := WorkStep(s, id), s.workers[id].irq;
            if s.workers[id].pc.Leaving? then r.owner[irq] == None && !r.active[irq] && !Live(r, id)
            else r.owner[irq] == s.owner[irq] && r.active[irq] == s.active[irq] && (Live(r, id) <==> Live(s, id))
  {
    WorkOnly(s, id);
  }

  lemma WorkPaired(s: State, id: nat)
    requires Enabled(s, Work(id)) && Paired(s)
    ensures Only(s, WorkStep(s, id), id) && Paired(WorkStep(s, id))
  {
    hide WorkStep;
    var r := WorkStep(s, id);
    WorkOwner(s, id);
    assert forall j :: j != id ==> (Live(r, j) <==> Live(s, j));
    forall i | 0 <= i < |s.owner|
      ensures r.active[i] <==> r.owner[i].Some?
      ensures r.owner[i].Some? ==> Live(r, r.owner[i].value) && r.workers[r.owner[i].value].irq == i
    {
      if i != s.workers[id].irq {
        assert SameAt(s, r, i);
      }
    }
    forall j | Live(r, j)
      ensures r.workers[j].irq < |r.owner| && r.owner[r.workers[j].irq] == Some(j)
    {
      assert Live(s, j);
      if r.workers[j].irq != s.workers[id].irq {
        assert SameAt(s, r, r.workers[j].irq);
      }
    }
  }

  lemma WorkMask(s: State, id: nat)
    requires Enabled(s, Work(id)) && MaskRight(s) && FlagRight(s)
    ensures MaskRight(WorkStep(s, id))
  {
  }

  lemma WorkFlag(s: State, id: nat)
    requires Enabled(s, Work(id)) && Paired(s) && FlagRight(s)
    ensures FlagRight(WorkStep(s, id))
  {
    hide WorkStep;
    var r, irq, pc := WorkStep(s, id), s.workers[id].irq, s.workers[id].pc;
    WorkOnly(s, id);
    WorkClears(s, id);
    forall j | j in r.workers && r.workers[j].irq < |r.pending|
      ensures FlagAt(r, j)
    {
      assert j in s.workers && FlagAt(s, j);
      if j != id && r.workers[j].irq != irq {
        assert SameAt(s, r, r.workers[j].irq);
      } else if j != id && pc.Loaded? {
        assert Live(s, id);
        assert Live(s, j) ==> j == id;
      }
    }
  }

  /** The flag of its interrupt is cleared by a worker that found it set, and only then. */
  lemma WorkClears(s: State, id: nat)
    requires Enabled(s, Work(id))
    ensures var r, irq, pc := WorkStep(s, id), s.workers[id].irq, s.workers[id].pc;
            |r.pending| == |s.pending| && id in r.workers && r.workers[id].irq == irq &&
            (r.pending[irq] <==> s.pending[irq] && !pc.Loaded?) && (pc.Loaded? ==> r.workers[id].pc == Cleared) &&
            !r.workers[id].pc.Entry? && (r.workers[id].pc.Loaded? ==> s.pending[irq]) &&
            (r.workers[id].pc.Leaving? ==> !s.pending[irq])
  {
  }

  lemma WorkOwed(s: State, id: nat, i: nat)
    requires Enabled(s, Work(id)) && Paired(s) && FlagRight(s) && i < |s.pending| && Owed(s, i)
    ensures Only(s, WorkStep(s, id), id) && Owed(WorkStep(s, id), i)
  {
    WorkOnly(s, id);
    if i != s.workers[id].irq {
      OwedElsewhere(s, WorkStep(s, id), id, i);
    } else if Live(s, id) {
      assert s.owner[i] == Some(id);
      assert FlagAt(s, id);
      OwedHere(s, id);
    } else {
      OwedGone(s, id);
    }
  }

  lemma OwedElsewhere(s: State, r: State, id: nat, i: nat)
    requires Shaped(s) && Paired(s) && id in s.workers && Only(s, r, id) && i < |s.pending| && i != s.workers[id].irq
    requires Owed(s, i)
    ensures Owed(r, i)
  {
    assert SameAt(s, r, i);
  }

  lemma OwedHere(s: State, id: nat)
    requires Enabled(s, Work(id)) && Live(s, id) && s.owner[s.workers[id].irq] == Some(id) && FlagAt(s, id)
    requires Owed(s, s.workers[id].irq)
    ensures Only(s, WorkStep(s, id), id) && Owed(WorkStep(s, id), s.workers[id].irq)
  {
    WorkOnly(s, id);
  }

  /** A worker that has left changes nothing of its interrupt. */
  lemma OwedGone(s: State, id: nat)
    requires Enabled(s, Work(id)) && Paired(s) && !Live(s, id) && Owed(s, s.workers[id].irq)
    ensures Only(s, WorkStep(s, id), id) && Owed(WorkStep(s, id), s.workers[id].irq)
  {
    WorkOnly(s, id);
  }

  lemma WorkInv(s: State, id: nat)
    requires Inv(s) && Enabled(s, Work(id))
    ensures Inv(WorkStep(s, id))
  {
    hide Paired, MaskRight, FlagRight, Owed, WorkStep;
    WorkPaired(s, id);
    WorkMask(s, id);
    WorkFlag(s, id);
    forall i | 0 <= i < |s.pending|
      ensures Owed(WorkStep(s, id), i)
    {
      WorkOwed(s, id, i);
    }
  }

  lemma StepInv(s: State, op: Op)
    requires Inv(s) && Enabled(s, op)
    ensures Inv(Step(s, op)) && |Step(s, op).pending| == |s.pending|
  {
    match op
    case Raise(irq, tid) => RaiseInv(s, irq, tid);
    case Work(id) => WorkInv(s, id);
  }

  // ---------------------------------------------------------------- every run

  /** ops is an interleaving of interrupts and worker steps possible from s. */
  ghost predicate Possible(s: State, ops: seq<Op>)
    decreases |ops|
  {
    ops == [] || (Enabled(s, ops[0]) && Possible(Step(s, ops[0]), ops[1..]))
  }

  ghost function After(s: State, ops: seq<Op>): State
    requires Possible(s, ops)
    decreases |ops|
  {
    if ops == [] then s else After(Step(s, ops[0]), ops[1..])
  }

  lemma {:induction false} RunInv(s: State, ops: seq<Op>)
    requires Inv(s) && Possible(s, ops)
    ensures Inv(After(s, ops)) && |After(s, ops).pending| == |s.pending|
    decreases |ops|
  {
    hide Inv, Step, Enabled;
    if ops != [] {
      StepInv(s, ops[0]);
      RunInv(Step(s, ops[0]), ops[1..]);
    }
  }

  /** No two workers of one interrupt are live, and without a live worker nothing is pending or unserved. */
  ghost predicate Safe(s: State) {
    Shaped(s) &&
    (forall a, b :: Live(s, a) && Live(s, b) && s.workers[a].irq == s.workers[b].irq ==> a == b) &&
    (forall i :: 0 <= i < |s.pending| && !s.active[i] ==> Quiet(s, i))
  }

  ghost predicate Quiet(s: State, i: nat)
    requires Shaped(s) && i < |s.pending|
  {
    !s.pending[i] && s.served[i] == s.raises[i] && forall id :: Live(s, id) ==> s.workers[id].irq != i
  }

  lemma InvIsSafe(s: State)
    requires Inv(s)
    ensures Safe(s)
  {
    forall i | 0 <= i < |s.pending| && !s.active[i]
      ensures Quiet(s, i)
    {
      assert Owed(s, i);
    }
  }

  lemma EveryRun(n: nat, ops: seq<Op>)
    requires Possible(Init(n), ops)
    ensures Safe(After(Init(n), ops)) && Inv(After(Init(n), ops))
  {
    hide Inv, Safe;
    InitInv(n);
    RunInv(Init(n), ops);
    InvIsSafe(After(Init(n), ops));
  }

  // ---------------------------------------------------------------- every request is served

  /** Steps a worker takes until it has called the deferred function, with the flag set or already cleared. */
  function StepsToCall(pc: Pc): nat {
    match pc
    case Calling => 1
    case Cleared => 2
    case Loaded => 3
    case Entry => 4
    case Checking => 4
    case _ => 5
  }

  /** Steps the worker of interrupt i owes until the first target requests have been served. */
  ghost function Debt(s: State, i: nat, target: nat): nat
    requires Shaped(s) && i < |s.pending|
  {
    if s.served[i] >= target || s.owner[i].None? || s.owner[i].value !in s.workers then 0
    else StepsToCall(s.workers[s.owner[i].value].pc)
  }

  /** r has served the first target requests, or the same worker owes paid steps less. */
  ghost predicate Paid(s: State, r: State, i: nat, target: nat, paid: nat)
    requires Shaped(s) && i < |s.pending|
  {
    Shaped(r) && |r.pending| == |s.pending| && r.raises[i] >= s.raises[i] &&
    (r.served[i] >= target || (r.owner[i] == s.owner[i] && Debt(r, i, target) == Debt(s, i, target) - paid))
  }

  lemma RaisePays(s: State, irq: nat, tid: nat, i: nat, target: nat)
    requires Inv(s) && Enabled(s, Raise(irq, tid)) && i < |s.pending| && target <= s.raises[i] && s.served[i] < target
    ensures Paid(s, RaiseStep(s, irq, tid), i, target, 0)
  {
    hide MaskRight, FlagRight;
    assert Owed(s, i);
  }

  /** The worker a request waits for, and what it finds; no other live worker has to do with the interrupt. */
  lemma Debtor(s: State, i: nat)
    requires Inv(s) && i < |s.pending| && s.served[i] < s.raises[i]
    ensures s.owner[i].Some? && Live(s, s.owner[i].value) && s.workers[s.owner[i].value].irq == i
    ensures var pc := s.workers[s.owner[i].value].pc; pc != Leaving && (pc.Cleared? || pc.Calling? || s.pending[i])
    ensures forall id :: Live(s, id) && s.workers[id].irq == i ==> s.owner[i] == Some(id)
  {
    assert Owed(s, i);
  }

  lemma WorkPays(s: State, id: nat, i: nat, target: nat)
    requires Inv(s) && Enabled(s, Work(id)) && i < |s.pending| && target <= s.raises[i] && s.served[i] < target
    ensures Paid(s, WorkStep(s, id), i, target, if s.owner[i] == Some(id) then 1 else 0)
  {
    hide Inv;
    Debtor(s, i);
  }

  /** Any step leaves the debt or lowers it, and a step of the worker lowers it; meanwhile the worker stays the same. */
  lemma StepPays(s: State, op: Op, i: nat, target: nat)
    requires Inv(s) && Enabled(s, op) && i < |s.pending| && target <= s.raises[i] && s.served[i] < target
    ensures s.owner[i].Some? && s.owner[i].value in s.workers
    ensures Paid(s, Step(s, op), i, target, if op == Work(s.owner[i].value) then 1 else 0)
  {
    hide Inv, Paid, RaiseStep, WorkStep;
    Owner(s, i);
    match op
    case Raise(irq, tid) => RaisePays(s, irq, tid, i, target);
    case Work(id) => WorkPays(s, id, i, target);
  }

  ghost function WorkerSteps(ops: seq<Op>, w: nat): nat {
    if ops == [] then 0 else (if ops[0] == Work(w) then 1 else 0) + WorkerSteps(ops[1..], w)
  }

  lemma {:induction false} ServedStays(s: State, ops: seq<Op>, i: nat, target: nat)
    requires Inv(s) && Possible(s, ops) && i < |s.pending| && s.served[i] >= target
    ensures Shaped(After(s, ops)) && i < |After(s, ops).served| && After(s, ops).served[i] >= target
    decreases |ops|
  {
    if ops != [] {
      assert Owed(s, i);
      ServedGrows(s, ops[0], i);
      StepInv(s, ops[0]);
      ServedStays(Step(s, ops[0]), ops[1..], i, target);
    }
  }

  lemma ServedGrows(s: State, op: Op, i: nat)
    requires Inv(s) && Enabled(s, op) && i < |s.pending|
    ensures i < |Step(s, op).served| && Step(s, op).served[i] >= s.served[i]
  {
    hide Paired, MaskRight, FlagRight;
    assert Owed(s, i);
  }

  /** Whatever is interleaved, after five steps of the worker the deferred function has been started for a request. */
  lemma {:induction false} Served(s: State, ops: seq<Op>, i: nat, target: nat)
    requires Inv(s) && Possible(s, ops) && i < |s.pending| && target <= s.raises[i] && s.served[i] < target
    ensures s.owner[i].Some? && s.owner[i].value in s.workers && Debt(s, i, target) <= 5
    ensures WorkerSteps(ops, s.owner[i].value) >= Debt(s, i, target) ==>
      i < |After(s, ops).served| && After(s, ops).served[i] >= target
    decreases |ops|
  {
    hide Inv, Step, Enabled;
    Owner(s, i);
    if ops != [] {
      var r, w := Step(s, ops[0]), s.owner[i].value;
      StepInv(s, ops[0]);
      StepPays(s, ops[0], i, target);
      if r.served[i] >= target {
        ServedStays(r, ops[1..], i, target);
      } else {
        Served(r, ops[1..], i, target);
      }
    }
  }

  lemma Owner(s: State, i: nat)
    requires Inv(s) && i < |s.pending| && s.served[i] < s.raises[i]
    ensures Shaped(s) && s.owner[i].Some? && s.owner[i].value in s.workers
    ensures s.pending[i] || s.workers[s.owner[i].value].pc.Cleared? || s.workers[s.owner[i].value].pc.Calling?
  {
    assert Owed(s, i);
  }

  // ---------------------------------------------------------------- a worker without new requests leaves

  /** Steps until thread_active is reset, if no further request comes. */
  function StepsToLeave(pc: Pc, pending: bool): nat {
    match pc
    case Left => 0
    case Done => 0
    case Leaving => 1
    case Checking => if pending then 7 else 2
    case Running => if pending then 8 else 3
    case Calling => if pending then 9 else 4
    case Cleared => if pending then 10 else 5
    case Loaded => 6
    case Entry => 7
  }

  /** How far worker w of interrupt i is from leaving. */
  ghost function Distance(s: State, i: nat, w: nat): nat
    requires Shaped(s) && i < |s.pending|
  {
    if w in s.workers then StepsToLeave(s.workers[w].pc, s.pending[i]) else 0
  }

  ghost predicate Requests(op: Op, i: nat) {
    op.Raise? && op.irq == i
  }

  /** A step of the worker brings it one nearer to leaving, another step that is no request leaves the distance. */
  lemma StepNearer(s: State, op: Op, i: nat, w: nat)
    requires Inv(s) && Enabled(s, op) && !Requests(op, i) && i < |s.pending| && w in s.workers && s.workers[w].irq == i
    ensures var r := Step(s, op);
      Shaped(r) && i < |r.pending| && w in r.workers && r.workers[w].irq == i &&
      (Live(s, w) ==> Distance(r, i, w) == Distance(s, i, w) - if op == Work(w) then 1 else 0) &&
      (!Live(s, w) ==> !Live(r, w))
  {
    hide Paired, MaskRight;
    if Live(s, w) {
      OneLive(s, w);
    }
  }

  lemma OneLive(s: State, w: nat)
    requires Inv(s) && Live(s, w)
    ensures forall id :: Live(s, id) && s.workers[id].irq == s.workers[w].irq ==> id == w
  {
  }

  lemma DistanceBound(s: State, i: nat, w: nat)
    requires Inv(s) && i < |s.pending|
    ensures Distance(s, i, w) <= 10 && (w in s.workers && Live(s, w) ==> Distance(s, i, w) > 0)
  {
  }

  /** Without new requests a worker is gone after ten of its steps at the latest, whatever is interleaved. */
  lemma {:induction false} Leaves(s: State, ops: seq<Op>, i: nat, w: nat)
    requires Inv(s) && Possible(s, ops) && i < |s.pending| && w in s.workers && s.workers[w].irq == i
    requires (forall k :: 0 <= k < |ops| ==> !Requests(ops[k], i)) && WorkerSteps(ops, w) >= Distance(s, i, w)
    ensures Distance(s, i, w) <= 10 && !Live(After(s, ops), w)
    decreases |ops|
  {
    hide Inv, Step, Enabled, Live, StepsToLeave, Requests;
    DistanceBound(s, i, w);
    if ops != [] {
      StepInv(s, ops[0]);
      StepNearer(s, ops[0], i, w);
      var r := Step(s, ops[0]);
      if Live(s, w) {
        Leaves(r, ops[1..], i, w);
      } else {
        StaysGone(r, ops[1..], w);
      }
    }
  }

  lemma {:induction false} StaysGone(s: State, ops: seq<Op>, w: nat)
    requires Inv(s) && Possible(s, ops) && w in s.workers && !Live(s, w)
    ensures !Live(After(s, ops), w)
    decreases |ops|
  {
    hide Inv, Enabled, Step, Live;
    if ops != [] {
      StepInv(s, ops[0]);
      GoneStep(s, ops[0], w);
      StaysGone(Step(s, ops[0]), ops[1..], w);
    }
  }

  lemma GoneStep(s: State, op: Op, w: nat)
    requires Inv(s) && Enabled(s, op) && w in s.workers && !Live(s, w)
    ensures w in Step(s, op).workers && !Live(Step(s, op), w)
  {
    hide Inv;
  }

  /** Nothing blocks: with interrupts off the masking worker can move; a live worker can move once they are on. */
  lemma NoDeadlock(s: State, id: nat)
    requires Inv(s) && (if s.masked.Some? then id == s.masked.value else Live(s, id))
    ensures Enabled(s, Work(id))
  {
  }

  // ---------------------------------------------------------------- the requests made and the calls that serve them

  function Raised(ops: seq<Op>, i: nat): nat {
    if ops == [] then 0 else (if ops[0].Raise? && ops[0].irq == i then 1 else 0) + Raised(ops[1..], i)
  }

  /** op is the step in which a worker of interrupt i calls the deferred function. */
  ghost predicate CallsFor(s: State, op: Op, i: nat) {
    op.Work? && op.id in s.workers && s.workers[op.id] == Worker(i, Calling)
  }

  /** A request is counted when it is made; it counts as served only from a call of the deferred function on. */
  lemma StepCounts(s: State, op: Op, i: nat)
    requires Inv(s) && Enabled(s, op) && i < |s.pending|
    ensures var r := Step(s, op);
      |r.raises| == |r.served| == |s.pending| &&
      r.raises[i] == s.raises[i] + (if op.Raise? && op.irq == i then 1 else 0) &&
      r.served[i] == if CallsFor(s, op, i) then s.raises[i] else s.served[i]
  {
    hide Paired, MaskRight, FlagRight, Owed;
    if op.Work? {
      WorkOnly(s, op.id);
      if s.workers[op.id].irq != i {
        assert SameAt(s, Step(s, op), i);
      }
    }
  }

  lemma {:induction false} RunCounts(s: State, ops: seq<Op>, i: nat)
    requires Inv(s) && Possible(s, ops) && i < |s.pending|
    ensures var r := After(s, ops); |r.raises| == |s.pending| && r.raises[i] == s.raises[i] + Raised(ops, i)
    decreases |ops|
  {
    hide Inv, Step, Enabled;
    SameLength(s);
    if ops != [] {
      StepInv(s, ops[0]);
      StepCounts(s, ops[0], i);
      RunCounts(Step(s, ops[0]), ops[1..], i);
    }
  }

  lemma SameLength(s: State)
    requires Inv(s)
    ensures |s.raises| == |s.pending| == |s.served|
  {
  }

  /** In every run from irq_init the requests recorded for an interrupt are those that were made. */
  lemma RequestsCounted(n: nat, ops: seq<Op>, i: nat)
    requires Possible(Init(n), ops) && i < n
    ensures var r := After(Init(n), ops); |r.raises| == n && r.raises[i] == Raised(ops, i)
  {
    hide Inv, After, Possible;
    InitInv(n);
    RunCounts(Init(n), ops, i);
  }

  // ---------------------------------------------------------------- the interrupt descriptors themselves

  class IrqDescriptors {
    var pending: seq<bool>
    var threadActive: seq<bool>
    ghost var owner: seq<Option<nat>>
    ghost var raises: seq<nat>
    ghost var served: seq<nat>
    ghost var workers: map<nat, Worker>
    var irqsOffBy: Option<nat>

    ghost function Snapshot(): State
      reads this
    {
      State(pending, threadActive, owner, raises, served, workers, irqsOffBy)
    }

    /** irq_init. */
    constructor (n: nat)
      ensures Snapshot() == Init(n) && Inv(Snapshot())
    {
      pending, threadActive := seq(n, _ => false), seq(n, _ => false);
      owner, raises, served := seq(n, _ => None), seq(n, _ => 0), seq(n, _ => 0);
      workers, irqsOffBy := map[], None;
      new;
      InitInv(n);
    }

    /** irq_process: bottom tells that the top half answered IRQ_BOTTOM and a deferred function is bound. */
    method Process(irq: nat, bottom: bool, ghost tid: nat) returns (spawned: bool)
      requires Inv(Snapshot()) && Enabled(Snapshot(), Raise(irq, tid))
      modifies this
      ensures Snapshot() == (if bottom then Step(old(Snapshot()), Raise(irq, tid)) else old(Snapshot())) &&
        Inv(Snapshot())
      ensures spawned == (bottom && !old(threadActive)[irq])
    {
      hide Inv;
      spawned := false;
      if bottom {
        StepInv(Snapshot(), Raise(irq, tid));
        pending := pending[irq := true];
        raises := raises[irq := raises[irq] + 1];
        if !threadActive[irq] {
          threadActive := threadActive[irq := true];
          owner := owner[irq := Some(tid)];
          workers := workers[tid := Worker(irq, Entry)];
          spawned := true;
        }
      }
    }

    /** The loop test of __irq_deferred_fn. */
    method TestPending(irq: nat, ghost id: nat) returns (again: bool)
      requires Inv(Snapshot()) && Enabled(Snapshot(), Work(id)) && workers[id].irq == irq
      requires workers[id].pc == Entry || workers[id].pc == Checking
      modifies this
      ensures Snapshot() == Step(old(Snapshot()), Work(id)) && Inv(Snapshot())
      ensures old(workers)[id].pc == Entry ==> again
    {
      assert workers[id].pc == Entry ==> pending[irq];
      StepInv(Snapshot(), Work(id));
      again := pending[irq];
      workers := workers[id := workers[id].(pc := if again then Loaded else Leaving)];
    }

    method ClearPending(irq: nat, ghost id: nat)
      requires Inv(Snapshot()) && Enabled(Snapshot(), Work(id)) && workers[id] == Worker(irq, Loaded)
      modifies this
      ensures Snapshot() == Step(old(Snapshot()), Work(id)) && Inv(Snapshot())
    {
      hide Inv;
      StepInv(Snapshot(), Work(id));
      pending := pending[irq := false];
      workers := workers[id := workers[id].(pc := Cleared)];
    }

    /** local_irq_enable, before the call and at the end. */
    method EnableIrqs(ghost id: nat)
      requires Inv(Snapshot()) && Enabled(Snapshot(), Work(id)) && (workers[id].pc == Cleared || workers[id].pc == Left)
      modifies this
      ensures Snapshot() == Step(old(Snapshot()), Work(id)) && Inv(Snapshot()) && irqsOffBy == None
    {
      hide Inv;
      StepInv(Snapshot(), Work(id));
      irqsOffBy := None;
      workers := workers[id := workers[id].(pc := if workers[id].pc == Cleared then Calling else Done)];
    }

    /** The deferred function starts: every request so far is followed by this call. */
    method CallDeferred(ghost irq: nat, ghost id: nat)
      requires Inv(Snapshot()) && Enabled(Snapshot(), Work(id)) && workers[id] == Worker(irq, Calling)
      modifies this
      ensures Snapshot() == Step(old(Snapshot()), Work(id)) && Inv(Snapshot()) && served[irq] == raises[irq]
    {
      hide Inv;
      StepInv(Snapshot(), Work(id));
      served := served[irq := raises[irq]];
      workers := workers[id := workers[id].(pc := Running)];
    }

    /** The deferred function returns and interrupts go off. */
    method DisableIrqs(id: nat)
      requires Inv(Snapshot()) && Enabled(Snapshot(), Work(id)) && workers[id].pc == Running
      modifies this
      ensures Snapshot() == Step(old(Snapshot()), Work(id)) && Inv(Snapshot())
    {
      hide Inv;
      StepInv(Snapshot(), Work(id));
      irqsOffBy := Some(id);
      workers := workers[id := workers[id].(pc := Checking)];
    }

    /** thread_active goes back to false, with nothing pending and interrupts off. */
    method Leave(irq: nat, ghost id: nat)
      requires Inv(Snapshot()) && Enabled(Snapshot(), Work(id)) && workers[id] == Worker(irq, Leaving)
      modifies this
      ensures Snapshot() == Step(old(Snapshot()), Work(id)) && Inv(Snapshot())
      ensures !pending[irq] && served[irq] == raises[irq] && irqsOffBy == Some(id)
    {
      assert Owed(Snapshot(), irq) && MustMask(workers[id].pc);
      StepInv(Snapshot(), Work(id));
      threadActive := threadActive[irq := false];
      owner := owner[irq := None];
      workers := workers[id := workers[id].(pc := Left)];
    }
  }
}
