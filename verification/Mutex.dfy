/**
 The recursive sleeping mutex of so3/kernel/mutex.c as atomic steps of any number of threads on one
 CPU. A step is a stretch the code runs with interrupts off, or a single atomic write.
 */
module MutexProtocol {
  import opened Queues

  /** Where a thread is with respect to the mutex. */
  datatype Pc =
    | Outside    // in neither function
    | Sleeping   // in mutex_lock, on the wait list, in waiting()
    | Woken      // in mutex_lock, made ready by an unlocker, about to retry
    | Releasing  // in mutex_unlock, about to set count to 1
    | Waking     // in mutex_unlock, about to look at the wait list

  /** The mutex, and for every thread its place and how many of its lock calls are not yet undone. */
  datatype State = State(count: int, owner: Option<nat>, recursive: nat, queue: seq<nat>, pc: map<nat, Pc>,
                         depth: map<nat, nat>)

  datatype Op = Lock(t: nat) | Retry(t: nat) | Unlock(t: nat) | Release(t: nat) | Wake(t: nat)

  // ---------------------------------------------------------------- steps

  function Init(threads: set<nat>): State {
    State(1, None, 0, [], map t | t in threads :: Outside, map t | t in threads :: 0)
  }

  /** Only a thread that holds the mutex unlocks it. */
  predicate Enabled(s: State, op: Op) {
    op.t in s.pc && op.t in s.depth &&
    match op
    case Lock(t) => s.pc[t] == Outside
    case Retry(t) => s.pc[t] == Woken
    case Unlock(t) => s.pc[t] == Outside && s.depth[t] > 0
    case Release(t) => s.pc[t] == Releasing && s.depth[t] > 0
    case Wake(t) => s.pc[t] == Waking
  }

  function Acquire(s: State, t: nat, count: int): State
    requires t in s.depth
  {
    s.(count := count, owner := Some(t), pc := s.pc[t := Outside], depth := s.depth[t := s.depth[t] + 1])
  }

  /** One pass of the for loop of mutex_lock. */
  function Contend(s: State, t: nat): State
    requires t in s.depth
  {
    if s.count == 1 then Acquire(s, t, if s.queue == [] then 0 else -1)
    else s.(count := if s.count >= 0 then -1 else s.count, queue := s.queue + [t], pc := s.pc[t := Sleeping])
  }

  function LockStep(s: State, t: nat): State
    requires t in s.depth
  {
    if s.count == 1 then Acquire(s, t, 0)
    else if s.owner == Some(t) then
      s.(recursive := (s.recursive + 1) % 0x1_0000_0000, depth := s.depth[t := s.depth[t] + 1])
    else Contend(s, t)
  }

  /** One lock call of t undone, if t has any. */
  function Undone(s: State, t: nat): map<nat, nat>
    requires t in s.depth
  {
    s.depth[t := if s.depth[t] > 0 then s.depth[t] - 1 else 0]
  }

  /** mutex_unlock up to its return or to the release; the code does not look at who calls. */
  function UnlockStep(s: State, t: nat): State
    requires t in s.depth
  {
    if s.recursive > 0 then s.(recursive := s.recursive - 1, depth := Undone(s, t))
    else s.(pc := s.pc[t := Releasing])
  }

  function ReleaseStep(s: State, t: nat): State
    requires t in s.depth
  {
    s.(count := 1, pc := s.pc[t := Waking], depth := Undone(s, t))
  }

  function WakeStep(s: State, t: nat): State {
    if s.queue == [] then s.(pc := s.pc[t := Outside])
    else s.(queue := s.queue[1..], pc := s.pc[t := Outside][s.queue[0] := Woken])
  }

  function Step(s: State, op: Op): State
    requires Enabled(s, op)
  {
    match op
    case Lock(t) => LockStep(s, t)
    case Retry(t) => Contend(s, t)
    case Unlock(t) => UnlockStep(s, t)
    case Release(t) => ReleaseStep(s, t)
    case Wake(t) => WakeStep(s, t)
  }

  // ---------------------------------------------------------------- what every step keeps

  ghost predicate Holds(s: State, t: nat) {
    t in s.depth && s.depth[t] > 0
  }

  /** A thread that will look at the wait list or at count again. */
  ghost predicate Attentive(s: State, t: nat) {
    t in s.pc && (s.pc[t] == Waking || s.pc[t] == Woken)
  }

  /** At most one holder; count is 1 exactly when there is none. */
  ghost predicate Exclusive(s: State) {
    (forall t, u :: Holds(s, t) && Holds(s, u) ==> t == u) &&
    (s.count == 1 <==> forall t :: !Holds(s, t)) && s.count <= 1
  }

  /** owner and recursive_count describe the holder. */
  ghost predicate Recorded(s: State) {
    (forall t :: Holds(s, t) ==> s.owner == Some(t) && s.recursive + 1 == s.depth[t]) &&
    (s.count == 1 ==> s.recursive == 0)
  }

  /** The wait list holds exactly the sleeping threads, once each. */
  ghost predicate Queued(s: State) {
    Distinct(s.queue) && (forall t :: t in s.queue <==> t in s.pc && s.pc[t] == Sleeping)
  }

  ghost predicate Placed(s: State) {
    s.pc.Keys == s.depth.Keys &&
    (forall t :: Holds(s, t) ==> s.pc[t] == Outside || s.pc[t] == Releasing) &&
    (forall t :: t in s.pc && s.pc[t] == Releasing ==> s.depth[t] == 1)
  }

  /** A thread asleep will be woken: the mutex is held, or someone is still to look. */
  ghost predicate NoLostWakeup(s: State) {
    s.queue != [] ==> s.count != 1 || exists t :: Attentive(s, t)
  }

  ghost predicate Inv(s: State) {
    Placed(s) && Exclusive(s) && Recorded(s) && Queued(s) && NoLostWakeup(s)
  }

  lemma InitInv(threads: set<nat>)
    ensures Inv(Init(threads))
  {
  }

  lemma AcquireInv(s: State, t: nat, count: int)
    requires Inv(s) && s.count == 1 && t in s.pc && (s.pc[t] == Outside || s.pc[t] == Woken) && count <= 0
    ensures Inv(Acquire(s, t, count))
  {
    var r := Acquire(s, t, count);
    assert forall u :: !Holds(s, u);
    assert !Holds(s, t);
    assert r.depth[t] == 1;
    forall u | Holds(r, u)
      ensures u == t
    {
      assert !Holds(s, u);
    }
    assert Holds(r, t);
  }

  lemma ContendInv(s: State, t: nat)
    requires Inv(s) && t in s.pc && (s.pc[t] == Outside || s.pc[t] == Woken) && !Holds(s, t)
    ensures Inv(Contend(s, t))
  {
    if s.count == 1 {
      AcquireInv(s, t, if s.queue == [] then 0 else -1);
    } else {
      var r := Contend(s, t);
      assert forall u :: Holds(r, u) <==> Holds(s, u);
      assert t !in s.queue;
    }
  }

  lemma WakeInv(s: State, t: nat)
    requires Inv(s) && t in s.pc && s.pc[t] == Waking
    ensures Inv(WakeStep(s, t))
  {
    hide Queued;
    var r := WakeStep(s, t);
    WakeQueued(s, t);
    assert forall u :: Holds(r, u) <==> Holds(s, u);
    if s.queue != [] {
      WakesSleeper(s);
      assert Attentive(r, s.queue[0]);
    }
  }

  lemma WakesSleeper(s: State)
    requires Queued(s) && s.queue != []
    ensures s.queue[0] in s.pc && s.pc[s.queue[0]] == Sleeping
  {
    assert s.queue[0] in s.queue;
  }

  lemma WakeQueued(s: State, t: nat)
    requires Queued(s) && t in s.pc && s.pc[t] == Waking
    ensures Queued(WakeStep(s, t))
  {
    if s.queue != [] {
      assert s.queue[0] in s.queue;
      assert forall v :: v in s.queue <==> v == s.queue[0] || v in s.queue[1..];
    }
  }

  lemma ReleaseInv(s: State, t: nat)
    requires Inv(s) && Enabled(s, Release(t))
    ensures Inv(Step(s, Release(t)))
  {
    var r := Step(s, Release(t));
    assert Holds(s, t);
    assert forall u :: !Holds(r, u);
    assert Attentive(r, t);
  }

  lemma UnlockInv(s: State, t: nat)
    requires Inv(s) && Enabled(s, Unlock(t))
    ensures Inv(UnlockStep(s, t))
  {
    var r := UnlockStep(s, t);
    assert Holds(s, t);
    assert forall u :: Holds(r, u) <==> Holds(s, u);
  }

  /** A recursive lock call at the limit of the 32-bit counter. */
  predicate Overflows(s: State, op: Op) {
    op.Lock? && s.count != 1 && s.owner == Some(op.t) && s.recursive + 1 >= 0x1_0000_0000
  }

  lemma LockInv(s: State, t: nat)
    requires Inv(s) && Enabled(s, Lock(t)) && !Overflows(s, Lock(t))
    ensures Inv(LockStep(s, t))
  {
    if s.count == 1 {
      AcquireInv(s, t, 0);
    } else if s.owner == Some(t) {
      var h :| Holds(s, h);
      assert h == t;
      var r := LockStep(s, t);
      assert forall u :: Holds(r, u) <==> Holds(s, u);
    } else {
      assert !Holds(s, t);
      ContendInv(s, t);
    }
  }

  /** Exactly the recursive calls past 2^32 levels break the invariant; every other step keeps it. */
  lemma StepInv(s: State, op: Op)
    requires Inv(s) && Enabled(s, op)
    ensures Inv(Step(s, op)) <==> !Overflows(s, op)
  {
    if Overflows(s, op) {
      var h :| Holds(s, h);
      assert h == op.t;
      var r := Step(s, op);
      assert Holds(r, h) && r.depth[h] == s.depth[h] + 1;
    } else {
      match op
      case Lock(t) => LockInv(s, t);
      case Retry(t) =>
        assert !Holds(s, t);
        ContendInv(s, t);
      case Unlock(t) => UnlockInv(s, t);
      case Release(t) => ReleaseInv(s, t);
      case Wake(t) => WakeInv(s, t);
    }
  }

  /** A whole call of mutex_unlock on a held mutex, up to where others can take it. */
  function UnlockCall(s: State, t: nat): State
    requires t in s.depth
  {
    var r := UnlockStep(s, t);
    if s.recursive > 0 then r else ReleaseStep(r, t)
  }

  /**
   Only the holder may unlock: for any thread, on any held mutex, the call keeps the invariant exactly if t
   holds it.
   */
  lemma UnlockExact(s: State, t: nat)
    requires Inv(s) && s.count != 1 && t in s.pc && t in s.depth && s.pc[t] == Outside
    ensures Inv(UnlockStep(s, t)) <==> Holds(s, t)
    ensures Inv(UnlockCall(s, t)) <==> Holds(s, t)
    ensures !Holds(s, t) ==> !Exclusive(UnlockCall(s, t)) || !Recorded(UnlockCall(s, t))
  {
    hide Inv;
    if Holds(s, t) {
      UnlockInv(s, t);
      if s.recursive == 0 {
        ReleaseInv(UnlockStep(s, t), t);
      }
    } else {
      ForeignUnlock(s, t);
    }
  }

  /** Unlocked by another thread, a nested mutex loses count of its nesting and any other is free while held. */
  lemma ForeignUnlock(s: State, t: nat)
    requires Inv(s) && s.count != 1 && t in s.pc && t in s.depth && !Holds(s, t)
    ensures !Inv(UnlockStep(s, t)) && !Inv(UnlockCall(s, t))
    ensures if s.recursive > 0 then !Recorded(UnlockCall(s, t)) else !Exclusive(UnlockCall(s, t))
  {
    var h :| Holds(s, h);
    var r, e := UnlockStep(s, t), UnlockCall(s, t);
    assert Holds(r, h) && Holds(e, h) && r.depth[h] == e.depth[h] == s.depth[h];
  }

  // ---------------------------------------------------------------- every run

  /** ops is an interleaving of steps possible from s, without a call past 2^32 levels. */
  ghost predicate Possible(s: State, ops: seq<Op>)
    decreases |ops|
  {
    ops == [] || (Enabled(s, ops[0]) && !Overflows(s, ops[0]) && Possible(Step(s, ops[0]), ops[1..]))
  }

  ghost function After(s: State, ops: seq<Op>): State
    requires Possible(s, ops)
    decreases |ops|
  {
    if ops == [] then s else After(Step(s, ops[0]), ops[1..])
  }

  lemma {:induction false} RunInv(s: State, ops: seq<Op>)
    requires Inv(s) && Possible(s, ops)
    ensures Inv(After(s, ops))
    decreases |ops|
  {
    hide Inv, Step;
    if ops != [] {
      StepInv(s, ops[0]);
      RunInv(Step(s, ops[0]), ops[1..]);
    }
  }

  /** Every interleaving from mutex_init, of any number of threads. */
  lemma EveryRun(threads: set<nat>, ops: seq<Op>)
    requires Possible(Init(threads), ops)
    ensures Inv(After(Init(threads), ops))
  {
    hide Inv;
    InitInv(threads);
    RunInv(Init(threads), ops);
  }

  // ---------------------------------------------------------------- the calls made and what they did

  /** How often op occurs. */
  function Times(ops: seq<Op>, op: Op): nat {
    if ops == [] then 0 else (if ops[0] == op then 1 else 0) + Times(ops[1..], op)
  }

  /** Levels t holds or is about to get, less one it is about to give up. */
  ghost function Claimed(s: State, t: nat): int
    requires t in s.depth && t in s.pc
  {
    var held: int := s.depth[t];
    held + (if s.pc[t] == Sleeping || s.pc[t] == Woken then 1 else 0) - if s.pc[t] == Releasing then 1 else 0
  }

  lemma StepClaims(s: State, op: Op, t: nat)
    requires Inv(s) && Enabled(s, op) && t in s.depth
    ensures var r := Step(s, op);
      t in r.depth && t in r.pc &&
      Claimed(r, t) == Claimed(s, t) + (if op == Lock(t) then 1 else 0) - (if op == Unlock(t) then 1 else 0)
  {
    hide NoLostWakeup;
    if op.Wake? && s.queue != [] {
      WakesSleeper(s);
    }
    if op.Unlock? {
      assert Holds(s, op.t);
    }
    if op.Retry? {
      assert !Holds(s, op.t);
    }
  }

  lemma {:induction false} RunClaims(s: State, ops: seq<Op>, t: nat)
    requires Inv(s) && Possible(s, ops) && t in s.depth
    ensures var r := After(s, ops);
      t in r.depth && t in r.pc && Claimed(r, t) == Claimed(s, t) + Times(ops, Lock(t)) - Times(ops, Unlock(t))
    decreases |ops|
  {
    hide Inv, Step, Enabled, Overflows, Claimed;
    AlsoPlaced(s);
    if ops != [] {
      StepInv(s, ops[0]);
      StepClaims(s, ops[0], t);
      RunClaims(Step(s, ops[0]), ops[1..], t);
    }
  }

  lemma AlsoPlaced(s: State)
    requires Inv(s)
    ensures s.pc.Keys == s.depth.Keys
  {
  }

  /**
   In every run from mutex_init the nesting of a thread is the number of its lock calls less that of its unlock
   calls, but for a call that is still on its way.
   */
  lemma CallsCounted(threads: set<nat>, ops: seq<Op>, t: nat)
    requires Possible(Init(threads), ops) && t in threads
    ensures var r := After(Init(threads), ops);
      t in r.depth && t in r.pc && Claimed(r, t) == Times(ops, Lock(t)) - Times(ops, Unlock(t))
  {
    hide Inv, Step, After;
    InitInv(threads);
    RunClaims(Init(threads), ops, t);
  }

  /** Hence a thread outside both functions with more lock than unlock calls holds the mutex, so many levels deep. */
  lemma StillHeld(threads: set<nat>, ops: seq<Op>, t: nat)
    requires Possible(Init(threads), ops) && t in threads
    ensures var r, n := After(Init(threads), ops), Times(ops, Lock(t)) - Times(ops, Unlock(t));
      t in r.pc && (r.pc[t] == Outside && n > 0 ==>
        Holds(r, t) && r.count != 1 && r.owner == Some(t) && r.recursive + 1 == n && forall u :: Holds(r, u) ==> u == t)
  {
    hide After, Possible;
    CallsCounted(threads, ops, t);
    EveryRun(threads, ops);
  }

  /** What a lock call comes to: at once exactly if the mutex is free or the caller's, otherwise a place at the end. */
  lemma LockOutcome(s: State, t: nat)
    requires Inv(s) && Enabled(s, Lock(t)) && !Overflows(s, Lock(t))
    ensures var r := Step(s, Lock(t));
      (Holds(r, t) <==> s.count == 1 || Holds(s, t)) &&
      (Holds(r, t) ==> r.pc[t] == Outside && r.queue == s.queue && r.depth[t] == s.depth[t] + 1) &&
      (!Holds(r, t) ==> r.pc[t] == Sleeping && r.queue == s.queue + [t] && r.depth == s.depth) &&
      r.count == (if s.count == 1 then 0 else if !Holds(s, t) && s.count == 0 then -1 else s.count)
  {
    if s.count != 1 {
      HolderIsOwner(s);
    }
  }

  /** The same for a thread that was woken: the mutex may have been taken again before it runs. */
  lemma RetryOutcome(s: State, t: nat)
    requires Inv(s) && Enabled(s, Retry(t))
    ensures var r := Step(s, Retry(t));
      (Holds(r, t) <==> s.count == 1) && (Holds(r, t) ==> r.pc[t] == Outside && r.queue == s.queue) &&
      (!Holds(r, t) ==> r.pc[t] == Sleeping && r.queue == s.queue + [t] && r.depth == s.depth) &&
      r.count == (if s.count == 1 then (if s.queue == [] then 0 else -1) else if s.count == 0 then -1 else s.count)
  {
    assert !Holds(s, t);
  }

  /** Unlocking undoes locking: but for the owner noted, a free mutex with nobody waiting is as it was. */
  lemma LockUnlock(s: State, t: nat)
    requires Inv(s) && s.count == 1 && s.queue == [] && t in s.pc && s.pc[t] == Outside
    ensures var ops := [Lock(t), Unlock(t), Release(t), Wake(t)];
      Possible(s, ops) && After(s, ops) == s.(owner := Some(t))
  {
    assert !Holds(s, t);
    var s1 := Step(s, Lock(t));
    var s2 := Step(s1, Unlock(t));
    var s3 := Step(s2, Release(t));
    var s4 := Step(s3, Wake(t));
    assert s4.depth == s.depth && s4.pc == s.pc;
    FourSteps(s, Lock(t), Unlock(t), Release(t), Wake(t));
  }

  lemma FourSteps(s: State, a: Op, b: Op, c: Op, d: Op)
    requires Enabled(s, a) && !Overflows(s, a)
    requires Enabled(Step(s, a), b) && !Overflows(Step(s, a), b)
    requires Enabled(Step(Step(s, a), b), c) && !Overflows(Step(Step(s, a), b), c)
    requires Enabled(Step(Step(Step(s, a), b), c), d) && !Overflows(Step(Step(Step(s, a), b), c), d)
    ensures Possible(s, [a, b, c, d]) && After(s, [a, b, c, d]) == Step(Step(Step(Step(s, a), b), c), d)
  {
    hide Enabled, Step, Overflows;
    var s3 := Step(Step(Step(s, a), b), c);
    assert [a, b, c, d][1..] == [b, c, d] && [b, c, d][1..] == [c, d] && [c, d][1..] == [d] && [d][1..] == [];
    assert Possible(Step(s3, d), []) && After(Step(s3, d), []) == Step(s3, d);
    assert Possible(s3, [d]) && After(s3, [d]) == Step(s3, d);
    assert Possible(Step(Step(s, a), b), [c, d]) && After(Step(Step(s, a), b), [c, d]) == Step(s3, d);
    assert Possible(Step(s, a), [b, c, d]) && After(Step(s, a), [b, c, d]) == Step(s3, d);
  }

  /**
   With the mutex free and threads asleep, at most one wake and one retry hand it to a woken thread or to the
   first asleep.
   */
  lemma HandOver(s: State) returns (ops: seq<Op>, t: nat)
    requires Inv(s) && s.count == 1 && s.queue != []
    ensures |ops| <= 2 && (forall i :: 0 <= i < |ops| ==> ops[i].Wake? || ops[i].Retry?)
    ensures Possible(s, ops) && Holds(After(s, ops), t)
    ensures t == s.queue[0] || (t in s.pc && s.pc[t] == Woken)
  {
    hide Inv;
    t := SomeAttentive(s);
    if s.pc[t] == Woken {
      RetryTakes(s, t);
      ops := [Retry(t)];
    } else {
      var s1 := Step(s, Wake(t));
      StepInv(s, Wake(t));
      WakeMakes(s, t);
      ops := [Wake(t), Retry(s.queue[0])];
      t := s.queue[0];
      RetryTakes(s1, t);
      assert ops[1..] == [Retry(t)];
      assert Possible(s, ops) && After(s, ops) == After(s1, [Retry(t)]);
    }
  }

  lemma SomeAttentive(s: State) returns (t: nat)
    requires Inv(s) && s.count == 1 && s.queue != []
    ensures t in s.pc && t in s.depth && (s.pc[t] == Waking || s.pc[t] == Woken)
  {
    t :| Attentive(s, t);
  }

  lemma WakeMakes(s: State, t: nat)
    requires Inv(s) && s.queue != [] && t in s.pc && s.pc[t] == Waking
    ensures var u, r := s.queue[0], WakeStep(s, t); u in r.pc && u in r.depth && r.pc[u] == Woken && r.count == s.count
  {
    assert s.queue[0] in s.queue;
  }

  lemma RetryTakes(s: State, t: nat)
    requires Inv(s) && s.count == 1 && t in s.pc && s.pc[t] == Woken
    ensures Possible(s, [Retry(t)]) && Holds(After(s, [Retry(t)]), t)
  {
    var s1 := Step(s, Retry(t));
    assert [Retry(t)][1..] == [];
    assert Possible(s1, []);
    assert After(s1, []) == s1;
  }

  // ---------------------------------------------------------------- the limit of the nesting counter

  /** Thread t holds the mutex k deep and nobody else is around. */
  function Nested(t: nat, k: nat): State
    requires 0 < k <= 0x1_0000_0000
  {
    State(0, Some(t), k - 1, [], map[t := Outside], map[t := k])
  }

  function Locks(t: nat, n: nat): seq<Op> {
    seq(n, _ => Lock(t))
  }

  lemma {:induction false} NestDeeper(t: nat, k: nat, n: nat)
    requires 0 < k && k + n <= 0x1_0000_0000
    ensures Possible(Nested(t, k), Locks(t, n)) && After(Nested(t, k), Locks(t, n)) == Nested(t, k + n)
    decreases n
  {
    if n > 0 {
      NestDeeper(t, k + 1, n - 1);
      assert Locks(t, n)[1..] == Locks(t, n - 1);
      assert map[t := k][t := k + 1] == map[t := k + 1];
      assert Step(Nested(t, k), Lock(t)) == Nested(t, k + 1);
    } else {
      assert Locks(t, 0) == [];
    }
  }

  /** The failing case arises: 2^32 lock calls of one thread reach a state where the next one overflows. */
  lemma OverflowArises(t: nat)
    ensures var ops := Locks(t, 0x1_0000_0000);
      Possible(Init({t}), ops) && Enabled(After(Init({t}), ops), Lock(t)) && Overflows(After(Init({t}), ops), Lock(t))
  {
    var ops := Locks(t, 0x1_0000_0000);
    var s := Init({t});
    assert s.depth[t := 1] == map[t := 1] && s.pc[t := Outside] == map[t := Outside];
    assert Step(s, Lock(t)) == Nested(t, 1);
    NestDeeper(t, 1, 0xffff_ffff);
    assert ops[1..] == Locks(t, 0xffff_ffff);
  }

  // ---------------------------------------------------------------- first come, first woken

  /** A wake step takes a sleeping thread one place forward or wakes it; no other step moves it. */
  lemma StepOrder(s: State, op: Op, t: nat)
    requires Inv(s) && Enabled(s, op) && t in s.queue
    ensures var r := Step(s, op);
      if t in r.queue then IndexOf(r.queue, t) == IndexOf(s.queue, t) - if op.Wake? then 1 else 0
      else op.Wake? && IndexOf(s.queue, t) == 0 && t in r.pc && r.pc[t] == Woken
  {
    match op
    case Lock(u) => IndexAppend(s.queue, t, u);
    case Retry(u) => IndexAppend(s.queue, t, u);
    case Wake(u) =>
      assert s.queue == [s.queue[0]] + s.queue[1..];
      WakesSleeper(s);
    case Unlock(u) =>
    case Release(u) =>
  }

  /** t is woken somewhere along the run. */
  ghost predicate GetsWoken(s: State, ops: seq<Op>, t: nat)
    requires Possible(s, ops)
    decreases |ops|
  {
    (t in s.pc && s.pc[t] == Woken) || (ops != [] && GetsWoken(Step(s, ops[0]), ops[1..], t))
  }

  function Wakes(ops: seq<Op>): nat {
    if ops == [] then 0 else (if ops[0].Wake? then 1 else 0) + Wakes(ops[1..])
  }

  /**
   Threads are woken in the order they went to sleep: the one at place i by the (i + 1)-th wake step at the
   latest.
   */
  lemma {:induction false} WokenInOrder(s: State, ops: seq<Op>, t: nat)
    requires Inv(s) && Possible(s, ops) && t in s.queue && Wakes(ops) > IndexOf(s.queue, t)
    ensures GetsWoken(s, ops, t)
    decreases |ops|
  {
    hide Inv, Step, Enabled, Overflows, IndexOf;
    StepInv(s, ops[0]);
    StepOrder(s, ops[0], t);
    var r := Step(s, ops[0]);
    if t in r.queue {
      WokenInOrder(r, ops[1..], t);
    }
  }

  // ---------------------------------------------------------------- the mutex itself

  class Mutex {
    var count: int
    var owner: Option<nat>
    var recursiveCount: nat
    var tcbList: seq<nat>
    ghost var pc: map<nat, Pc>
    ghost var depth: map<nat, nat>

    ghost function Snapshot(): State
      reads this
    {
      State(count, owner, recursiveCount, tcbList, pc, depth)
    }

    /** mutex_init. */
    constructor (ghost threads: set<nat>)
      ensures Snapshot() == Init(threads) && Inv(Snapshot())
    {
      count, owner, recursiveCount, tcbList := 1, None, 0, [];
      pc, depth := map t | t in threads :: Outside, map t | t in threads :: 0;
      new;
      InitInv(threads);
    }

    predicate IsLocked()
      reads this
    {
      count != 1
    }

    /** atomic_xchg on count. */
    method Exchange(v: int) returns (was: int)
      modifies this`count
      ensures was == old(count) && count == v
    {
      was := count;
      count := v;
    }

    /** mutex_lock up to its return or its first sleep. */
    method LockEnter(me: nat) returns (got: bool)
      requires Inv(Snapshot()) && Enabled(Snapshot(), Lock(me)) && !Overflows(Snapshot(), Lock(me))
      modifies this
      ensures Snapshot() == Step(old(Snapshot()), Lock(me)) && Inv(Snapshot())
      ensures got == Holds(Snapshot(), me)
    {
      hide Inv;
      StepInv(Snapshot(), Lock(me));
      if !IsLocked() {
        var was := Exchange(0);
        if was == 1 {
          TakeOwnership(me);
          return true;
        }
      }
      if IsLocked() && owner == Some(me) {
        HolderIsOwner(Snapshot());
        recursiveCount := (recursiveCount + 1) % 0x1_0000_0000;
        depth := depth[me := depth[me] + 1];
        owner := Some(me);
        return true;
      }
      NonOwner(Snapshot(), me);
      got := Pass(me);
    }

    /** mutex_lock from its wake-up to its return or its next sleep. */
    method LockRetry(me: nat) returns (got: bool)
      requires Inv(Snapshot()) && Enabled(Snapshot(), Retry(me))
      modifies this
      ensures Snapshot() == Step(old(Snapshot()), Retry(me)) && Inv(Snapshot())
      ensures got == Holds(Snapshot(), me)
    {
      StepInv(Snapshot(), Retry(me));
      got := Pass(me);
    }

    /** One pass of mutex_lock's loop. */
    method Pass(me: nat) returns (got: bool)
      requires me in pc && me in depth && depth[me] == 0
      modifies this
      ensures Snapshot() == Contend(old(Snapshot()), me)
      ensures got == Holds(Snapshot(), me)
    {
      if count >= 0 {
        var was := Exchange(-1);
        if was == 1 {
          if tcbList == [] {
            count := 0;
          }
          TakeOwnership(me);
          return true;
        }
      }
      tcbList := tcbList + [me];
      pc := pc[me := Sleeping];
      got := false;
    }

    method TakeOwnership(me: nat)
      requires me in depth
      modifies this`owner, this`pc, this`depth
      ensures owner == Some(me) && pc == old(pc)[me := Outside] && depth == old(depth)[me := old(depth)[me] + 1]
    {
      owner := Some(me);
      pc := pc[me := Outside];
      depth := depth[me := depth[me] + 1];
    }

    /** mutex_unlock up to its return or to the release of count. The owner never hits the BUG_ON. */
    method UnlockEnter(me: nat) returns (bug: bool, done: bool)
      requires Inv(Snapshot()) && Enabled(Snapshot(), Unlock(me))
      modifies this
      ensures !bug && Snapshot() == Step(old(Snapshot()), Unlock(me)) && Inv(Snapshot())
      ensures done == (old(depth)[me] > 1)
    {
      assert Holds(Snapshot(), me);
      StepInv(Snapshot(), Unlock(me));
      bug := !IsLocked();
      if recursiveCount > 0 {
        recursiveCount := recursiveCount - 1;
        depth := depth[me := depth[me] - 1];
        return bug, true;
      }
      pc := pc[me := Releasing];
      done := false;
    }

    /** The write that frees the mutex. */
    method ReleaseCount(me: nat)
      requires Inv(Snapshot()) && Enabled(Snapshot(), Release(me))
      modifies this
      ensures Snapshot() == Step(old(Snapshot()), Release(me)) && Inv(Snapshot())
      ensures forall t :: !Holds(Snapshot(), t)
    {
      StepInv(Snapshot(), Release(me));
      count := 1;
      pc := pc[me := Waking];
      depth := depth[me := depth[me] - 1];
    }

    /** The rest of mutex_unlock: the longest waiting thread is made ready. */
    method WakeFirst(me: nat) returns (needResched: bool)
      requires Inv(Snapshot()) && Enabled(Snapshot(), Wake(me))
      modifies this
      ensures Snapshot() == Step(old(Snapshot()), Wake(me)) && Inv(Snapshot())
      ensures needResched == (old(tcbList) != [])
    {
      hide Inv;
      StepInv(Snapshot(), Wake(me));
      pc := pc[me := Outside];
      needResched := tcbList != [];
      if needResched {
        pc := pc[tcbList[0] := Woken];
        tcbList := tcbList[1..];
      }
    }
  }

  lemma NonOwner(s: State, t: nat)
    requires Inv(s) && t in s.depth && s.count != 1 && s.owner != Some(t)
    ensures s.depth[t] == 0
  {
    assert !Holds(s, t);
  }

  lemma HolderIsOwner(s: State)
    requires Inv(s) && s.count != 1
    ensures s.owner.Some? && Holds(s, s.owner.value)
  {
    var h :| Holds(s, h);
  }
}
