/**
 The parallel check queue as a state machine. Every critical section is one atomic step;
 between them each thread is at one of a few program points. Thread 0 is the master.
 */
module CheckQueue {

  /** A verification and what it evaluates to. */
  datatype Check = Check(id: int, passes: bool)

  datatype Pc =
    | Outside                                // not in the loop
    | AtLock(now: nat, ok: bool)             // about to enter the critical section after a batch of `now`
    | Waiting                                // blocked on its condition variable
    | Woken                                  // notified, about to re-enter the critical section
    | Working(batch: seq<Check>, ok: bool)   // executing a batch without the lock

  /** `round` holds the checks added since the last Wait returned, and `returned` the result
      of every Wait together with the checks of its round. */
  datatype State = State(
    queue: seq<Check>,
    todo: int,
    idle: int,
    total: int,
    allOk: bool,
    pcs: seq<Pc>,
    round: seq<Check>,
    returned: seq<(bool, seq<Check>)>)

  const MASTER: nat := 0

  datatype Step =
    | Enter(t: nat)
    | Lock(t: nat)
    | Relock(t: nat)
    | Spurious(t: nat)
    | Execute(t: nat)
    | Add(checks: seq<Check>, wake: nat)

  // ----- steps

  predicate Enabled(s: State, step: Step) {
    match step
    case Enter(t) => t < |s.pcs| && s.pcs[t].Outside?
    case Lock(t) => t < |s.pcs| && s.pcs[t].AtLock?
    case Relock(t) => t < |s.pcs| && s.pcs[t].Woken?
    case Spurious(t) => t < |s.pcs| && s.pcs[t].Waiting?
    case Execute(t) => t < |s.pcs| && s.pcs[t].Working?
    case Add(_, _) => |s.pcs| > 0 && s.pcs[MASTER].Outside?
  }

  function Reverse(s: seq<Check>): (r: seq<Check>)
    ensures |r| == |s|
  {
    if s == [] then [] else Reverse(s[1..]) + [s[0]]
  }

  function Max(a: int, b: int): int { if a < b then b else a }
  function Min(a: int, b: int): int { if a < b then a else b }

  /** How many checks a thread takes at once. */
  function BatchSize(s: State, limit: nat): (n: nat)
    requires s.queue != [] && s.total + s.idle >= 0
    ensures 1 <= n <= |s.queue|
  {
    Max(1, Min(limit, |s.queue| / (s.total + s.idle + 1)))
  }

  /** A batch is one check at least, and otherwise the most that both the limit and an equal share among all
      threads and one more allow. */
  lemma FairShare(s: State, limit: nat)
    requires s.queue != [] && s.total + s.idle >= 0
    ensures var n, threads := BatchSize(s, limit), s.total + s.idle + 1;
      && (n > 1 ==> n <= limit && n * threads <= |s.queue|)
      && (n >= limit || (n + 1) * threads > |s.queue|)
  {
    var n, threads := BatchSize(s, limit), s.total + s.idle + 1;
    var q := |s.queue| / threads;
    ShareIs(|s.queue|, threads, q);
    Scaled(n, q, threads);
    Scaled(q + 1, n + 1, threads);
  }

  lemma Scaled(a: int, b: int, k: nat)
    ensures a <= b ==> a * k <= b * k
  {
    if a <= b {
      assert (b - a) * k >= 0;
    }
  }

  lemma ShareIs(n: nat, threads: nat, q: int)
    requires threads > 0 && q == n / threads
    ensures 0 <= q && q * threads <= n < (q + 1) * threads
  {
    assert n == threads * q + n % threads;
  }

  /** The part of the critical section that looks for work. */
  function Seek(s: State, t: nat, limit: nat): State
    requires t < |s.pcs| && s.total + s.idle >= 0
  {
    if s.queue == [] then
      if t == MASTER && s.todo == 0 then
        s.(total := s.total - 1, allOk := true, pcs := s.pcs[t := Outside],
           round := [], returned := s.returned + [(s.allOk, s.round)])
      else s.(idle := s.idle + 1, pcs := s.pcs[t := Waiting])
    else
      var keep := |s.queue| - BatchSize(s, limit);
      s.(queue := s.queue[..keep], pcs := s.pcs[t := Working(Reverse(s.queue[keep..]), s.allOk)])
  }

  function Wake(pcs: seq<Pc>, t: nat): (r: seq<Pc>)
    ensures |r| == |pcs|
  {
    if t < |pcs| && pcs[t].Waiting? then pcs[t := Woken] else pcs
  }

  function WakeWorkers(pcs: seq<Pc>): (r: seq<Pc>)
    ensures |r| == |pcs|
  {
    seq(|pcs|, t requires 0 <= t < |pcs| => if t != MASTER && pcs[t].Waiting? then Woken else pcs[t])
  }

  /** The clean-up at the start of the critical section. */
  function Settle(s: State, t: nat): (r: State)
    requires t < |s.pcs| && s.pcs[t].AtLock?
    ensures |r.pcs| == |s.pcs|
  {
    if s.pcs[t].now > 0 then
      var todo := s.todo - s.pcs[t].now;
      s.(allOk := s.allOk && s.pcs[t].ok, todo := todo,
         pcs := if todo == 0 && t != MASTER then Wake(s.pcs, MASTER) else s.pcs)
    else s.(total := s.total + 1)
  }

  function Evaluate(batch: seq<Check>, ok: bool): bool {
    if batch == [] then ok else Evaluate(batch[1..], ok && batch[0].passes)
  }

  /** `wake` names the worker a single notification reaches, if it is waiting. */
  function Apply(s: State, step: Step, limit: nat): State
    requires Enabled(s, step) && s.total >= 0 && s.idle >= 0
    requires step.Relock? ==> s.idle >= 1
  {
    match step
    case Enter(t) => s.(pcs := s.pcs[t := AtLock(0, true)])
    case Lock(t) => Seek(Settle(s, t), t, limit)
    case Relock(t) => Seek(s.(idle := s.idle - 1), t, limit)
    case Spurious(t) => s.(pcs := s.pcs[t := Woken])
    case Execute(t) =>
      var Working(batch, ok) := s.pcs[t];
      s.(pcs := s.pcs[t := AtLock(|batch|, Evaluate(batch, ok))])
    case Add(checks, wake) =>
      s.(queue := s.queue + checks, todo := s.todo + |checks|, round := s.round + checks,
         pcs := if |checks| == 1 then if wake != MASTER then Wake(s.pcs, wake) else s.pcs
                else if |checks| > 1 then WakeWorkers(s.pcs) else s.pcs)
  }

  // ----- the invariant

  datatype Count = InFlight | Idle | Total

  function Weight(pc: Pc, c: Count): nat {
    match c
    case InFlight => (match pc case AtLock(now, _) => now case Working(batch, _) => |batch| case _ => 0)
    case Idle => if pc.Waiting? || pc.Woken? then 1 else 0
    case Total => if pc.Outside? || (pc.AtLock? && pc.now == 0) then 0 else 1
  }

  function Sum(pcs: seq<Pc>, c: Count): nat {
    if pcs == [] then 0 else Weight(pcs[0], c) + Sum(pcs[1..], c)
  }

  ghost predicate AllPass(s: seq<Check>) {
    forall i :: 0 <= i < |s| ==> s[i].passes
  }

  ghost predicate Within(s: seq<Check>, round: seq<Check>) {
    forall i :: 0 <= i < |s| ==> s[i] in round
  }

  /** The thread knows, or is about to find out, that a check fails. */
  ghost predicate Doomed(pc: Pc) {
    match pc
    case AtLock(_, ok) => !ok
    case Working(batch, ok) => !ok || !AllPass(batch)
    case _ => false
  }

  ghost predicate PcOk(pc: Pc, round: seq<Check>) {
    && (pc.Working? ==> pc.batch != [] && Within(pc.batch, round))
    && (pc.AtLock? && pc.now == 0 ==> pc.ok)
    && (Doomed(pc) ==> !AllPass(round))
  }

  /** The counters are what they claim to be. */
  ghost predicate CountsOk(s: State) {
    && s.todo == |s.queue| + Sum(s.pcs, InFlight)
    && s.idle == Sum(s.pcs, Idle)
    && s.total == Sum(s.pcs, Total)
  }

  /** The running verdict together with the work outstanding decides the round. */
  ghost predicate VerdictOk(s: State) {
    && Within(s.queue, s.round)
    && (forall t :: 0 <= t < |s.pcs| ==> PcOk(s.pcs[t], s.round))
    && (!s.allOk ==> !AllPass(s.round))
    && (!AllPass(s.round) ==> !s.allOk || !AllPass(s.queue) || exists t :: 0 <= t < |s.pcs| && Doomed(s.pcs[t]))
  }

  /** A blocked master has work outstanding elsewhere. */
  ghost predicate MasterOk(s: State) {
    && |s.pcs| > 0
    && (s.pcs[MASTER].Waiting? ==> s.queue == [] && s.todo > 0)
  }

  /** Every Wait so far told the truth about its round. */
  ghost predicate ReturnedOk(s: State) {
    forall i :: 0 <= i < |s.returned| ==> (s.returned[i].0 <==> AllPass(s.returned[i].1))
  }

  ghost predicate Inv(s: State) {
    CountsOk(s) && VerdictOk(s) && MasterOk(s) && ReturnedOk(s)
  }

  function Init(workers: nat): State {
    State([], 0, 0, 0, true, seq(workers + 1, i => Outside), [], [])
  }

  // ----- sums

  lemma {:induction false} SumUpdate(pcs: seq<Pc>, t: nat, pc: Pc, c: Count)
    requires t < |pcs|
    ensures Sum(pcs[t := pc], c) == Sum(pcs, c) - Weight(pcs[t], c) + Weight(pc, c)
  {
    if t > 0 {
      SumUpdate(pcs[1..], t - 1, pc, c);
      assert pcs[t := pc][1..] == pcs[1..][t - 1 := pc];
    } else {
      assert pcs[t := pc][1..] == pcs[1..];
    }
  }

  lemma {:induction false} SumSame(pcs: seq<Pc>, qcs: seq<Pc>, c: Count)
    requires |pcs| == |qcs| && forall t :: 0 <= t < |pcs| ==> Weight(pcs[t], c) == Weight(qcs[t], c)
    ensures Sum(pcs, c) == Sum(qcs, c)
  {
    if pcs != [] {
      SumSame(pcs[1..], qcs[1..], c);
    }
  }

  lemma {:induction false} SumAtLeast(pcs: seq<Pc>, t: nat, c: Count)
    requires t < |pcs|
    ensures Sum(pcs, c) >= Weight(pcs[t], c)
  {
    if t > 0 {
      SumAtLeast(pcs[1..], t - 1, c);
    }
  }

  lemma {:induction false} SumPositive(pcs: seq<Pc>, c: Count)
    requires Sum(pcs, c) > 0
    ensures exists t :: 0 <= t < |pcs| && Weight(pcs[t], c) > 0
  {
    if Weight(pcs[0], c) == 0 {
      SumPositive(pcs[1..], c);
      var t :| 0 <= t < |pcs[1..]| && Weight(pcs[1..][t], c) > 0;
      assert Weight(pcs[t + 1], c) > 0;
    }
  }

  lemma {:induction false} SumOutside(n: nat, c: Count)
    ensures Sum(seq(n, i => Outside), c) == 0
  {
    if n > 0 {
      SumOutside(n - 1, c);
      assert seq(n, i => Outside)[1..] == seq(n - 1, i => Outside);
    }
  }

  lemma InitInv(workers: nat)
    ensures Inv(Init(workers))
  {
    SumOutside(workers + 1, InFlight);
    SumOutside(workers + 1, Idle);
    SumOutside(workers + 1, Total);
  }

  // ----- executing a batch

  lemma {:induction false} EvaluateIs(batch: seq<Check>, ok: bool)
    ensures Evaluate(batch, ok) <==> ok && AllPass(batch)
  {
    if batch != [] {
      EvaluateIs(batch[1..], ok && batch[0].passes);
      assert AllPass(batch) <==> batch[0].passes && AllPass(batch[1..]);
    }
  }

  lemma {:induction false} ReverseKeeps(s: seq<Check>)
    ensures forall x :: x in Reverse(s) <==> x in s
    ensures AllPass(Reverse(s)) <==> AllPass(s)
  {
    if s != [] {
      ReverseKeeps(s[1..]);
      assert s == [s[0]] + s[1..];
      assert AllPass(s) <==> s[0].passes && AllPass(s[1..]);
      AllPassConcat(Reverse(s[1..]), [s[0]]);
    }
  }

  lemma AllPassConcat(a: seq<Check>, b: seq<Check>)
    ensures AllPass(a + b) <==> AllPass(a) && AllPass(b)
  {
    if AllPass(a + b) {
      forall i | 0 <= i < |a| ensures a[i].passes {
        assert (a + b)[i].passes;
      }
      forall i | 0 <= i < |b| ensures b[i].passes {
        assert (a + b)[|a| + i].passes;
      }
    }
  }

  // ----- the critical section

  /** The invariant while thread `t` holds the lock: it counts as one of the total and as
      nothing else. */
  ghost predicate Held(s: State, t: nat) {
    && t < |s.pcs|
    && var s0 := s.(pcs := s.pcs[t := Outside]);
       && s.todo == |s.queue| + Sum(s0.pcs, InFlight)
       && s.idle == Sum(s0.pcs, Idle)
       && s.total == Sum(s0.pcs, Total) + 1
       && VerdictOk(s0) && MasterOk(s0) && ReturnedOk(s0)
  }

  lemma WakeCounts(pcs: seq<Pc>, t: nat, c: Count)
    ensures Sum(Wake(pcs, t), c) == Sum(pcs, c)
  {
    if t < |pcs| && pcs[t].Waiting? {
      SumUpdate(pcs, t, Woken, c);
    }
  }

  lemma UpdateCounts(pcs: seq<Pc>, t: nat, pc: Pc)
    requires t < |pcs|
    ensures forall c :: Sum(pcs[t := pc], c) == Sum(pcs, c) - Weight(pcs[t], c) + Weight(pc, c)
  {
    forall c ensures Sum(pcs[t := pc], c) == Sum(pcs, c) - Weight(pcs[t], c) + Weight(pc, c) {
      SumUpdate(pcs, t, pc, c);
    }
  }

  lemma SettleCounts(s: State, t: nat)
    requires CountsOk(s) && t < |s.pcs| && s.pcs[t].AtLock?
    ensures var r := Settle(s, t); var pcs := r.pcs[t := Outside];
      && r.todo == |r.queue| + Sum(pcs, InFlight)
      && r.idle == Sum(pcs, Idle)
      && r.total == Sum(pcs, Total) + 1
  {
    UpdateCounts(s.pcs, t, Outside);
    var pcs0 := s.pcs[t := Outside];
    forall c ensures Sum(Wake(pcs0, MASTER), c) == Sum(pcs0, c) {
      WakeCounts(pcs0, MASTER, c);
    }
    assert t != MASTER ==> Wake(s.pcs, MASTER)[t := Outside] == Wake(pcs0, MASTER);
  }

  lemma SettleVerdict(s: State, t: nat)
    requires VerdictOk(s) && t < |s.pcs| && s.pcs[t].AtLock?
    ensures var r := Settle(s, t); VerdictOk(r.(pcs := r.pcs[t := Outside]))
  {
    var r := Settle(s, t);
    var pcs := r.pcs[t := Outside];
    forall k | 0 <= k < |pcs| ensures PcOk(pcs[k], s.round) && (k != t && Doomed(s.pcs[k]) ==> Doomed(pcs[k])) {
      assert PcOk(s.pcs[k], s.round);
    }
    if !AllPass(s.round) && r.allOk && AllPass(s.queue) {
      assert s.pcs[t].now == 0 ==> s.pcs[t].ok;
      var k :| 0 <= k < |s.pcs| && Doomed(s.pcs[k]);
      assert Doomed(pcs[k]);
    }
  }

  lemma SettleHeld(s: State, t: nat)
    requires Inv(s) && t < |s.pcs| && s.pcs[t].AtLock?
    ensures Held(Settle(s, t), t)
  {
    SettleCounts(s, t);
    SettleVerdict(s, t);
    hide VerdictOk;
    SumAtLeast(s.pcs, t, InFlight);
    if t != MASTER && s.pcs[MASTER].Waiting? {
      assert Settle(s, t).todo >= 0;
    }
  }

  lemma RelockHeld(s: State, t: nat)
    requires Inv(s) && t < |s.pcs| && s.pcs[t].Woken?
    ensures s.idle >= 1 && Held(s.(idle := s.idle - 1), t)
  {
    UpdateCounts(s.pcs, t, Outside);
    SumAtLeast(s.pcs, t, Idle);
    VerdictUpdate(s, t, Outside);
    hide VerdictOk;
  }

  /** Changing a thread that is not doomed to another harmless point keeps the verdict. */
  lemma VerdictUpdate(s: State, t: nat, pc: Pc)
    requires VerdictOk(s) && t < |s.pcs| && PcOk(pc, s.round) && (Doomed(s.pcs[t]) ==> Doomed(pc))
    ensures VerdictOk(s.(pcs := s.pcs[t := pc]))
  {
    var pcs := s.pcs[t := pc];
    if k :| 0 <= k < |s.pcs| && Doomed(s.pcs[k]) {
      assert Doomed(pcs[k]);
    }
  }

  /** With nothing outstanding no thread is doomed, so the verdict is exact. */
  lemma NothingOutstanding(s: State)
    requires VerdictOk(s) && s.queue == [] && Sum(s.pcs, InFlight) == 0
    ensures s.allOk <==> AllPass(s.round)
    ensures forall t :: 0 <= t < |s.pcs| ==> !Doomed(s.pcs[t]) && !s.pcs[t].Working?
  {
    forall t | 0 <= t < |s.pcs| ensures !Doomed(s.pcs[t]) && !s.pcs[t].Working? {
      SumAtLeast(s.pcs, t, InFlight);
      assert PcOk(s.pcs[t], s.round);
    }
    assert AllPass([]);
  }

  lemma SeekReturn(s: State)
    requires Held(s, MASTER) && s.queue == [] && s.todo == 0
    ensures Inv(s.(total := s.total - 1, allOk := true, pcs := s.pcs[MASTER := Outside],
                   round := [], returned := s.returned + [(s.allOk, s.round)]))
  {
    var s0 := s.(pcs := s.pcs[MASTER := Outside]);
    NothingOutstanding(s0);
    forall t | 0 <= t < |s0.pcs| ensures PcOk(s0.pcs[t], []) {
      assert PcOk(s0.pcs[t], s.round);
    }
  }

  lemma SeekWait(s: State, t: nat)
    requires Held(s, t) && s.queue == [] && !(t == MASTER && s.todo == 0)
    ensures Inv(s.(idle := s.idle + 1, pcs := s.pcs[t := Waiting]))
  {
    var pcs0 := s.pcs[t := Outside];
    UpdateCounts(pcs0, t, Waiting);
    assert pcs0[t := Waiting] == s.pcs[t := Waiting];
    VerdictUpdate(s.(pcs := pcs0), t, Waiting);
    hide VerdictOk;
  }

  lemma TakeVerdict(s: State, t: nat, keep: nat)
    requires VerdictOk(s) && t < |s.pcs| && s.pcs[t].Outside? && keep < |s.queue|
    ensures VerdictOk(s.(queue := s.queue[..keep], pcs := s.pcs[t := Working(Reverse(s.queue[keep..]), s.allOk)]))
  {
    var batch := Reverse(s.queue[keep..]);
    ReverseKeeps(s.queue[keep..]);
    assert s.queue == s.queue[..keep] + s.queue[keep..];
    AllPassConcat(s.queue[..keep], s.queue[keep..]);
    var pc := Working(batch, s.allOk);
    forall i | 0 <= i < |batch| ensures batch[i] in s.round {
      assert batch[i] in s.queue[keep..];
    }
    if !AllPass(batch) {
      var i :| 0 <= i < |batch| && !batch[i].passes;
      assert batch[i] in s.round;
    }
    var pcs := s.pcs[t := pc];
    assert Doomed(pc) <==> !s.allOk || !AllPass(s.queue[keep..]);
    if k :| 0 <= k < |s.pcs| && Doomed(s.pcs[k]) {
      assert Doomed(pcs[k]);
    }
    if Doomed(pc) {
      assert Doomed(pcs[t]);
    }
  }

  lemma SeekTake(s: State, t: nat, limit: nat)
    requires Held(s, t) && s.queue != [] && s.total + s.idle >= 0
    ensures Inv(Seek(s, t, limit))
  {
    var keep := |s.queue| - BatchSize(s, limit);
    var batch := Reverse(s.queue[keep..]);
    var pcs0 := s.pcs[t := Outside];
    UpdateCounts(pcs0, t, Working(batch, s.allOk));
    assert pcs0[t := Working(batch, s.allOk)] == s.pcs[t := Working(batch, s.allOk)];
    TakeVerdict(s.(pcs := pcs0), t, keep);
    hide VerdictOk;
  }

  lemma SeekInv(s: State, t: nat, limit: nat)
    requires Held(s, t) && s.total + s.idle >= 0
    ensures Inv(Seek(s, t, limit))
  {
    hide Held;
    hide Inv;
    HeldThread(s, t);
    if s.queue != [] {
      SeekTake(s, t, limit);
    } else if t == MASTER && s.todo == 0 {
      SeekReturn(s);
    } else {
      SeekWait(s, t);
    }
  }

  lemma HeldThread(s: State, t: nat)
    requires Held(s, t)
    ensures t < |s.pcs| && s.total >= 0 && s.idle >= 0
  {}

  // ----- every step

  lemma ExecuteKeeps(s: State, t: nat)
    requires Inv(s) && t < |s.pcs| && s.pcs[t].Working?
    ensures Inv(s.(pcs := s.pcs[t := AtLock(|s.pcs[t].batch|, Evaluate(s.pcs[t].batch, s.pcs[t].ok))]))
  {
    var Working(batch, ok) := s.pcs[t];
    EvaluateIs(batch, ok);
    assert PcOk(s.pcs[t], s.round);
    var pc := AtLock(|batch|, Evaluate(batch, ok));
    UpdateCounts(s.pcs, t, pc);
    VerdictUpdate(s, t, pc);
    hide VerdictOk;
  }

  lemma MoveKeeps(s: State, t: nat, pc: Pc)
    requires Inv(s) && t < |s.pcs| && forall c :: Weight(pc, c) == Weight(s.pcs[t], c)
    requires !Doomed(s.pcs[t]) && !Doomed(pc) && !pc.Working? && !pc.Waiting?
    ensures Inv(s.(pcs := s.pcs[t := pc]))
  {
    UpdateCounts(s.pcs, t, pc);
    VerdictUpdate(s, t, pc);
    hide VerdictOk;
  }

  /** Waking some of the waiting workers changes no counter and no verdict. */
  lemma WakingKeeps(s: State, pcs: seq<Pc>)
    requires Inv(s) && |pcs| == |s.pcs| && pcs[MASTER] == s.pcs[MASTER]
    requires forall t :: 0 <= t < |pcs| ==> pcs[t] == s.pcs[t] || (s.pcs[t].Waiting? && pcs[t].Woken?)
    ensures Inv(s.(pcs := pcs))
  {
    forall c ensures Sum(pcs, c) == Sum(s.pcs, c) {
      SumSame(pcs, s.pcs, c);
    }
    if k :| 0 <= k < |s.pcs| && Doomed(s.pcs[k]) {
      assert Doomed(pcs[k]);
    }
    forall t | 0 <= t < |pcs| ensures PcOk(pcs[t], s.round) {
      assert PcOk(s.pcs[t], s.round);
    }
  }

  lemma AddVerdict(s: State, checks: seq<Check>)
    requires VerdictOk(s)
    ensures VerdictOk(s.(queue := s.queue + checks, todo := s.todo + |checks|, round := s.round + checks))
  {
    AllPassConcat(s.round, checks);
    AllPassConcat(s.queue, checks);
    var round := s.round + checks;
    forall t | 0 <= t < |s.pcs| ensures PcOk(s.pcs[t], round) {
      assert PcOk(s.pcs[t], s.round);
    }
  }

  lemma AddKeeps(s: State, checks: seq<Check>, wake: nat, limit: nat)
    requires Inv(s) && Enabled(s, Add(checks, wake)) && s.total >= 0 && s.idle >= 0
    ensures Inv(Apply(s, Add(checks, wake), limit))
  {
    AddVerdict(s, checks);
    hide VerdictOk;
    hide Sum;
    var r := s.(queue := s.queue + checks, todo := s.todo + |checks|, round := s.round + checks);
    WakingKeeps(r, Apply(s, Add(checks, wake), limit).pcs);
  }

  /** A step that is enabled in a good state is also safe to take: no counter is negative. */
  lemma StepReady(s: State, step: Step)
    requires Inv(s) && Enabled(s, step)
    ensures s.todo >= 0 && s.total >= 0 && s.idle >= 0 && (step.Relock? ==> s.idle >= 1)
  {
    if step.Relock? {
      SumAtLeast(s.pcs, step.t, Idle);
    }
  }

  lemma Harmless()
    ensures forall c :: Weight(AtLock(0, true), c) == Weight(Outside, c) && Weight(Woken, c) == Weight(Waiting, c)
  {}

  /** Every step of every thread keeps the invariant. */
  lemma StepKeeps(s: State, step: Step, limit: nat)
    requires Inv(s) && Enabled(s, step)
    ensures s.todo >= 0 && s.total >= 0 && s.idle >= 0 && (step.Relock? ==> s.idle >= 1)
    ensures Inv(Apply(s, step, limit))
  {
    hide Inv;
    hide Held;
    hide Weight;
    StepReady(s, step);
    match step {
      case Enter(t) =>
        Harmless();
        MoveKeeps(s, t, AtLock(0, true));
      case Spurious(t) =>
        Harmless();
        MoveKeeps(s, t, Woken);
      case Execute(t) => ExecuteKeeps(s, t);
      case Add(checks, wake) => AddKeeps(s, checks, wake, limit);
      case Lock(t) =>
        SettleHeld(s, t);
        HeldThread(Settle(s, t), t);
        SeekInv(Settle(s, t), t, limit);
      case Relock(t) =>
        RelockHeld(s, t);
        SeekInv(s.(idle := s.idle - 1), t, limit);
    }
  }

  // ----- whole runs

  /** `states` is a run: each state follows from the one before by an enabled step. */
  ghost predicate IsRun(states: seq<State>, steps: seq<Step>, workers: nat, limit: nat) {
    && |states| == |steps| + 1
    && states[0] == Init(workers)
    && forall i :: 0 <= i < |steps| ==> Follows(states[i], steps[i], states[i + 1], limit)
  }

  /** A step is defined only while the counters are not negative; StepKeeps shows they never are. */
  ghost predicate Follows(s: State, step: Step, next: State, limit: nat) {
    && Enabled(s, step)
    && (s.total >= 0 && s.idle >= 0 && (step.Relock? ==> s.idle >= 1) ==> next == Apply(s, step, limit))
  }

  lemma {:induction false} RunKeepsInv(states: seq<State>, steps: seq<Step>, workers: nat, limit: nat, n: nat)
    requires IsRun(states, steps, workers, limit) && n < |states|
    ensures Inv(states[n])
  {
    if n == 0 {
      InitInv(workers);
    } else {
      RunKeepsInv(states, steps, workers, limit, n - 1);
      assert Follows(states[n - 1], steps[n - 1], states[n], limit);
      StepKeeps(states[n - 1], steps[n - 1], limit);
    }
  }

  /** Every Wait returns true exactly when every check added since the previous Wait passes, and
      it returns only when nothing of its round is queued or being worked on. */
  lemma WaitTellsTheTruth(states: seq<State>, steps: seq<Step>, workers: nat, limit: nat, n: nat)
    requires IsRun(states, steps, workers, limit) && n < |steps|
    requires |states[n + 1].returned| > |states[n].returned|
    ensures states[n + 1].returned == states[n].returned + [(AllPass(states[n].round), states[n].round)]
    ensures states[n + 1].queue == [] && states[n + 1].round == [] && states[n + 1].allOk
    ensures var pcs := states[n + 1].pcs; forall t :: 0 <= t < |pcs| ==> Weight(pcs[t], InFlight) == 0
  {
    RunKeepsInv(states, steps, workers, limit, n);
    RunKeepsInv(states, steps, workers, limit, n + 1);
    assert Follows(states[n], steps[n], states[n + 1], limit);
    StepReady(states[n], steps[n]);
    Returning(states[n], steps[n], limit);
    var s := states[n + 1];
    forall t | 0 <= t < |s.pcs| ensures Weight(s.pcs[t], InFlight) == 0 {
      SumAtLeast(s.pcs, t, InFlight);
    }
  }

  lemma Returning(s: State, step: Step, limit: nat)
    requires Enabled(s, step) && s.total >= 0 && s.idle >= 0 && (step.Relock? ==> s.idle >= 1)
    requires |Apply(s, step, limit).returned| > |s.returned| && ReturnedOk(Apply(s, step, limit))
    ensures var r := Apply(s, step, limit);
      r.returned == s.returned + [(AllPass(s.round), s.round)] && r.queue == [] && r.round == [] && r.allOk
        && r.todo == 0
  {
    var r := Apply(s, step, limit);
    assert r.returned[|s.returned|] == (AllPass(s.round), s.round);
  }

  /** A blocked master is never forgotten: some other thread still has a batch to report. */
  lemma BlockedMasterHasWork(states: seq<State>, steps: seq<Step>, workers: nat, limit: nat, n: nat)
    requires IsRun(states, steps, workers, limit) && n < |states|
    requires |states[n].pcs| > 0 && states[n].pcs[MASTER].Waiting?
    ensures var pcs := states[n].pcs; exists t :: 0 < t < |pcs| && Weight(pcs[t], InFlight) > 0
  {
    RunKeepsInv(states, steps, workers, limit, n);
    SumPositive(states[n].pcs, InFlight);
  }

  // ----- no needless work, and no needless sleep

  /** How many checks of a batch are run: none once something is known to fail. */
  function Runs(batch: seq<Check>, ok: bool): nat {
    if batch == [] || !ok then 0 else 1 + Runs(batch[1..], batch[0].passes)
  }

  /** Once a failure is recorded, nothing taken from the queue afterwards is run. */
  lemma NoNeedlessWork(s: State, t: nat, limit: nat)
    requires t < |s.pcs| && s.total + s.idle >= 0 && !s.allOk
    ensures var pc := Seek(s, t, limit).pcs[t]; pc.Working? ==> Runs(pc.batch, pc.ok) == 0
  {}

  /** A batch is run up to and including its first failure, and fails exactly if there is one. */
  lemma {:induction false} RunsUpToFailure(batch: seq<Check>)
    ensures Runs(batch, true) <= |batch|
    ensures Evaluate(batch, true) <==> AllPass(batch)
    ensures forall i :: 0 <= i < Runs(batch, true) - 1 ==> batch[i].passes
    ensures Runs(batch, true) < |batch| ==> Runs(batch, true) > 0 && !batch[Runs(batch, true) - 1].passes
    decreases |batch|
  {
    if batch != [] {
      if batch[0].passes {
        RunsUpToFailure(batch[1..]);
        assert AllPass(batch) <==> AllPass(batch[1..]) by {
          assert forall i :: 0 < i < |batch| ==> batch[i] == batch[1..][i - 1];
        }
      } else {
        EvaluateFailed(batch[1..]);
      }
    }
  }

  lemma {:induction false} EvaluateFailed(batch: seq<Check>)
    ensures !Evaluate(batch, false)
    decreases |batch|
  {
    if batch != [] {
      EvaluateFailed(batch[1..]);
    }
  }

  /** A batch is taken from the end of the queue, the last check first. */
  lemma TakesFromEnd(s: State, t: nat, limit: nat)
    requires t < |s.pcs| && s.total + s.idle >= 0 && s.queue != []
    ensures var n, r := BatchSize(s, limit), Seek(s, t, limit);
      && r.queue == s.queue[..|s.queue| - n] && r.pcs[t].Working? && |r.pcs[t].batch| == n
      && forall i :: 0 <= i < n ==> r.pcs[t].batch[i] == s.queue[|s.queue| - 1 - i]
  {
    var n := BatchSize(s, limit);
    var taken := s.queue[|s.queue| - n..];
    forall i | 0 <= i < n ensures Reverse(taken)[i] == s.queue[|s.queue| - 1 - i] {
      ReverseAt(taken, i);
    }
  }

  lemma {:induction false} ReverseAt(s: seq<Check>, i: nat)
    requires i < |s|
    ensures Reverse(s)[i] == s[|s| - 1 - i]
    decreases |s|
  {
    if i < |s| - 1 {
      ReverseAt(s[1..], i);
    }
  }

  /** Adding several checks leaves no worker asleep; adding one wakes the worker that is told. */
  lemma AddWakes(s: State, checks: seq<Check>, wake: nat, limit: nat)
    requires Enabled(s, Add(checks, wake)) && s.total >= 0 && s.idle >= 0
    ensures var r := Apply(s, Add(checks, wake), limit);
      && (|checks| > 1 ==> forall t :: 1 <= t < |r.pcs| ==> !r.pcs[t].Waiting?)
      && (|checks| == 1 && 1 <= wake < |s.pcs| && s.pcs[wake].Waiting? ==> r.pcs[wake] == Woken)
  {}
}
