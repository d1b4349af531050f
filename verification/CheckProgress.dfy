/**
 The parallel check queue does not hang: while Wait has not returned some thread can go on, and
 between the steps that bring in new work only a bounded number of steps can be taken.
 */
module CheckProgress {
  import opened CheckQueue

  /** Steps that use up work; the others enter the loop, wake without cause or add checks. */
  predicate Internal(step: Step) {
    step.Lock? || step.Relock? || step.Execute?
  }

  // ----- no deadlock

  /** While the master is in Wait some thread can enter the critical section or finish its batch. */
  lemma NeverStuck(s: State) returns (step: Step)
    requires Inv(s) && !s.pcs[MASTER].Outside?
    ensures Enabled(s, step) && Internal(step)
  {
    hide VerdictOk;
    var t := MASTER;
    if s.pcs[MASTER].Waiting? {
      SumPositive(s.pcs, InFlight);
      t :| 0 <= t < |s.pcs| && Weight(s.pcs[t], InFlight) > 0;
    }
    step := if s.pcs[t].AtLock? then Lock(t) else if s.pcs[t].Woken? then Relock(t) else Execute(t);
  }

  // ----- bounded work

  /** Steps a thread can still take before it waits or leaves, on what it has. */
  function Effort(pc: Pc): nat {
    match pc
    case Outside => 0
    case Waiting => 0
    case Woken => 1
    case AtLock(_, _) => 2
    case Working(_, _) => 3
  }

  function Efforts(pcs: seq<Pc>): nat {
    if pcs == [] then 0 else Effort(pcs[0]) + Efforts(pcs[1..])
  }

  /** A bound on the steps that can still be taken on the work there is. */
  function Energy(s: State): nat {
    3 * |s.queue| + Efforts(s.pcs)
  }

  /** What a step may add to it. */
  function Allowance(step: Step, threads: nat): nat {
    match step
    case Enter(_) => 2
    case Spurious(_) => 1
    case Add(checks, _) => 3 * |checks| + (if |checks| == 0 then 0 else if |checks| == 1 then 1 else threads)
    case _ => 0
  }

  lemma {:induction false} EffortsUpdate(pcs: seq<Pc>, t: nat, pc: Pc)
    requires t < |pcs|
    ensures Efforts(pcs[t := pc]) == Efforts(pcs) - Effort(pcs[t]) + Effort(pc)
  {
    if t > 0 {
      EffortsUpdate(pcs[1..], t - 1, pc);
      assert pcs[t := pc][1..] == pcs[1..][t - 1 := pc];
    } else {
      assert pcs[t := pc][1..] == pcs[1..];
    }
  }

  lemma WakeCosts(pcs: seq<Pc>, t: nat)
    ensures Efforts(Wake(pcs, t)) <= Efforts(pcs) + 1
  {
    if t < |pcs| && pcs[t].Waiting? {
      EffortsUpdate(pcs, t, Woken);
    }
  }

  lemma {:induction false} EffortsGrow(pcs: seq<Pc>, qcs: seq<Pc>)
    requires |pcs| == |qcs| && forall t :: 0 <= t < |pcs| ==> Effort(qcs[t]) <= Effort(pcs[t]) + 1
    ensures Efforts(qcs) <= Efforts(pcs) + |pcs|
  {
    if pcs != [] {
      EffortsGrow(pcs[1..], qcs[1..]);
    }
  }

  /** Looking for work costs a thread less than having got there, even from being woken. */
  lemma SeekPays(s: State, t: nat, limit: nat)
    requires t < |s.pcs| && s.total + s.idle >= 0 && Effort(s.pcs[t]) >= 1
    ensures Energy(Seek(s, t, limit)) + Effort(s.pcs[t]) <= Energy(s)
  {
    if s.queue == [] {
      EffortsUpdate(s.pcs, t, Seek(s, t, limit).pcs[t]);
    } else {
      EffortsUpdate(s.pcs, t, Seek(s, t, limit).pcs[t]);
    }
  }

  lemma SettlePays(s: State, t: nat)
    requires t < |s.pcs| && s.pcs[t].AtLock?
    ensures Energy(Settle(s, t)) <= Energy(s) + 1 && Settle(s, t).pcs[t] == s.pcs[t]
  {
    WakeCosts(s.pcs, MASTER);
  }

  lemma AddPays(s: State, checks: seq<Check>, wake: nat, limit: nat)
    requires Enabled(s, Add(checks, wake)) && s.total >= 0 && s.idle >= 0
    ensures Energy(Apply(s, Add(checks, wake), limit)) <= Energy(s) + Allowance(Add(checks, wake), |s.pcs|)
  {
    WakeCosts(s.pcs, wake);
    EffortsGrow(s.pcs, WakeWorkers(s.pcs));
  }

  /** Every internal step uses up some of the energy, and any other adds no more than its allowance. */
  lemma StepPays(s: State, step: Step, limit: nat)
    requires Enabled(s, step) && s.total >= 0 && s.idle >= 0 && (step.Relock? ==> s.idle >= 1)
    requires step.Lock? ==> Settle(s, step.t).total + Settle(s, step.t).idle >= 0
    ensures Energy(Apply(s, step, limit)) + (if Internal(step) then 1 else 0) <=
            Energy(s) + Allowance(step, |s.pcs|)
    ensures |Apply(s, step, limit).pcs| == |s.pcs|
  {
    hide Efforts;
    match step {
      case Enter(t) => EffortsUpdate(s.pcs, t, AtLock(0, true));
      case Spurious(t) => EffortsUpdate(s.pcs, t, Woken);
      case Execute(t) => EffortsUpdate(s.pcs, t, Apply(s, step, limit).pcs[t]);
      case Add(checks, wake) => AddPays(s, checks, wake, limit);
      case Lock(t) =>
        SettlePays(s, t);
        SeekPays(Settle(s, t), t, limit);
      case Relock(t) => SeekPays(s.(idle := s.idle - 1), t, limit);
    }
  }

  // ----- runs from any good state

  ghost predicate IsPath(states: seq<State>, steps: seq<Step>, limit: nat) {
    && |states| == |steps| + 1
    && Inv(states[0])
    && forall i :: 0 <= i < |steps| ==> Follows(states[i], steps[i], states[i + 1], limit)
  }

  function InternalSteps(steps: seq<Step>): nat {
    if steps == [] then 0
    else InternalSteps(steps[..|steps| - 1]) + (if Internal(steps[|steps| - 1]) then 1 else 0)
  }

  function Allowances(steps: seq<Step>, threads: nat): nat {
    if steps == [] then 0
    else Allowances(steps[..|steps| - 1], threads) + Allowance(steps[|steps| - 1], threads)
  }

  lemma SafeToTake(s: State, step: Step)
    requires Inv(s) && Enabled(s, step)
    ensures s.total >= 0 && s.idle >= 0 && (step.Relock? ==> s.idle >= 1)
    ensures step.Lock? ==> Settle(s, step.t).total + Settle(s, step.t).idle >= 0
  {
    hide Inv;
    hide Held;
    StepReady(s, step);
    if step.Lock? {
      SettleHeld(s, step.t);
      HeldThread(Settle(s, step.t), step.t);
    }
  }

  /** Along any run the internal steps are paid for by the work at the start and what was added. */
  lemma {:induction false} RunIsBounded(states: seq<State>, steps: seq<Step>, limit: nat)
    requires IsPath(states, steps, limit)
    ensures var last := states[|steps|];
      && Inv(last) && |last.pcs| == |states[0].pcs|
      && InternalSteps(steps) + Energy(last) <= Energy(states[0]) + Allowances(steps, |last.pcs|)
  {
    hide Inv;
    hide Energy;
    hide Apply;
    if steps != [] {
      var k := |steps| - 1;
      var before := states[..|steps|];
      forall i | 0 <= i < k ensures Follows(before[i], steps[..k][i], before[i + 1], limit) {
        assert Follows(states[i], steps[i], states[i + 1], limit);
      }
      RunIsBounded(before, steps[..k], limit);
      assert Follows(states[k], steps[k], states[k + 1], limit);
      SafeToTake(states[k], steps[k]);
      StepKeeps(states[k], steps[k], limit);
      StepPays(states[k], steps[k], limit);
    }
  }

  lemma {:induction false} AllInternal(steps: seq<Step>, threads: nat)
    requires forall i :: 0 <= i < |steps| ==> Internal(steps[i])
    ensures InternalSteps(steps) == |steps| && Allowances(steps, threads) == 0
  {
    if steps != [] {
      AllInternal(steps[..|steps| - 1], threads);
    }
  }

  /** Wait returns: on the work there is only so many steps can be taken, and as long as the master
      has not left the loop there is another one. */
  lemma WaitReturns(states: seq<State>, steps: seq<Step>, limit: nat)
    requires IsPath(states, steps, limit) && forall i :: 0 <= i < |steps| ==> Internal(steps[i])
    ensures |steps| <= Energy(states[0]) && |states[|steps|].pcs| > 0
    ensures states[|steps|].pcs[MASTER].Outside? || exists step :: Enabled(states[|steps|], step) && Internal(step)
  {
    hide Energy;
    RunIsBounded(states, steps, limit);
    AllInternal(steps, |states[0].pcs|);
    if !states[|steps|].pcs[MASTER].Outside? {
      var step := NeverStuck(states[|steps|]);
    }
  }
}
