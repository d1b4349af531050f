/**
 The scheduler client that runs callbacks one at a time. Each locked section is one step; a
 thread is the stack of the calls it is in, so a callback may itself add callbacks.
 */
module SchedulerClient {

  type Callback = nat

  datatype Frame =
    | Adding(cb: Callback)    // AddToProcessQueue, before the lock
    | Deciding                // MaybeScheduleProcessQueue, before the lock
    | Scheduling              // MaybeScheduleProcessQueue, lock released, about to schedule
    | Processing              // ProcessQueue, before the lock
    | Running(cb: Callback)   // ProcessQueue, executing a callback
    | Ending                  // the callback returned or threw; the running flag is still set

  /** `scheduled` counts the ProcessQueue tasks handed to the scheduler and not yet taken.
      `added` and `started` record every callback in the order it was queued and begun. */
  datatype State = State(
    pending: seq<Callback>,
    running: bool,
    scheduled: nat,
    threads: seq<seq<Frame>>,
    added: seq<Callback>,
    started: seq<Callback>)

  datatype Step =
    | BeginAdd(t: nat, cb: Callback)
    | Append(t: nat)
    | Decide(t: nat)
    | Schedule(t: nat)
    | Take(t: nat)      // a service thread picks up a scheduled task
    | Drain(t: nat)     // EmptyQueue calls ProcessQueue itself
    | Start(t: nat)
    | Finish(t: nat)    // by returning or by throwing
    | Clear(t: nat)

  predicate OnTop(stack: seq<Frame>, f: Frame -> bool) {
    stack != [] && f(stack[|stack| - 1])
  }

  predicate Enabled(s: State, step: Step) {
    && step.t < |s.threads|
    && var stack := s.threads[step.t];
       match step
       case BeginAdd(_, _) => stack == [] || OnTop(stack, (f: Frame) => f.Running?)
       case Append(_) => OnTop(stack, (f: Frame) => f.Adding?)
       case Decide(_) => OnTop(stack, (f: Frame) => f.Deciding?)
       case Schedule(_) => OnTop(stack, (f: Frame) => f.Scheduling?)
       case Take(_) => stack == [] && s.scheduled > 0
       case Drain(_) => stack == []
       case Start(_) => OnTop(stack, (f: Frame) => f.Processing?)
       case Finish(_) => OnTop(stack, (f: Frame) => f.Running?)
       case Clear(_) => OnTop(stack, (f: Frame) => f.Ending?)
  }

  function Push(s: State, t: nat, f: Frame): State
    requires t < |s.threads|
  {
    s.(threads := s.threads[t := s.threads[t] + [f]])
  }

  function Pop(s: State, t: nat): State
    requires t < |s.threads| && s.threads[t] != []
  {
    s.(threads := s.threads[t := s.threads[t][..|s.threads[t]| - 1]])
  }

  function Replace(s: State, t: nat, f: Frame): State
    requires t < |s.threads| && s.threads[t] != []
  {
    Push(Pop(s, t), t, f)
  }

  function Top(s: State, t: nat): Frame
    requires t < |s.threads| && s.threads[t] != []
  {
    s.threads[t][|s.threads[t]| - 1]
  }

  function Apply(s: State, step: Step): State
    requires Enabled(s, step)
  {
    var t := step.t;
    match step
    case BeginAdd(_, cb) => Push(s, t, Adding(cb))
    case Append(_) =>
      var cb := Top(s, t).cb;
      Replace(s, t, Deciding).(pending := s.pending + [cb], added := s.added + [cb])
    case Decide(_) => if s.running || s.pending == [] then Pop(s, t) else Replace(s, t, Scheduling)
    case Schedule(_) => Pop(s, t).(scheduled := s.scheduled + 1)
    case Take(_) => Push(s, t, Processing).(scheduled := s.scheduled - 1)
    case Drain(_) => Push(s, t, Processing)
    case Start(_) =>
      if s.running || s.pending == [] then Pop(s, t)
      else Replace(s, t, Running(s.pending[0])).(running := true, pending := s.pending[1..],
                                                 started := s.started + [s.pending[0]])
    case Finish(_) => Replace(s, t, Ending)
    case Clear(_) => Replace(s, t, Deciding).(running := false)
  }

  // ----- measures over all frames

  /** Three ways to weigh the frames: how many hold the running flag, how many are bound to look
      at the queue again, and how much work they can still cause. */
  datatype Measure = Holding | Committed | Effort

  function Weight(f: Frame, m: Measure): nat {
    match m
    case Holding => if f.Running? || f.Ending? then 1 else 0
    case Committed => if f.Deciding? || f.Scheduling? || f.Processing? then 1 else 0
    case Effort =>
      match f
      case Processing => 1
      case Scheduling => 3
      case Deciding => 4
      case Ending => 5
      case Running(_) => 6
      case Adding(_) => 11
  }

  function StackSum(stack: seq<Frame>, m: Measure): nat {
    if stack == [] then 0 else StackSum(stack[..|stack| - 1], m) + Weight(stack[|stack| - 1], m)
  }

  function Sum(threads: seq<seq<Frame>>, m: Measure): nat {
    if threads == [] then 0 else StackSum(threads[0], m) + Sum(threads[1..], m)
  }

  lemma {:induction false} SumUpdate(threads: seq<seq<Frame>>, t: nat, stack: seq<Frame>, m: Measure)
    requires t < |threads|
    ensures Sum(threads[t := stack], m) == Sum(threads, m) - StackSum(threads[t], m) + StackSum(stack, m)
  {
    if t > 0 {
      SumUpdate(threads[1..], t - 1, stack, m);
      assert threads[t := stack][1..] == threads[1..][t - 1 := stack];
    } else {
      assert threads[t := stack][1..] == threads[1..];
    }
  }

  lemma PushSum(s: State, t: nat, f: Frame)
    requires t < |s.threads|
    ensures forall m :: Sum(Push(s, t, f).threads, m) == Sum(s.threads, m) + Weight(f, m)
  {
    forall m ensures Sum(Push(s, t, f).threads, m) == Sum(s.threads, m) + Weight(f, m) {
      SumUpdate(s.threads, t, s.threads[t] + [f], m);
      assert (s.threads[t] + [f])[..|s.threads[t]|] == s.threads[t];
    }
  }

  lemma PopSum(s: State, t: nat)
    requires t < |s.threads| && s.threads[t] != []
    ensures forall m :: Sum(Pop(s, t).threads, m) == Sum(s.threads, m) - Weight(Top(s, t), m)
  {
    forall m ensures Sum(Pop(s, t).threads, m) == Sum(s.threads, m) - Weight(Top(s, t), m) {
      SumUpdate(s.threads, t, s.threads[t][..|s.threads[t]| - 1], m);
    }
  }

  lemma ReplaceSum(s: State, t: nat, f: Frame)
    requires t < |s.threads| && s.threads[t] != []
    ensures forall m :: Sum(Replace(s, t, f).threads, m) == Sum(s.threads, m) - Weight(Top(s, t), m) + Weight(f, m)
  {
    PopSum(s, t);
    PushSum(Pop(s, t), t, f);
  }

  // ----- the invariant

  ghost predicate Inv(s: State) {
    && s.started + s.pending == s.added
    && Sum(s.threads, Holding) == (if s.running then 1 else 0)
    && (s.pending != [] ==> s.running || s.scheduled > 0 || Sum(s.threads, Committed) > 0)
  }

  function Init(threads: nat): State {
    State([], false, 0, Idle(threads), [], [])
  }

  function Idle(n: nat): seq<seq<Frame>> {
    if n == 0 then [] else [[]] + Idle(n - 1)
  }

  lemma {:induction false} SumIdle(n: nat, m: Measure)
    ensures Sum(Idle(n), m) == 0
  {
    if n > 0 {
      SumIdle(n - 1, m);
      assert Idle(n)[1..] == Idle(n - 1);
    }
  }

  lemma InitInv(threads: nat)
    ensures Inv(Init(threads))
  {
    SumIdle(threads, Holding);
  }

  /** How a step moves the sums. */
  lemma StepSums(s: State, step: Step)
    requires Enabled(s, step)
    ensures forall m :: Sum(Apply(s, step).threads, m) ==
                        Sum(s.threads, m) - Gone(s, step, m) + Come(s, step, m)
  {
    var t := step.t;
    hide Sum;
    match step {
      case BeginAdd(_, cb) => PushSum(s, t, Adding(cb));
      case Append(_) => ReplaceSum(s, t, Deciding);
      case Decide(_) => PopSum(s, t); ReplaceSum(s, t, Scheduling);
      case Schedule(_) => PopSum(s, t);
      case Take(_) => PushSum(s, t, Processing);
      case Drain(_) => PushSum(s, t, Processing);
      case Start(_) =>
        PopSum(s, t);
        if s.pending != [] {
          ReplaceSum(s, t, Running(s.pending[0]));
        }
      case Finish(_) => ReplaceSum(s, t, Ending);
      case Clear(_) => ReplaceSum(s, t, Deciding);
    }
  }

  /** The weight of the frame a step removes, and of the one it puts there. */
  function Gone(s: State, step: Step, m: Measure): nat
    requires Enabled(s, step)
  {
    if step.BeginAdd? || step.Take? || step.Drain? then 0 else Weight(Top(s, step.t), m)
  }

  function Come(s: State, step: Step, m: Measure): nat
    requires Enabled(s, step)
  {
    match step
    case BeginAdd(_, cb) => Weight(Adding(cb), m)
    case Append(_) => Weight(Deciding, m)
    case Decide(_) => if s.running || s.pending == [] then 0 else Weight(Scheduling, m)
    case Schedule(_) => 0
    case Take(_) => Weight(Processing, m)
    case Drain(_) => Weight(Processing, m)
    case Start(_) => if s.running || s.pending == [] then 0 else Weight(Running(s.pending[0]), m)
    case Finish(_) => Weight(Ending, m)
    case Clear(_) => Weight(Deciding, m)
  }

  lemma {:induction false} SumAtLeast(threads: seq<seq<Frame>>, t: nat, m: Measure)
    requires t < |threads|
    ensures Sum(threads, m) >= StackSum(threads[t], m)
  {
    if t > 0 {
      SumAtLeast(threads[1..], t - 1, m);
    }
  }

  /** Every step of every thread keeps the invariant. */
  lemma StepKeeps(s: State, step: Step)
    requires Inv(s) && Enabled(s, step)
    ensures Inv(Apply(s, step))
  {
    StepSums(s, step);
    if step.Finish? || step.Clear? {
      SumAtLeast(s.threads, step.t, Holding);
    }
    hide Sum;
    hide StackSum;
    assert step.Start? && s.pending != [] ==> [s.pending[0]] + s.pending[1..] == s.pending;
  }

  // ----- progress

  /** The calls made from outside: new callbacks, and draining the queue by hand. */
  predicate External(step: Step) {
    step.BeginAdd? || step.Drain?
  }

  function Budget(step: Step): nat {
    if step.BeginAdd? then 11 else if step.Drain? then 1 else 0
  }

  /** The work still to be done, weighing queued callbacks, scheduled tasks and frames. */
  function Outstanding(s: State): nat {
    6 * |s.pending| + 2 * s.scheduled + Sum(s.threads, Effort)
  }

  lemma StepCosts(s: State, step: Step)
    requires Enabled(s, step)
    ensures if External(step) then Outstanding(Apply(s, step)) == Outstanding(s) + Budget(step)
            else Outstanding(Apply(s, step)) < Outstanding(s)
  {
    StepSums(s, step);
    hide Sum;
    hide StackSum;
  }

  // ----- whole runs

  ghost predicate IsRun(states: seq<State>, steps: seq<Step>, threads: nat) {
    && |states| == |steps| + 1
    && states[0] == Init(threads)
    && forall i :: 0 <= i < |steps| ==> Follows(states[i], steps[i], states[i + 1])
  }

  ghost predicate Follows(s: State, step: Step, next: State) {
    Enabled(s, step) && next == Apply(s, step)
  }

  lemma {:induction false} RunKeepsInv(states: seq<State>, steps: seq<Step>, threads: nat, n: nat)
    requires IsRun(states, steps, threads) && n < |states|
    ensures Inv(states[n])
  {
    if n == 0 {
      InitInv(threads);
    } else {
      RunKeepsInv(states, steps, threads, n - 1);
      assert Follows(states[n - 1], steps[n - 1], states[n]);
      StepKeeps(states[n - 1], steps[n - 1]);
    }
  }

  /** Callbacks are begun in the order they were added, each once and none skipped. */
  lemma StartedInOrder(states: seq<State>, steps: seq<Step>, threads: nat, n: nat)
    requires IsRun(states, steps, threads) && n < |states|
    ensures states[n].started <= states[n].added
    ensures states[n].added[|states[n].started|..] == states[n].pending
  {
    RunKeepsInv(states, steps, threads, n);
    hide Sum;
  }

  ghost predicate Executes(stack: seq<Frame>, d: nat) {
    d < |stack| && (stack[d].Running? || stack[d].Ending?)
  }

  lemma {:induction false} StackHolds(stack: seq<Frame>, d: nat)
    requires Executes(stack, d)
    ensures StackSum(stack, Holding) >= 1
  {
    if d < |stack| - 1 {
      StackHolds(stack[..|stack| - 1], d);
    }
  }

  lemma {:induction false} StackHoldsTwice(stack: seq<Frame>, d: nat, e: nat)
    requires Executes(stack, d) && Executes(stack, e) && d < e
    ensures StackSum(stack, Holding) >= 2
  {
    if e < |stack| - 1 {
      StackHoldsTwice(stack[..|stack| - 1], d, e);
    } else {
      StackHolds(stack[..|stack| - 1], d);
    }
  }

  lemma {:induction false} TwoHold(threads: seq<seq<Frame>>, t: nat, u: nat)
    requires t < u < |threads|
    ensures Sum(threads, Holding) >= StackSum(threads[t], Holding) + StackSum(threads[u], Holding)
  {
    if t > 0 {
      TwoHold(threads[1..], t - 1, u - 1);
    } else {
      SumAtLeast(threads[1..], u - 1, Holding);
    }
  }

  /** No two callbacks are ever in progress at once, on different threads or nested on one. */
  lemma NeverOverlap(states: seq<State>, steps: seq<Step>, threads: nat, n: nat, t: nat, d: nat, u: nat, e: nat)
    requires IsRun(states, steps, threads) && n < |states| && t < |states[n].threads| && u < |states[n].threads|
    requires Executes(states[n].threads[t], d) && Executes(states[n].threads[u], e)
    ensures t == u && d == e
  {
    RunKeepsInv(states, steps, threads, n);
    var all := states[n].threads;
    assert Sum(all, Holding) <= 1;
    StackHolds(all[t], d);
    StackHolds(all[u], e);
    if t < u {
      TwoHold(all, t, u);
    } else if u < t {
      TwoHold(all, u, t);
    } else {
      SumAtLeast(all, t, Holding);
      if d < e {
        StackHoldsTwice(all[t], d, e);
      } else if e < d {
        StackHoldsTwice(all[t], e, d);
      }
    }
  }

  /** When every thread is idle and nothing is scheduled, every callback added has been begun. */
  lemma NeverStranded(states: seq<State>, steps: seq<Step>, threads: nat, n: nat)
    requires IsRun(states, steps, threads) && n < |states| && states[n].scheduled == 0
    requires forall t :: 0 <= t < |states[n].threads| ==> states[n].threads[t] == []
    ensures states[n].pending == [] && states[n].started == states[n].added
  {
    RunKeepsInv(states, steps, threads, n);
    SumEmpty(states[n].threads, Holding);
    SumEmpty(states[n].threads, Committed);
  }

  lemma {:induction false} SumEmpty(threads: seq<seq<Frame>>, m: Measure)
    requires forall t :: 0 <= t < |threads| ==> threads[t] == []
    ensures Sum(threads, m) == 0
  {
    if threads != [] {
      SumEmpty(threads[1..], m);
    }
  }

  /** While callbacks are pending some thread can take a step of its own. */
  lemma NeverStuck(states: seq<State>, steps: seq<Step>, threads: nat, n: nat)
    requires IsRun(states, steps, threads) && n < |states| && |states[n].threads| > 0 && states[n].pending != []
    ensures exists step :: Enabled(states[n], step) && !External(step)
  {
    var s := states[n];
    if t :| 0 <= t < |s.threads| && s.threads[t] != [] {
      var step := Next(s, t);
    } else if s.scheduled > 0 {
      assert Enabled(s, Take(0)) && !External(Take(0));
    } else {
      NeverStranded(states, steps, threads, n);
    }
  }

  /** The step a busy thread takes next. */
  function Next(s: State, t: nat): (step: Step)
    requires t < |s.threads| && s.threads[t] != []
    ensures Enabled(s, step) && !External(step)
  {
    match Top(s, t)
    case Adding(_) => Append(t)
    case Deciding => Decide(t)
    case Scheduling => Schedule(t)
    case Processing => Start(t)
    case Running(_) => Finish(t)
    case Ending => Clear(t)
  }

  function Budgets(steps: seq<Step>): nat {
    if steps == [] then 0 else Budgets(steps[..|steps| - 1]) + Budget(steps[|steps| - 1])
  }

  function Internals(steps: seq<Step>): nat {
    if steps == [] then 0
    else Internals(steps[..|steps| - 1]) + if External(steps[|steps| - 1]) then 0 else 1
  }

  /** The client cannot spin: the steps it takes by itself are bounded by eleven for each callback
      added and one for each drain call. */
  lemma {:induction false} RunIsBounded(states: seq<State>, steps: seq<Step>, threads: nat)
    requires IsRun(states, steps, threads)
    ensures Internals(steps) + Outstanding(states[|steps|]) <= Budgets(steps)
  {
    if steps == [] {
      SumIdle(threads, Effort);
    } else {
      var n := |steps| - 1;
      hide Outstanding;
      hide Apply;
      var states', steps' := states[..|steps|], steps[..n];
      forall i | 0 <= i < |steps'| ensures Follows(states'[i], steps'[i], states'[i + 1]) {
        assert Follows(states[i], steps[i], states[i + 1]);
      }
      RunIsBounded(states', steps', threads);
      assert Follows(states[n], steps[n], states[n + 1]);
      StepCosts(states[n], steps[n]);
    }
  }
}
