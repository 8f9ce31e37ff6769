/** `threadpool` as a transition system: each region under the mutex is one step, and the notifications
    sent outside it are steps of their own. */
module ThreadPool {
  /** Ready: awake and about to take the mutex. Waiting: asleep on the condition variable. */
  datatype Worker<T> = Ready | Waiting | Running(task: T) | Exited

  /** Where the one effective call of `stop` is. */
  datatype Stopper = NotCalled | NotifyingAll | Joining(joined: nat)

  datatype Pool<T> = Pool(
    stop: bool,
    queue: seq<T>,
    workers: seq<Worker<T>>,
    pending: nat,      // pushes that have left the mutex and not yet called notify_one
    stopper: Stopper,
    accepted: seq<T>,  // tasks in push order
    taken: seq<T>,     // tasks in the order workers took them off the queue
    finished: seq<T>)  // tasks in the order they ended

  datatype Step<T> =
    | Push(task: T)        // the mutex region of `push`
    | NotifyOne(w: nat)    // wakes one waiting worker
    | NotifyNobody         // nobody was waiting
    | Spurious(w: nat)     // a waiting worker wakes up unnotified
    | Enter(w: nat)        // the mutex region of `entry`
    | Finish(w: nat)       // a task ends
    | SetStop              // the mutex region of `stop`
    | NotifyAll
    | Join                 // the next thread in line has ended

  predicate IsWaiting<T>(p: Pool<T>, w: nat) {
    w < |p.workers| && p.workers[w].Waiting?
  }

  predicate NobodyWaits<T>(p: Pool<T>) {
    forall w | 0 <= w < |p.workers| :: !p.workers[w].Waiting?
  }

  predicate Enabled<T>(p: Pool<T>, step: Step<T>) {
    match step
    case Push(_) => !p.stop
    case NotifyOne(w) => p.pending > 0 && IsWaiting(p, w)
    case NotifyNobody => p.pending > 0 && NobodyWaits(p)
    case Spurious(w) => IsWaiting(p, w)
    case Enter(w) => w < |p.workers| && p.workers[w].Ready?
    case Finish(w) => w < |p.workers| && p.workers[w].Running?
    case SetStop => !p.stop
    case NotifyAll => p.stopper.NotifyingAll?
    case Join => p.stopper.Joining? && p.stopper.joined < |p.workers| && p.workers[p.stopper.joined].Exited?
  }

  function SetWorker<T>(p: Pool<T>, w: nat, state: Worker<T>): Pool<T>
    requires w < |p.workers|
  {
    p.(workers := p.workers[w := state])
  }

  function WakeAll<T>(ws: seq<Worker<T>>): seq<Worker<T>> {
    seq(|ws|, i requires 0 <= i < |ws| => if ws[i].Waiting? then Ready else ws[i])
  }

  /** The loop body of `entry`: leave, take the oldest task, or sleep. */
  function EnterStep<T>(p: Pool<T>, w: nat): Pool<T>
    requires w < |p.workers|
  {
    if p.stop && p.queue == [] then SetWorker(p, w, Exited)
    else if p.queue != [] then
      SetWorker(p, w, Running(p.queue[0])).(queue := p.queue[1..], taken := p.taken + [p.queue[0]])
    else SetWorker(p, w, Waiting)
  }

  function Apply<T>(p: Pool<T>, step: Step<T>): Pool<T>
    requires Enabled(p, step)
  {
    match step
    case Push(t) => p.(queue := p.queue + [t], pending := p.pending + 1, accepted := p.accepted + [t])
    case NotifyOne(w) => SetWorker(p, w, Ready).(pending := p.pending - 1)
    case NotifyNobody => p.(pending := p.pending - 1)
    case Spurious(w) => SetWorker(p, w, Ready)
    case Enter(w) => EnterStep(p, w)
    case Finish(w) => SetWorker(p, w, Ready).(finished := p.finished + [p.workers[w].task])
    case SetStop => p.(stop := true, stopper := NotifyingAll)
    case NotifyAll => p.(workers := WakeAll(p.workers), stopper := Joining(0))
    case Join => p.(stopper := Joining(p.stopper.joined + 1))
  }

  /** A new pool: a thread count below one means one. */
  function NewPool<T>(threads: int): Pool<T> {
    Pool(false, [], seq(if threads <= 0 then 1 else threads, i => Ready), 0, NotCalled, [], [], [])
  }

  predicate CanRun<T>(p: Pool<T>, steps: seq<Step<T>>)
    decreases |steps|
  {
    steps == [] || (Enabled(p, steps[0]) && CanRun(Apply(p, steps[0]), steps[1..]))
  }

  function Run<T>(p: Pool<T>, steps: seq<Step<T>>): Pool<T>
    requires CanRun(p, steps)
    decreases |steps|
  {
    if steps == [] then p else Run(Apply(p, steps[0]), steps[1..])
  }

  // ---- sums over the workers ----

  /** The sum of a weight per worker. */
  function Sum<T>(ws: seq<Worker<T>>, weight: Worker<T> -> nat): nat {
    if ws == [] then 0 else Sum(ws[..|ws| - 1], weight) + weight(ws[|ws| - 1])
  }

  lemma {:induction false} SumUpdate<T>(ws: seq<Worker<T>>, weight: Worker<T> -> nat, w: nat, state: Worker<T>)
    requires w < |ws|
    ensures Sum(ws[w := state], weight) == Sum(ws, weight) - weight(ws[w]) + weight(state)
  {
    var n := |ws| - 1;
    if w == n {
      assert ws[w := state][..n] == ws[..n];
    } else {
      assert ws[w := state][..n] == ws[..n][w := state];
      SumUpdate(ws[..n], weight, w, state);
    }
  }

  /** A positive sum has a positive member. */
  lemma {:induction false} SumPositive<T>(ws: seq<Worker<T>>, weight: Worker<T> -> nat) returns (w: nat)
    requires Sum(ws, weight) > 0
    ensures w < |ws| && weight(ws[w]) > 0
  {
    w := |ws| - 1;
    if weight(ws[w]) == 0 {
      w := SumPositive(ws[..|ws| - 1], weight);
    }
  }

  lemma {:induction false} SumWoken<T>(ws: seq<Worker<T>>, weight: Worker<T> -> nat)
    ensures weight(Ready) <= weight(Waiting) ==> Sum(WakeAll(ws), weight) <= Sum(ws, weight)
    ensures weight(Ready) >= weight(Waiting) ==> Sum(WakeAll(ws), weight) >= Sum(ws, weight)
  {
    if ws != [] {
      var n := |ws| - 1;
      assert WakeAll(ws)[..n] == WakeAll(ws[..n]);
      SumWoken(ws[..n], weight);
    }
  }

  function Readiness<T>(w: Worker<T>): nat {
    if w.Ready? then 1 else 0
  }

  // ---- the invariant ----

  /** No lost wakeup: while a worker sleeps, every queued task has a notification on its way or a worker awake. */
  ghost predicate NoLostWakeup<T>(p: Pool<T>) {
    NobodyWaits(p) || |p.queue| <= p.pending + Sum(p.workers, Readiness)
  }

  /** Only a stopped pool with nothing queued loses workers, and `notify_all` reaches every sleeper. */
  ghost predicate StopOrder<T>(p: Pool<T>) {
    && (p.stop <==> !p.stopper.NotCalled?)
    && ((exists w :: 0 <= w < |p.workers| && p.workers[w].Exited?) ==> p.stop && p.queue == [])
    && (p.stopper.Joining? ==>
          && NobodyWaits(p) && p.stopper.joined <= |p.workers|
          && forall w | 0 <= w < p.stopper.joined :: p.workers[w].Exited?)
  }

  ghost function Runs<T>(t: T): Worker<T> -> nat {
    (w: Worker<T>) => if w == Running(t) then 1 else 0
  }

  /** Each task taken has finished or is in the hands of one worker. */
  ghost predicate Accounted<T(!new)>(taken: seq<T>, finished: seq<T>, ws: seq<Worker<T>>) {
    forall t :: multiset(taken)[t] == multiset(finished)[t] + Sum(ws, Runs(t))
  }

  /** Every accepted task is queued, or taken once; tasks leave in push order. */
  ghost predicate EachOnce<T(!new)>(p: Pool<T>) {
    p.accepted == p.taken + p.queue && Accounted(p.taken, p.finished, p.workers)
  }

  ghost predicate Invariant<T(!new)>(p: Pool<T>) {
    p.workers != [] && NoLostWakeup(p) && StopOrder(p) && EachOnce(p)
  }

  lemma {:induction false} NewPoolInvariant<T(!new)>(threads: int)
    ensures var p := NewPool<T>(threads);
            && Invariant(p) && !p.stop && p.queue == p.accepted == p.taken == p.finished == [] && p.pending == 0
            && |p.workers| == (if threads > 1 then threads else 1)
            && forall w | 0 <= w < |p.workers| :: p.workers[w].Ready?
  {
    var p := NewPool<T>(threads);
    AllReady(p.workers);
  }

  lemma {:induction false} AllReady<T(!new)>(ws: seq<Worker<T>>)
    requires forall i | 0 <= i < |ws| :: ws[i] == Ready
    ensures forall t: T :: Sum(ws, Runs(t)) == 0
  {
    if ws != [] {
      AllReady(ws[..|ws| - 1]);
    }
  }

  lemma {:induction false} WakeupKept<T(!new)>(p: Pool<T>, step: Step<T>)
    requires Invariant(p) && Enabled(p, step)
    ensures NoLostWakeup(Apply(p, step))
  {
    hide EachOnce;
    match step
    case NotifyOne(w) => SumUpdate(p.workers, Readiness, w, Ready);
    case Spurious(w) => SumUpdate(p.workers, Readiness, w, Ready);
    case Finish(w) => SumUpdate(p.workers, Readiness, w, Ready);
    case Enter(w) => EnterWakeup(p, w);
    case _ =>
  }

  lemma {:induction false} EnterWakeup<T>(p: Pool<T>, w: nat)
    requires NoLostWakeup(p) && w < |p.workers| && p.workers[w].Ready?
    ensures NoLostWakeup(EnterStep(p, w))
  {
    var p' := EnterStep(p, w);
    if p.queue != [] {
      SumUpdate(p.workers, Readiness, w, Running(p.queue[0]));
      if NobodyWaits(p) {
        assert forall v | 0 <= v < |p'.workers| :: !p'.workers[v].Waiting?;
      }
    }
  }

  lemma {:induction false} StopOrderKept<T(!new)>(p: Pool<T>, step: Step<T>)
    requires Invariant(p) && Enabled(p, step)
    ensures StopOrder(Apply(p, step))
  {
    hide EachOnce, NoLostWakeup, Sum;
    var p' := Apply(p, step);
    if w :| 0 <= w < |p'.workers| && p'.workers[w].Exited? {
      assert p.workers[w].Exited? || (step == Enter(w) && p.stop && p.queue == []);
    }
  }

  lemma {:induction false} AccountedIdle<T(!new)>(taken: seq<T>, finished: seq<T>, ws: seq<Worker<T>>, w: nat,
      state: Worker<T>)
    requires Accounted(taken, finished, ws) && w < |ws| && !ws[w].Running? && !state.Running?
    ensures Accounted(taken, finished, ws[w := state])
  {
    forall t ensures multiset(taken)[t] == multiset(finished)[t] + Sum(ws[w := state], Runs(t)) {
      SumUpdate(ws, Runs(t), w, state);
    }
  }

  lemma {:induction false} AccountedTake<T(!new)>(taken: seq<T>, finished: seq<T>, ws: seq<Worker<T>>, w: nat, task: T)
    requires Accounted(taken, finished, ws) && w < |ws| && !ws[w].Running?
    ensures Accounted(taken + [task], finished, ws[w := Running(task)])
  {
    forall t ensures multiset(taken + [task])[t] == multiset(finished)[t] + Sum(ws[w := Running(task)], Runs(t)) {
      SumUpdate(ws, Runs(t), w, Running(task));
    }
  }

  lemma {:induction false} AccountedFinish<T(!new)>(taken: seq<T>, finished: seq<T>, ws: seq<Worker<T>>, w: nat)
    requires Accounted(taken, finished, ws) && w < |ws| && ws[w].Running?
    ensures Accounted(taken, finished + [ws[w].task], ws[w := Ready])
  {
    forall t ensures multiset(taken)[t] == multiset(finished + [ws[w].task])[t] + Sum(ws[w := Ready], Runs(t)) {
      SumUpdate(ws, Runs(t), w, Ready);
    }
  }

  lemma {:induction false} AccountedWoken<T(!new)>(taken: seq<T>, finished: seq<T>, ws: seq<Worker<T>>)
    requires Accounted(taken, finished, ws)
    ensures Accounted(taken, finished, WakeAll(ws))
  {
    forall t ensures multiset(taken)[t] == multiset(finished)[t] + Sum(WakeAll(ws), Runs(t)) {
      SumWoken(ws, Runs(t));
    }
  }

  lemma {:induction false} EachOnceKept<T(!new)>(p: Pool<T>, step: Step<T>)
    requires Invariant(p) && Enabled(p, step)
    ensures EachOnce(Apply(p, step))
  {
    hide NoLostWakeup, StopOrder, Sum, Accounted;
    match step
    case NotifyOne(w) => AccountedIdle(p.taken, p.finished, p.workers, w, Ready);
    case Spurious(w) => AccountedIdle(p.taken, p.finished, p.workers, w, Ready);
    case Finish(w) => AccountedFinish(p.taken, p.finished, p.workers, w);
    case Enter(w) =>
      if p.queue != [] {
        AccountedTake(p.taken, p.finished, p.workers, w, p.queue[0]);
        assert p.queue == [p.queue[0]] + p.queue[1..];
      } else {
        AccountedIdle(p.taken, p.finished, p.workers, w, Exited);
        AccountedIdle(p.taken, p.finished, p.workers, w, Waiting);
      }
    case NotifyAll => AccountedWoken(p.taken, p.finished, p.workers);
    case _ =>
  }

  /** Every step of every interleaving keeps the invariant. */
  lemma {:induction false} StepKeepsPool<T(!new)>(p: Pool<T>, step: Step<T>)
    requires Invariant(p) && Enabled(p, step)
    ensures Invariant(Apply(p, step))
    ensures |Apply(p, step).workers| == |p.workers|
  {
    WakeupKept(p, step);
    StopOrderKept(p, step);
    EachOnceKept(p, step);
    hide NoLostWakeup, StopOrder, EachOnce;
  }

  lemma {:induction false} RunKeepsPool<T(!new)>(p: Pool<T>, steps: seq<Step<T>>)
    requires Invariant(p) && CanRun(p, steps)
    ensures Invariant(Run(p, steps)) && |Run(p, steps).workers| == |p.workers|
    decreases |steps|
  {
    hide Invariant;
    if steps != [] {
      StepKeepsPool(p, steps[0]);
      RunKeepsPool(Apply(p, steps[0]), steps[1..]);
    }
  }

  /** A queued task has a notification on its way, or a worker awake or at work that will look again. */
  lemma {:induction false} QueuedMeansActive<T(!new)>(p: Pool<T>)
    requires Invariant(p) && p.queue != []
    ensures p.pending > 0 || exists w :: 0 <= w < |p.workers| && (p.workers[w].Ready? || p.workers[w].Running?)
  {
    if NobodyWaits(p) {
      assert p.workers[0].Ready? || p.workers[0].Running?;
    } else if p.pending == 0 {
      var w := SumPositive(p.workers, Readiness);
      assert p.workers[w].Ready?;
    }
  }

  // ---- without stop: nothing accepted is forgotten ----

  predicate IsInternal<T>(step: Step<T>) {
    !step.Push? && !step.Spurious? && !step.SetStop?
  }

  function QuietWeight<T>(w: Worker<T>): nat {
    match w case Running(_) => 2 case Ready => 1 case Waiting => 0 case Exited => 0
  }

  function StopperWeight<T>(p: Pool<T>): nat {
    match p.stopper
    case NotCalled => 0
    case NotifyingAll => |p.workers| + 2
    case Joining(k) => if k <= |p.workers| then |p.workers| - k else 0
  }

  /** What is left to do while nothing new comes in. */
  function Unrest<T>(p: Pool<T>): nat {
    3 * |p.queue| + 2 * p.pending + Sum(p.workers, QuietWeight)
  }

  /** Left alone, an open pool comes to rest: each step but a spurious wakeup lowers the measure. */
  lemma {:induction false} UnrestFalls<T(!new)>(p: Pool<T>, step: Step<T>)
    requires Invariant(p) && !p.stop && Enabled(p, step) && IsInternal(step)
    ensures Unrest(Apply(p, step)) < Unrest(p) && !Apply(p, step).stop
  {
    hide EachOnce, NoLostWakeup;
    match step
    case NotifyOne(w) => SumUpdate(p.workers, QuietWeight, w, Ready);
    case Finish(w) => SumUpdate(p.workers, QuietWeight, w, Ready);
    case Enter(w) =>
      if p.queue != [] {
        SumUpdate(p.workers, QuietWeight, w, Running(p.queue[0]));
      } else {
        SumUpdate(p.workers, QuietWeight, w, Waiting);
      }
    case NotifyNobody =>
  }

  ghost predicate AtRest<T(!new)>(p: Pool<T>) {
    forall step: Step<T> | IsInternal(step) :: !Enabled(p, step)
  }

  /** An open pool at rest has run every task it accepted, exactly once. */
  lemma {:induction false} RestMeansDone<T(!new)>(p: Pool<T>)
    requires Invariant(p) && !p.stop && AtRest(p)
    ensures p.queue == [] && p.taken == p.accepted && multiset(p.finished) == multiset(p.accepted)
    ensures forall w | 0 <= w < |p.workers| :: p.workers[w].Waiting?
  {
    forall w | 0 <= w < |p.workers| ensures p.workers[w].Waiting? {
      assert !Enabled(p, Step<T>.Enter(w)) && !Enabled(p, Step<T>.Finish(w));
    }
    assert !Enabled(p, Step<T>.NotifyOne(0));
    assert p.pending == 0 && IsWaiting(p, 0);
    NoneAwake(p.workers);
  }

  lemma {:induction false} NoneAwake<T(!new)>(ws: seq<Worker<T>>)
    requires forall w | 0 <= w < |ws| :: ws[w].Waiting? || ws[w].Exited?
    ensures Sum(ws, Readiness) == 0 && forall t: T :: Sum(ws, Runs(t)) == 0
  {
    if ws != [] {
      NoneAwake(ws[..|ws| - 1]);
    }
  }

  // ---- stop: the pool drains and every worker leaves ----

  function DrainWeight<T>(w: Worker<T>): nat {
    match w case Running(_) => 2 case Waiting => 2 case Ready => 1 case Exited => 0
  }

  function Remaining<T>(p: Pool<T>): nat {
    2 * |p.queue| + p.pending + Sum(p.workers, DrainWeight) + StopperWeight(p)
  }

  /** Once `stop` has set the flag every step, spurious wakeups included, lowers the measure. */
  lemma {:induction false} RemainingFalls<T(!new)>(p: Pool<T>, step: Step<T>)
    requires Invariant(p) && p.stop && Enabled(p, step)
    ensures Remaining(Apply(p, step)) < Remaining(p) && Apply(p, step).stop
  {
    hide EachOnce, NoLostWakeup;
    match step
    case NotifyOne(w) => SumUpdate(p.workers, DrainWeight, w, Ready);
    case Spurious(w) => SumUpdate(p.workers, DrainWeight, w, Ready);
    case Finish(w) => SumUpdate(p.workers, DrainWeight, w, Ready);
    case Enter(w) =>
      if p.queue != [] {
        SumUpdate(p.workers, DrainWeight, w, Running(p.queue[0]));
      } else {
        SumUpdate(p.workers, DrainWeight, w, Exited);
      }
    case NotifyAll => SumWoken(p.workers, DrainWeight);
    case NotifyNobody =>
    case Join =>
  }

  /** So no run goes on for longer than what remained when the flag was set. */
  lemma {:induction false} StopTerminates<T(!new)>(p: Pool<T>, steps: seq<Step<T>>)
    requires Invariant(p) && p.stop && CanRun(p, steps)
    ensures |steps| <= Remaining(p)
    decreases |steps|
  {
    hide Invariant, Remaining;
    if steps != [] {
      StepKeepsPool(p, steps[0]);
      RemainingFalls(p, steps[0]);
      StopTerminates(Apply(p, steps[0]), steps[1..]);
    }
  }

  ghost predicate AllExited<T>(p: Pool<T>) {
    forall w | 0 <= w < |p.workers| :: p.workers[w].Exited?
  }

  ghost predicate Stuck<T(!new)>(p: Pool<T>) {
    forall step: Step<T> :: !Enabled(p, step)
  }

  /** And the only state a stopped pool can end in: all workers left and joined, every accepted task run once. */
  lemma {:induction false} StuckMeansDrained<T(!new)>(p: Pool<T>)
    requires Invariant(p) && p.stop && Stuck(p)
    ensures AllExited(p) && p.stopper == Joining(|p.workers|)
    ensures p.queue == [] && multiset(p.finished) == multiset(p.accepted)
  {
    assert !Enabled(p, Step<T>.NotifyAll);
    forall w | 0 <= w < |p.workers| ensures p.workers[w].Exited? {
      assert !Enabled(p, Step<T>.Enter(w)) && !Enabled(p, Step<T>.Finish(w));
    }
    assert !Enabled(p, Step<T>.Join);
    ExitedMeansDone(p);
  }

  lemma {:induction false} ExitedMeansDone<T(!new)>(p: Pool<T>)
    requires Invariant(p) && AllExited(p)
    ensures p.stop && p.queue == [] && p.taken == p.accepted && multiset(p.finished) == multiset(p.accepted)
  {
    assert p.workers[0].Exited?;
    NoneAwake(p.workers);
  }

  // ---- order ----

  ghost predicate OneWorkerOrder<T>(p: Pool<T>) {
    |p.workers| == 1 && p.taken == p.finished + (if p.workers[0].Running? then [p.workers[0].task] else [])
  }

  lemma {:induction false} OneWorkerStep<T>(p: Pool<T>, step: Step<T>)
    requires OneWorkerOrder(p) && Enabled(p, step)
    ensures OneWorkerOrder(Apply(p, step))
  {
    if step.Enter? && p.queue != [] {
      assert p.taken == p.finished;
    }
  }

  /** With one worker tasks also end in push order. */
  lemma {:induction false} OneWorkerRun<T(!new)>(p: Pool<T>, steps: seq<Step<T>>)
    requires Invariant(p) && OneWorkerOrder(p) && CanRun(p, steps)
    ensures OneWorkerOrder(Run(p, steps)) && Run(p, steps).finished <= Run(p, steps).accepted
    decreases |steps|
  {
    hide NoLostWakeup, StopOrder, Apply, Enabled;
    if steps != [] {
      StepKeepsPool(p, steps[0]);
      OneWorkerStep(p, steps[0]);
      OneWorkerRun(Apply(p, steps[0]), steps[1..]);
    }
  }

  /** Whatever the interleaving, tasks taken so far are the oldest accepted ones, in push order. */
  lemma {:induction false} TakenInPushOrder<T(!new)>(threads: int, steps: seq<Step<T>>)
    requires CanRun(NewPool<T>(threads), steps)
    ensures var p := Run(NewPool<T>(threads), steps);
            && Invariant(p)
            && p.taken <= p.accepted && p.accepted[|p.taken|..] == p.queue
            && (threads <= 1 ==> p.finished <= p.accepted)
  {
    NewPoolInvariant<T>(threads);
    RunKeepsPool(NewPool<T>(threads), steps);
    if threads <= 1 {
      OneWorkerRun(NewPool<T>(threads), steps);
    }
  }
}
