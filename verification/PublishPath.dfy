/** The thread pool and the publish path of one queue together: a consume task of the queue is pushed, started
    and ended by the pool, and what it does between is a worker's part of the path. */
module PublishPath {
  import opened Basics
  import opened QueueModel
  import TP = ThreadPool
  import PL = Pipeline

  datatype System = System(pool: TP.Pool<Bytes>, pipe: PL.Pipe)

  datatype Move =
    | Other(step: TP.Step<Bytes>)  // the pool alone: notifications, sleep, tasks of other queues, stop
    | Path(event: PL.Event)        // the path alone: inserts, acks, and what a running task does
    | Push                         // the consume task of a message inserted
    | Start(w: nat)                // a worker takes a consume task off the pool's queue
    | Finish(w: nat)               // a consume task ends

  /** The pool's part of a move touches no task of queue n. */
  predicate Foreign(p: TP.Pool<Bytes>, n: Bytes, step: TP.Step<Bytes>) {
    match step
    case Push(t) => t != n
    case Enter(w) => p.queue != [] ==> p.queue[0] != n
    case Finish(w) => w < |p.workers| && p.workers[w].Running? && p.workers[w].task != n
    case _ => true
  }

  predicate Enabled(s: System, n: Bytes, m: Move) {
    match m
    case Other(step) => TP.Enabled(s.pool, step) && Foreign(s.pool, n, step)
    case Path(e) => !e.PushTask? && !e.Start? && PL.Enabled(s.pipe, e)
    case Push => TP.Enabled(s.pool, TP.Push(n)) && PL.Enabled(s.pipe, PL.PushTask)
    case Start(w) =>
      && TP.Enabled(s.pool, TP.Enter(w)) && s.pool.queue != [] && s.pool.queue[0] == n
      && PL.Enabled(s.pipe, PL.Start(w))
    case Finish(w) =>
      && TP.Enabled(s.pool, TP.Finish(w)) && s.pool.workers[w] == TP.Running(n)
      && w < |s.pipe.workers| && s.pipe.workers[w].Idle?
  }

  function Apply(s: System, n: Bytes, m: Move): System
    requires Enabled(s, n, m)
  {
    match m
    case Other(step) => s.(pool := TP.Apply(s.pool, step))
    case Path(e) => s.(pipe := PL.Apply(s.pipe, e))
    case Push => System(TP.Apply(s.pool, TP.Push(n)), PL.Apply(s.pipe, PL.PushTask))
    case Start(w) => System(TP.Apply(s.pool, TP.Enter(w)), PL.Apply(s.pipe, PL.Start(w)))
    case Finish(w) => s.(pool := TP.Apply(s.pool, TP.Finish(w)))
  }

  /** The path counts the pool's tasks of the queue, and only a worker running one is on the path. */
  ghost predicate Linked(s: System, n: Bytes) {
    && |s.pipe.workers| == |s.pool.workers|
    && s.pipe.tasks == multiset(s.pool.queue)[n]
    && forall w | 0 <= w < |s.pipe.workers| && !s.pipe.workers[w].Idle? :: s.pool.workers[w] == TP.Running(n)
  }

  ghost predicate Invariant(s: System, n: Bytes, backlog: nat) {
    TP.Invariant(s.pool) && PL.Invariant(s.pipe, backlog) && Linked(s, n)
  }

  predicate CanRun(s: System, n: Bytes, moves: seq<Move>)
    decreases |moves|
  {
    moves == [] || (Enabled(s, n, moves[0]) && CanRun(Apply(s, n, moves[0]), n, moves[1..]))
  }

  function Run(s: System, n: Bytes, moves: seq<Move>): System
    requires CanRun(s, n, moves)
    decreases |moves|
  {
    if moves == [] then s else Run(Apply(s, n, moves[0]), n, moves[1..])
  }

  /** The path's part of a move. */
  function EventOf(m: Move): seq<PL.Event> {
    match m
    case Path(e) => [e]
    case Push => [PL.PushTask]
    case Start(w) => [PL.Start(w)]
    case _ => []
  }

  function Events(moves: seq<Move>): seq<PL.Event> {
    if moves == [] then [] else EventOf(moves[0]) + Events(moves[1..])
  }

  /** A new pool over a queue just recovered. */
  function NewSystem(threads: int, q: QState): System {
    var pool := TP.NewPool<Bytes>(threads);
    System(pool, PL.Recovered(q, |pool.workers|))
  }

  lemma {:induction false} NewSystemInvariant(threads: int, q: QState, n: Bytes)
    requires WellFormed(q)
    ensures Invariant(NewSystem(threads, q), n, |q.getable|)
  {
    hide WellFormed, TP.Invariant, PL.Invariant;
    TP.NewPoolInvariant<Bytes>(threads);
    PL.RecoveredMatched(q, |TP.NewPool<Bytes>(threads).workers|);
  }

  // ---- every move keeps the two in step ----

  lemma {:induction false} LinkedKept(s: System, n: Bytes, m: Move)
    requires Linked(s, n) && Enabled(s, n, m)
    ensures Linked(Apply(s, n, m), n)
  {
    hide Step, Insertable, Id, PL.PopStep, PL.MayRelist;
    match m
    case Other(step) => ForeignKeeps(s, n, step);
    case Path(e) => PathKeeps(s, n, e);
    case Push =>
    case Start(w) =>
      assert s.pool.queue == [n] + s.pool.queue[1..];
    case Finish(w) =>
  }

  lemma {:induction false} PathKeeps(s: System, n: Bytes, e: PL.Event)
    requires Linked(s, n) && PL.Enabled(s.pipe, e) && !e.PushTask? && !e.Start?
    ensures Linked(s.(pipe := PL.Apply(s.pipe, e)), n)
  {
    hide Step, Insertable, Id;
  }

  lemma {:induction false} ForeignKeeps(s: System, n: Bytes, step: TP.Step<Bytes>)
    requires Linked(s, n) && TP.Enabled(s.pool, step) && Foreign(s.pool, n, step)
    ensures Linked(s.(pool := TP.Apply(s.pool, step)), n)
  {
    if step.Enter? && s.pool.queue != [] {
      assert s.pool.queue == [s.pool.queue[0]] + s.pool.queue[1..];
    }
  }

  lemma {:induction false} MoveKeeps(s: System, n: Bytes, m: Move, backlog: nat)
    requires Invariant(s, n, backlog) && Enabled(s, n, m)
    ensures Invariant(Apply(s, n, m), n, backlog + PL.Relisted(EventOf(m)))
  {
    LinkedKept(s, n, m);
    hide TP.Invariant, PL.Invariant, TP.Enabled, PL.Enabled, TP.Apply, PL.Apply, Linked, PL.Unasked, PL.Relisted;
    match m
    case Other(step) =>
      TP.StepKeepsPool(s.pool, step);
      RelistedNothing();
    case Path(e) =>
      PL.StepKeepsPipe(s.pipe, e, backlog);
      RelistedOne(e);
    case Push =>
      TP.StepKeepsPool(s.pool, TP.Push(n));
      PL.StepKeepsPipe(s.pipe, PL.PushTask, backlog);
      RelistedOne(PL.PushTask);
    case Start(w) =>
      TP.StepKeepsPool(s.pool, TP.Enter(w));
      PL.StepKeepsPipe(s.pipe, PL.Start(w), backlog);
      RelistedOne(PL.Start(w));
    case Finish(w) =>
      TP.StepKeepsPool(s.pool, TP.Finish(w));
      RelistedNothing();
  }

  lemma {:induction false} RelistedNothing()
    ensures PL.Relisted([]) == 0
  {
  }

  lemma {:induction false} RelistedOne(e: PL.Event)
    ensures PL.Relisted([e]) == PL.Unasked(e)
  {
    hide PL.Unasked;
    assert [e][1..] == [];
  }

  lemma {:induction false} RelistedAppend(a: seq<PL.Event>, b: seq<PL.Event>)
    ensures PL.Relisted(a + b) == PL.Relisted(a) + PL.Relisted(b)
  {
    hide PL.Unasked;
    if a == [] {
      assert a + b == b;
    } else {
      assert (a + b)[1..] == a[1..] + b;
      RelistedAppend(a[1..], b);
    }
  }

  /** A run of the system keeps the invariant, and the path alone runs through its part of it. */
  lemma {:induction false} RunKeeps(s: System, n: Bytes, moves: seq<Move>, backlog: nat)
    requires Invariant(s, n, backlog) && CanRun(s, n, moves)
    ensures Invariant(Run(s, n, moves), n, backlog + PL.Relisted(Events(moves)))
    ensures PL.CanRun(s.pipe, Events(moves)) && Run(s, n, moves).pipe == PL.Run(s.pipe, Events(moves))
    decreases |moves|
  {
    hide Invariant, Apply, Enabled, EventOf, PL.Relisted, PL.CanRun, PL.Run;
    if moves == [] {
      NoEvents(s.pipe);
    } else {
      MoveKeeps(s, n, moves[0], backlog);
      RunKeeps(Apply(s, n, moves[0]), n, moves[1..], backlog + PL.Relisted(EventOf(moves[0])));
      RelistedAppend(EventOf(moves[0]), Events(moves[1..]));
      MoveOnPath(s, n, moves[0], Events(moves[1..]));
    }
  }

  lemma {:induction false} NoEvents(s: PL.Pipe)
    ensures PL.Relisted([]) == 0 && PL.CanRun(s, []) && PL.Run(s, []) == s
  {
  }

  lemma {:induction false} MoveOnPath(s: System, n: Bytes, m: Move, rest: seq<PL.Event>)
    requires Enabled(s, n, m) && PL.CanRun(Apply(s, n, m).pipe, rest)
    ensures PL.CanRun(s.pipe, EventOf(m) + rest)
    ensures PL.Run(s.pipe, EventOf(m) + rest) == PL.Run(Apply(s, n, m).pipe, rest)
  {
    hide TP.Enabled, TP.Apply, PL.Enabled, PL.Apply, Foreign;
    if EventOf(m) == [] {
      assert EventOf(m) + rest == rest;
    } else {
      assert (EventOf(m) + rest)[1..] == rest;
    }
  }

  // ---- at rest ----

  /** Moves that come from outside: a publish, a client's ack, another queue's task pushed, stop, and the
      wakeups nobody asked for. */
  predicate FromOutside(m: Move) {
    match m
    case Other(step) => step.Push? || step.SetStop? || step.Spurious?
    case Path(e) => e.Insert? || e.ClientAck?
    case _ => false
  }

  ghost predicate AtRest(s: System, n: Bytes) {
    forall m | !FromOutside(m) :: !Enabled(s, n, m)
  }

  /** What is left to do while nothing comes from outside. */
  function Unrest(s: System): nat {
    30 * s.pipe.unpushed + 5 * TP.Unrest(s.pool) + PhaseSum(s.pipe.workers)
  }

  function PhaseWeight(p: PL.Phase): nat {
    match p case Started => 3 case Holding(_) => 2 case Acking(_) => 1 case Idle => 0
  }

  function PhaseSum(ws: seq<PL.Phase>): nat {
    if ws == [] then 0 else PhaseSum(ws[..|ws| - 1]) + PhaseWeight(ws[|ws| - 1])
  }

  lemma {:induction false} PhaseUpdate(ws: seq<PL.Phase>, w: nat, phase: PL.Phase)
    requires w < |ws|
    ensures PhaseSum(ws[w := phase]) == PhaseSum(ws) - PhaseWeight(ws[w]) + PhaseWeight(phase)
  {
    var k := |ws| - 1;
    if w == k {
      assert ws[w := phase][..k] == ws[..k];
    } else {
      assert ws[w := phase][..k] == ws[..k][w := phase];
      PhaseUpdate(ws[..k], w, phase);
    }
  }

  /** In an open system every move of its own lowers the measure. */
  lemma {:induction false} UnrestFalls(s: System, n: Bytes, m: Move, backlog: nat)
    requires Invariant(s, n, backlog) && !s.pool.stop && Enabled(s, n, m) && !FromOutside(m)
    ensures Unrest(Apply(s, n, m)) < Unrest(s) && !Apply(s, n, m).pool.stop
  {
    hide TP.NoLostWakeup, TP.StopOrder, TP.EachOnce, WellFormed, PL.HandedOnce, Step, Insertable, Id;
    match m
    case Other(step) => TP.UnrestFalls(s.pool, step);
    case Path(e) => PathFalls(s.pipe, e);
    case Push =>
    case Start(w) =>
      TP.UnrestFalls(s.pool, TP.Enter(w));
      PhaseUpdate(s.pipe.workers, w, PL.Started);
      StartUnrest(s.pool, w);
    case Finish(w) => TP.UnrestFalls(s.pool, TP.Finish(w));
  }

  /** So, left alone, it comes to rest within that many moves. */
  lemma {:induction false} ComesToRest(s: System, n: Bytes, moves: seq<Move>, backlog: nat)
    requires Invariant(s, n, backlog) && !s.pool.stop && CanRun(s, n, moves)
    requires forall i | 0 <= i < |moves| :: !FromOutside(moves[i])
    ensures |moves| <= Unrest(s)
    decreases |moves|
  {
    hide Invariant, Apply, Enabled, Unrest, FromOutside;
    if moves != [] {
      MoveKeeps(s, n, moves[0], backlog);
      UnrestFalls(s, n, moves[0], backlog);
      ComesToRest(Apply(s, n, moves[0]), n, moves[1..], backlog + PL.Relisted(EventOf(moves[0])));
    }
  }

  lemma {:induction false} StartUnrest(p: TP.Pool<Bytes>, w: nat)
    requires TP.Enabled(p, TP.Enter(w)) && p.queue != []
    ensures TP.Unrest(TP.Apply(p, TP.Enter(w))) == TP.Unrest(p) - 2
  {
    TP.SumUpdate(p.workers, TP.QuietWeight, w, TP.Running(p.queue[0]));
  }

  lemma {:induction false} PathFalls(s: PL.Pipe, e: PL.Event)
    requires PL.Enabled(s, e) && !e.Insert? && !e.ClientAck? && !e.PushTask? && !e.Start?
    ensures PL.Apply(s, e).unpushed == s.unpushed && PhaseSum(PL.Apply(s, e).workers) < PhaseSum(s.workers)
  {
    hide Step, Insertable, Id, PhaseSum;
    match e
    case Pop(w) =>
      PhaseUpdate(s.workers, w, PL.Idle);
      PhaseUpdate(s.workers, w, PL.Holding(|s.popped|));
    case Deliver(w, autoAck) =>
      PhaseUpdate(s.workers, w, if autoAck then PL.Acking(s.workers[w].k) else PL.Idle);
    case NobodyThere(w) => PhaseUpdate(s.workers, w, PL.Idle);
    case AutoAck(w, _) => PhaseUpdate(s.workers, w, PL.Idle);
  }

  /** When an open system can move no more of itself: every accepted task has run exactly once, every consume
      task has popped its message, the messages popped are exactly the ones sent and the ones nobody was there to
      take, each once, and exactly as many are getable as recovery brought back and compactions put back, which
      is nothing while the ids inserted have been free. */
  lemma {:induction false} RestLeavesBacklog(threads: int, q: QState, n: Bytes, moves: seq<Move>)
    requires WellFormed(q) && CanRun(NewSystem(threads, q), n, moves)
    requires var s := Run(NewSystem(threads, q), n, moves); !s.pool.stop && AtRest(s, n)
    ensures var s, events := Run(NewSystem(threads, q), n, moves), Events(moves);
            && multiset(s.pool.finished) == multiset(s.pool.accepted)
            && |s.pipe.q.getable| == |q.getable| + PL.Relisted(events) && s.pipe.emptyHanded == 0
            && s.pipe.popped + s.pipe.q.getable == q.getable + PL.Arrived(events)
            && |s.pipe.popped| == PL.Inserts(events)
            && (forall k: nat ::
                  multiset(s.pipe.delivered)[k] + multiset(s.pipe.leftWaiting)[k]
                  == if k < |s.pipe.popped| then 1 else 0)
            && (s.pipe.intact ==> PL.Relisted(events) == 0)
  {
    hide *;
    var start := NewSystem(threads, q);
    NewSystemInvariant(threads, q, n);
    RunKeeps(start, n, moves, |q.getable|);
    NewPipe(threads, q);
    PL.TasksMatchMessages(q, |TP.NewPool<Bytes>(threads).workers|, Events(moves));
    var s := Run(start, n, moves);
    RestIsRest(s, n, |q.getable| + PL.Relisted(Events(moves)));
  }

  lemma {:induction false} NewPipe(threads: int, q: QState)
    ensures NewSystem(threads, q).pipe == PL.Recovered(q, |TP.NewPool<Bytes>(threads).workers|)
  {
    hide PL.Recovered, TP.NewPool;
  }

  lemma {:induction false} RestIsRest(s: System, n: Bytes, backlog: nat)
    requires Invariant(s, n, backlog) && !s.pool.stop && AtRest(s, n)
    ensures multiset(s.pool.finished) == multiset(s.pool.accepted)
    ensures PL.Outstanding(s.pipe) == 0
    ensures forall k: nat :: multiset(s.pipe.delivered)[k] + multiset(s.pipe.leftWaiting)[k]
                          == if k < |s.pipe.popped| then 1 else 0
  {
    hide WellFormed, TP.NoLostWakeup, TP.StopOrder, TP.EachOnce;
    PathAtRest(s, n, backlog);
    PoolAtRest(s, n);
    TP.RestMeansDone(s.pool);
    PL.AllIdle(s.pipe.workers, 0);
    forall k: nat ensures multiset(s.pipe.delivered)[k] + multiset(s.pipe.leftWaiting)[k] == PL.PlacesOf(s.pipe, k) {
      PL.AllIdle(s.pipe.workers, k);
    }
  }

  lemma {:induction false} PathAtRest(s: System, n: Bytes, backlog: nat)
    requires Invariant(s, n, backlog) && !s.pool.stop && AtRest(s, n)
    ensures s.pipe.unpushed == 0 && forall w | 0 <= w < |s.pipe.workers| :: s.pipe.workers[w] == PL.Idle
  {
    hide WellFormed, TP.Invariant, Step, Insertable, Id;
    assert !Enabled(s, n, Push);
    forall w | 0 <= w < |s.pipe.workers| ensures s.pipe.workers[w] == PL.Idle {
      assert !Enabled(s, n, Path(PL.Pop(w))) && !Enabled(s, n, Path(PL.NobodyThere(w)));
      assert !Enabled(s, n, Path(PL.AutoAck(w, [])));
    }
  }

  lemma {:induction false} PoolAtRest(s: System, n: Bytes)
    requires Linked(s, n) && !s.pool.stop && AtRest(s, n)
    requires forall w | 0 <= w < |s.pipe.workers| :: s.pipe.workers[w] == PL.Idle
    ensures TP.AtRest(s.pool)
  {
    hide Step, Insertable, Id;
    forall step: TP.Step<Bytes> | TP.IsInternal(step) ensures !TP.Enabled(s.pool, step) {
      if Foreign(s.pool, n, step) {
        assert !Enabled(s, n, Other(step));
      } else if step.Enter? {
        assert !Enabled(s, n, Start(step.w));
        assert s.pool.queue[0] in multiset(s.pool.queue);
      } else if step.Finish? {
        assert !Enabled(s, n, Finish(step.w));
      }
    }
  }
}
