/** Publishes, worker steps and acks of one queue, in any interleaving, from recovery until the queue is
    deleted or cleared. A publish inserts a message and then pushes a consume task; a worker starts a task,
    pops a message, chooses a consumer, delivers, and acknowledges when the consumer asked for that. */
module Pipeline {
  import opened Basics
  import opened PayloadCodec
  import opened QueueModel
  import opened StoreIndex

  /** Started: a consume task of this queue is off the pool's queue and has not popped yet. Messages are
      named by their place in the order of popping. */
  datatype Phase = Idle | Started | Holding(k: nat) | Acking(k: nat)

  datatype Pipe = Pipe(
    q: QState,
    unpushed: nat,           // messages inserted whose task is not pushed yet
    tasks: nat,              // consume tasks in the pool's queue
    workers: seq<Phase>,
    popped: seq<Payload>,
    delivered: seq<nat>,     // places of the messages sent to a consumer, in order
    leftWaiting: seq<nat>,   // places of the messages nobody was there to take, in order
    emptyHanded: nat,        // tasks that found no message
    intact: bool)             // the records recovered lie in 32-bit offsets, and every message inserted fitted in

  datatype Event =
    | Insert(p: Payload)
    | PushTask
    | Start(w: nat)
    | Pop(w: nat)
    | Deliver(w: nat, autoAck: bool)
    | NobodyThere(w: nat)    // no consumer to choose: the message stays among the waiting
    | AutoAck(w: nat, relisted: seq<Payload>)
    | ClientAck(id: Bytes, relisted: seq<Payload>)

  /** What the compaction of an ack may put back on the list: nothing while the store is in its invariant, and
      otherwise only records found by the ack of a durable message. */
  predicate MayRelist(s: Pipe, id: Bytes, relisted: seq<Payload>) {
    relisted != [] ==> !s.intact && id in s.q.waiting && IsDurable(s.q.waiting[id])
  }

  predicate Enabled(s: Pipe, e: Event) {
    match e
    case Insert(_) => true
    case PushTask => s.unpushed > 0
    case Start(w) => w < |s.workers| && s.workers[w].Idle? && s.tasks > 0
    case Pop(w) => w < |s.workers| && s.workers[w].Started?
    case Deliver(w, _) => w < |s.workers| && s.workers[w].Holding?
    case NobodyThere(w) => w < |s.workers| && s.workers[w].Holding?
    case AutoAck(w, relisted) =>
      && w < |s.workers| && s.workers[w].Acking? && s.workers[w].k < |s.popped|
      && MayRelist(s, Id(s.popped[s.workers[w].k]), relisted)
    case ClientAck(id, relisted) => MayRelist(s, id, relisted)
  }

  function SetWorker(s: Pipe, w: nat, phase: Phase): Pipe
    requires w < |s.workers|
  {
    s.(workers := s.workers[w := phase])
  }

  function PopStep(s: Pipe, w: nat): Pipe
    requires w < |s.workers|
  {
    if s.q.getable == [] then SetWorker(s, w, Idle).(emptyHanded := s.emptyHanded + 1)
    else SetWorker(s, w, Holding(|s.popped|)).(q := Step(s.q, Op.Front), popped := s.popped + [s.q.getable[0]])
  }

  function AckStep(s: Pipe, id: Bytes, relisted: seq<Payload>): Pipe {
    var q := Step(s.q, Op.Ack(id));
    s.(q := q.(getable := q.getable + relisted))
  }

  function Apply(s: Pipe, e: Event): Pipe
    requires Enabled(s, e)
  {
    match e
    case Insert(p) =>
      s.(q := Step(s.q, Op.Insert(p)), unpushed := s.unpushed + 1, intact := s.intact && Insertable(s.q, p))
    case PushTask => s.(unpushed := s.unpushed - 1, tasks := s.tasks + 1)
    case Start(w) => SetWorker(s, w, Started).(tasks := s.tasks - 1)
    case Pop(w) => PopStep(s, w)
    case Deliver(w, autoAck) =>
      SetWorker(s, w, if autoAck then Acking(s.workers[w].k) else Idle).(delivered := s.delivered + [s.workers[w].k])
    case NobodyThere(w) => SetWorker(s, w, Idle).(leftWaiting := s.leftWaiting + [s.workers[w].k])
    case AutoAck(w, relisted) => SetWorker(AckStep(s, Id(s.popped[s.workers[w].k]), relisted), w, Idle)
    case ClientAck(id, relisted) => AckStep(s, id, relisted)
  }

  predicate CanRun(s: Pipe, events: seq<Event>)
    decreases |events|
  {
    events == [] || (Enabled(s, events[0]) && CanRun(Apply(s, events[0]), events[1..]))
  }

  function Run(s: Pipe, events: seq<Event>): Pipe
    requires CanRun(s, events)
    decreases |events|
  {
    if events == [] then s else Run(Apply(s, events[0]), events[1..])
  }

  /** What an event adds to the end of the list. */
  function Arriving(e: Event): seq<Payload> {
    match e
    case Insert(p) => [p]
    case AutoAck(_, relisted) => relisted
    case ClientAck(_, relisted) => relisted
    case _ => []
  }

  function Arrived(events: seq<Event>): seq<Payload> {
    if events == [] then [] else Arriving(events[0]) + Arrived(events[1..])
  }

  function Inserts(events: seq<Event>): nat {
    if events == [] then 0 else (if events[0].Insert? then 1 else 0) + Inserts(events[1..])
  }

  /** A queue just recovered: its messages are getable, and no task knows of them. */
  function Recovered(q: QState, workers: nat): Pipe {
    Pipe(q, 0, 0, seq(workers, i => Idle), [], [], [], 0, OffsetsFit(q.log))
  }

  // ---- what every interleaving keeps ----

  function StartedOf(ws: seq<Phase>): nat {
    if ws == [] then 0 else StartedOf(ws[..|ws| - 1]) + (if ws[|ws| - 1].Started? then 1 else 0)
  }

  lemma {:induction false} StartedUpdate(ws: seq<Phase>, w: nat, phase: Phase)
    requires w < |ws|
    ensures StartedOf(ws[w := phase]) ==
      StartedOf(ws) - (if ws[w].Started? then 1 else 0) + (if phase.Started? then 1 else 0)
    ensures ws[w].Started? ==> StartedOf(ws) > 0
  {
    var n := |ws| - 1;
    if w == n {
      assert ws[w := phase][..n] == ws[..n];
    } else {
      assert ws[w := phase][..n] == ws[..n][w := phase];
      StartedUpdate(ws[..n], w, phase);
    }
  }

  /** The workers that hold the message popped k-th. */
  function HoldersOf(ws: seq<Phase>, k: nat): nat {
    if ws == [] then 0 else HoldersOf(ws[..|ws| - 1], k) + (if ws[|ws| - 1] == Holding(k) then 1 else 0)
  }

  lemma {:induction false} HoldersUpdate(ws: seq<Phase>, w: nat, phase: Phase, k: nat)
    requires w < |ws|
    ensures HoldersOf(ws[w := phase], k) ==
      HoldersOf(ws, k) - (if ws[w] == Holding(k) then 1 else 0) + (if phase == Holding(k) then 1 else 0)
    ensures ws[w] == Holding(k) ==> HoldersOf(ws, k) > 0
  {
    var n := |ws| - 1;
    if w == n {
      assert ws[w := phase][..n] == ws[..n];
    } else {
      assert ws[w := phase][..n] == ws[..n][w := phase];
      HoldersUpdate(ws[..n], w, phase, k);
    }
  }

  /** Tasks that have not popped yet, and messages whose task is still to be pushed. */
  function Outstanding(s: Pipe): nat {
    s.unpushed + s.tasks + StartedOf(s.workers)
  }

  /** The getable messages no task will come for: as many as recovery and compactions have put there. */
  ghost predicate Matched(s: Pipe, backlog: nat) {
    |s.q.getable| == backlog + Outstanding(s) && s.emptyHanded == 0
  }

  /** In how many places the message popped k-th is. */
  function PlacesOf(s: Pipe, k: nat): nat {
    multiset(s.delivered)[k] + multiset(s.leftWaiting)[k] + HoldersOf(s.workers, k)
  }

  /** Each popped message is sent, left waiting, or in one worker's hands: exactly one of these, once. */
  ghost predicate HandedOnce(s: Pipe) {
    && (forall k: nat :: PlacesOf(s, k) == if k < |s.popped| then 1 else 0)
    && (forall w | 0 <= w < |s.workers| && s.workers[w].Acking? :: s.workers[w].k < |s.popped|)
  }

  /** What an event puts on the list without a task. */
  function Unasked(e: Event): nat {
    if e.Insert? then 0 else |Arriving(e)|
  }

  /** Popped and getable together grow at the end only. */
  lemma {:induction false} QueueGrows(s: Pipe, e: Event)
    requires Enabled(s, e)
    ensures Apply(s, e).popped + Apply(s, e).q.getable == s.popped + s.q.getable + Arriving(e)
    ensures Apply(s, e).intact ==> s.intact && Unasked(e) == 0
  {
    hide Insertable, Id, AfterGcCheck, Kill, IsDurable;
  }

  lemma {:induction false} QueueKept(s: Pipe, e: Event)
    requires s.intact && WellFormed(s.q) && Enabled(s, e) && Apply(s, e).intact
    ensures WellFormed(Apply(s, e).q)
  {
    hide WellFormed, Id, Step, IsDurable;
    match e
    case Insert(p) => StepKeeps(s.q, Op.Insert(p));
    case Pop(w) =>
      StepKeeps(s.q, Op.Front);
      NothingToTake(s.q);
    case AutoAck(w, _) => AckKept(s.q, Id(s.popped[s.workers[w].k]));
    case ClientAck(id, _) => AckKept(s.q, id);
    case _ =>
  }

  lemma {:induction false} NothingToTake(q: QState)
    ensures q.getable == [] ==> Step(q, Op.Front) == q
  {
  }

  lemma {:induction false} AckKept(q: QState, id: Bytes)
    requires WellFormed(q)
    ensures var r := Step(q, Op.Ack(id)); WellFormed(r) && WellFormed(r.(getable := r.getable + []))
  {
    hide WellFormed, Step;
    StepKeeps(q, Op.Ack(id));
    ConcatNothing(Step(q, Op.Ack(id)).getable);
  }

  lemma {:induction false} MatchedKept(s: Pipe, e: Event, backlog: nat)
    requires Matched(s, backlog) && Enabled(s, e)
    ensures Matched(Apply(s, e), backlog + Unasked(e))
  {
    hide Id, AfterGcCheck, Kill, IsDurable, Insertable;
    match e
    case Start(w) => StartedUpdate(s.workers, w, Started);
    case Pop(w) => StartedUpdate(s.workers, w, Holding(|s.popped|));
    case Deliver(w, autoAck) => StartedUpdate(s.workers, w, if autoAck then Acking(s.workers[w].k) else Idle);
    case NobodyThere(w) => StartedUpdate(s.workers, w, Idle);
    case AutoAck(w, _) => StartedUpdate(s.workers, w, Idle);
    case _ =>
  }

  lemma {:induction false} PlacesKept(s: Pipe, e: Event, k: nat)
    requires HandedOnce(s) && Enabled(s, e)
    ensures PlacesOf(Apply(s, e), k) == if k < |Apply(s, e).popped| then 1 else 0
  {
    hide Step, Id, Insertable, MayRelist, StartedOf, HoldersOf;
    assert PlacesOf(s, k) == if k < |s.popped| then 1 else 0;
    match e
    case Start(w) => HoldersUpdate(s.workers, w, Started, k);
    case Pop(w) =>
      HoldersUpdate(s.workers, w, Idle, k);
      HoldersUpdate(s.workers, w, Holding(|s.popped|), k);
    case Deliver(w, autoAck) => HoldersUpdate(s.workers, w, if autoAck then Acking(s.workers[w].k) else Idle, k);
    case NobodyThere(w) => HoldersUpdate(s.workers, w, Idle, k);
    case AutoAck(w, _) => HoldersUpdate(s.workers, w, Idle, k);
    case _ =>
  }

  lemma {:induction false} HandedOnceKept(s: Pipe, e: Event)
    requires HandedOnce(s) && Enabled(s, e)
    ensures HandedOnce(Apply(s, e))
  {
    hide Step, Id, Insertable, MayRelist, HoldersOf, PlacesOf;
    forall k: nat ensures PlacesOf(Apply(s, e), k) == if k < |Apply(s, e).popped| then 1 else 0 {
      PlacesKept(s, e, k);
    }
    if e.Deliver? {
      HeldIsPopped(s, e.w);
    }
  }

  lemma {:induction false} HeldIsPopped(s: Pipe, w: nat)
    requires HandedOnce(s) && w < |s.workers| && s.workers[w].Holding?
    ensures s.workers[w].k < |s.popped|
  {
    HoldersUpdate(s.workers, w, Idle, s.workers[w].k);
    assert PlacesOf(s, s.workers[w].k) > 0;
  }

  ghost predicate Invariant(s: Pipe, backlog: nat) {
    (s.intact ==> WellFormed(s.q)) && Matched(s, backlog) && HandedOnce(s)
  }

  lemma {:induction false} StepKeepsPipe(s: Pipe, e: Event, backlog: nat)
    requires Invariant(s, backlog) && Enabled(s, e)
    ensures Invariant(Apply(s, e), backlog + Unasked(e))
    ensures Apply(s, e).popped + Apply(s, e).q.getable == s.popped + s.q.getable + Arriving(e)
    ensures Apply(s, e).intact ==> s.intact && Unasked(e) == 0
  {
    hide *;
    InvariantIs(s, backlog);
    QueueGrows(s, e);
    if Apply(s, e).intact {
      QueueKept(s, e);
    }
    MatchedKept(s, e, backlog);
    HandedOnceKept(s, e);
    InvariantIs(Apply(s, e), backlog + Unasked(e));
  }

  lemma {:induction false} InvariantIs(s: Pipe, backlog: nat)
    ensures Invariant(s, backlog) <==> (s.intact ==> WellFormed(s.q)) && Matched(s, backlog) && HandedOnce(s)
  {
    hide WellFormed, Matched, HandedOnce;
  }

  /** The messages compactions put back over a run. */
  function Relisted(events: seq<Event>): nat {
    if events == [] then 0 else Unasked(events[0]) + Relisted(events[1..])
  }

  lemma {:induction false} RunKeepsPipe(s: Pipe, events: seq<Event>, backlog: nat)
    requires Invariant(s, backlog) && CanRun(s, events)
    ensures Invariant(Run(s, events), backlog + Relisted(events))
    ensures Run(s, events).popped + Run(s, events).q.getable == s.popped + s.q.getable + Arrived(events)
    ensures |Arrived(events)| == Inserts(events) + Relisted(events)
    ensures Run(s, events).intact ==> s.intact && Relisted(events) == 0
    decreases |events|
  {
    hide Invariant, Apply, Enabled;
    if events != [] {
      StepKeepsPipe(s, events[0], backlog);
      RunKeepsPipe(Apply(s, events[0]), events[1..], backlog + Unasked(events[0]));
    }
  }

  lemma {:induction false} AllIdle(ws: seq<Phase>, k: nat)
    requires forall i | 0 <= i < |ws| :: ws[i] == Idle
    ensures StartedOf(ws) == 0 && HoldersOf(ws, k) == 0
  {
    if ws != [] {
      AllIdle(ws[..|ws| - 1], k);
    }
  }

  lemma {:induction false} RecoveredMatched(q: QState, workers: nat)
    requires WellFormed(q)
    ensures Invariant(Recovered(q, workers), |q.getable|)
  {
    hide WellFormed;
    var s := Recovered(q, workers);
    AllIdle(s.workers, 0);
    forall k: nat ensures PlacesOf(s, k) == 0 {
      AllIdle(s.workers, k);
    }
  }

  /** Over every interleaving since recovery: no task ever finds the queue empty, the getable messages are
      those some task will come for and as many as recovery left and compactions put back, messages are popped in
      the order recovered, then arrived, and each popped message is in exactly one place, once. While the ids
      inserted have been free, compactions put nothing back. */
  lemma {:induction false} TasksMatchMessages(q: QState, workers: nat, events: seq<Event>)
    requires WellFormed(q) && CanRun(Recovered(q, workers), events)
    ensures var s := Run(Recovered(q, workers), events);
            && s.emptyHanded == 0 && |s.q.getable| == |q.getable| + Relisted(events) + Outstanding(s)
            && s.popped + s.q.getable == q.getable + Arrived(events)
            && |s.popped| + Outstanding(s) == Inserts(events)
            && HandedOnce(s) && (s.intact ==> Relisted(events) == 0 && WellFormed(s.q))
  {
    hide WellFormed, HandedOnce, StartedOf;
    RecoveredMatched(q, workers);
    RunKeepsPipe(Recovered(q, workers), events, |q.getable|);
    var s := Run(Recovered(q, workers), events);
    assert [] + q.getable == q.getable;
    assert |s.popped + s.q.getable| == |q.getable + Arrived(events)|;
  }
}
