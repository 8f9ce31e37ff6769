/** What the message store of one queue does, as a state machine: the getable list, the messages
    waiting for an ack, and the record log, with every in-place invalidation and every compaction.
    The run theorems say that the log is invisible: restarts bring back exactly the durable un-acked
    messages in publish order. */
module QueueModel {
  import opened Basics
  import opened PayloadCodec
  import opened RecordLog

  function Id(p: Payload): Bytes {
    if p.properties.Some? then p.properties.value.id else []
  }

  predicate IsDurable(p: Payload) {
    p.properties.Some? && p.properties.value.deliveryMode == DURABLE
  }

  /** The message `insert` builds: the queue's durability overrides the publisher's delivery mode. */
  function NewPayload(bp: Option<Properties>, serverId: Bytes, body: Bytes, queueDurable: bool): Payload {
    var props := match bp
      case Some(b) => Properties(b.id, if queueDurable then b.deliveryMode else UNDURABLE, b.routingKey)
      case None => Properties(serverId, if queueDurable then DURABLE else UNDURABLE, []);
    Payload(Some(props), body, if props.deliveryMode == DURABLE then ALIVE else [])
  }

  /** The message carries the body it was given, the publisher's id and routing key, or the server's id and no key,
      and the publisher's mode if the queue is durable; without properties the mode is the queue's durability. It is
      durable (mode 2) exactly when the queue is and the publisher asked for that or gave no properties, and only
      then marked valid. */
  lemma {:induction false} NewPayloadCarries(bp: Option<Properties>, serverId: Bytes, body: Bytes, queueDurable: bool)
    ensures var p := NewPayload(bp, serverId, body, queueDurable);
            && p.body == body && p.properties.Some?
            && Id(p) == p.properties.value.id == (if bp.Some? then bp.value.id else serverId)
            && p.properties.value.routingKey == (if bp.Some? then bp.value.routingKey else [])
            && p.properties.value.deliveryMode
               == (if !queueDurable then 1 else if bp.Some? then bp.value.deliveryMode else 2)
            && (IsDurable(p) <==> queueDurable && (bp.None? || bp.value.deliveryMode == 2))
            && p.valid == if IsDurable(p) then [49] else []
  {
  }

  datatype QState = QState(getable: seq<Payload>, waiting: map<Bytes, Payload>, log: seq<Payload>) {
    /** The durable un-acked messages in publish order. */
    function Kept(): seq<Payload> { Live(log) }

    function DeadRecords(): int { |log| - |Live(log)| }
  }

  const EMPTY_QUEUE := QState([], map[], [])

  function Durables(ps: seq<Payload>): seq<Payload> {
    if ps == [] then [] else (if IsDurable(ps[0]) then [ps[0]] else []) + Durables(ps[1..])
  }

  ghost predicate DistinctIds(ps: seq<Payload>) {
    forall i, j {:trigger Id(ps[i]), Id(ps[j])} | 0 <= i < j < |ps| :: Id(ps[i]) != Id(ps[j])
  }

  /** A log the store itself could have written. */
  ghost predicate Healthy(log: seq<Payload>) {
    && AllStorable(log)
    && DistinctIds(Live(log))
    && forall p | p in Live(log) :: p.valid == ALIVE && IsDurable(p)
  }

  /** Ids name one live message each. */
  ghost predicate IdsApart(getable: seq<Payload>, waiting: map<Bytes, Payload>) {
    && DistinctIds(getable)
    && (forall p | p in getable :: Id(p) !in waiting)
    && (forall id | id in waiting :: Id(waiting[id]) == id)
  }

  /** The kept messages are exactly the durable ones, those still getable being the tail. */
  ghost predicate KeptMatches(getable: seq<Payload>, waiting: map<Bytes, Payload>, kept: seq<Payload>) {
    && (forall id | id in waiting && IsDurable(waiting[id]) :: waiting[id] in kept)
    && (forall p | p in kept :: p in getable || (Id(p) in waiting && waiting[Id(p)] == p))
    && TailOf(Durables(getable), kept)
  }

  /** The invariant of a queue's message store. */
  ghost predicate WellFormed(q: QState) {
    Healthy(q.log) && IdsApart(q.getable, q.waiting) && KeptMatches(q.getable, q.waiting, q.Kept())
  }

  ghost predicate TailOf(t: seq<Payload>, s: seq<Payload>) {
    |t| <= |s| && s[|s| - |t|..] == t
  }

  // ---- steps ----

  /** Marks the first live record of this id dead, in place. */
  function Kill(log: seq<Payload>, id: Bytes): seq<Payload> {
    if log == [] then []
    else if log[0].valid != DEAD && Id(log[0]) == id then [RecordLog.Dead(log[0])] + log[1..]
    else [log[0]] + Kill(log[1..], id)
  }

  /** `GCCheck`. */
  predicate GcDue(total: nat, valid: nat) {
    total > 2000 && valid * 10 / total < 5
  }

  function AfterGcCheck(log: seq<Payload>): seq<Payload> {
    if GcDue(|log|, |Live(log)|) then Live(log) else log
  }

  datatype Op = Insert(p: Payload) | Front | Ack(id: Bytes) | Restart | Clear

  function Step(q: QState, op: Op): QState {
    match op
    case Insert(p) => QState(q.getable + [p], q.waiting, if IsDurable(p) then q.log + [p] else q.log)
    case Front =>
      if q.getable == [] then q
      else
        var p := q.getable[0];
        QState(q.getable[1..], if Id(p) in q.waiting then q.waiting else q.waiting[Id(p) := p], q.log)
    case Ack(id) =>
      if id !in q.waiting then q
      else QState(q.getable, q.waiting - {id},
                  if IsDurable(q.waiting[id]) then AfterGcCheck(Kill(q.log, id)) else q.log)
    case Restart => QState(Live(q.log), map[], Live(q.log))
    case Clear => EMPTY_QUEUE
  }

  predicate IdFree(q: QState, id: Bytes) {
    id !in q.waiting && forall i | 0 <= i < |q.getable| :: Id(q.getable[i]) != id
  }

  /** What the store relies on when a message comes in: an id no live message has, the validity mark
      `insert` sets, and a payload protobuf can serialize. */
  predicate Legal(q: QState, op: Op) {
    op.Insert? ==>
      && IdFree(q, Id(op.p))
      && (IsDurable(op.p) ==> op.p.valid == ALIVE && Storable(op.p))
  }

  /** What the store relies on for an insert: a legal message, and room for its offset in 32 bits. */
  predicate Insertable(q: QState, p: Payload) {
    Legal(q, Insert(p)) && (IsDurable(p) ==> |Image(q.log)| + 8 < TWO_32)
  }

  lemma {:induction false} InsertableParts(q: QState, p: Payload)
    requires IsDurable(p) ==> p.valid == ALIVE
    ensures Insertable(q, p) ==> Legal(q, Insert(p))
    ensures Insertable(q, p) <==> IdFree(q, Id(p)) && (IsDurable(p) ==> Storable(p) && |Image(q.log)| + 8 < TWO_32)
  {
    hide IdFree, Id, IsDurable, Storable, Image;
  }

  function Run(q: QState, ops: seq<Op>): QState
    decreases |ops|
  {
    if ops == [] then q else Run(Step(q, ops[0]), ops[1..])
  }

  predicate LegalRun(q: QState, ops: seq<Op>)
    decreases |ops|
  {
    ops == [] || (Legal(q, ops[0]) && LegalRun(Step(q, ops[0]), ops[1..]))
  }

  // ---- the simple queue: no log, no compaction ----

  datatype SimpleQueue = SimpleQueue(getable: seq<Payload>, waiting: map<Bytes, Payload>, kept: seq<Payload>)

  function Abstract(q: QState): SimpleQueue {
    SimpleQueue(q.getable, q.waiting, q.Kept())
  }

  function Without(ps: seq<Payload>, id: Bytes): seq<Payload> {
    if ps == [] then [] else (if Id(ps[0]) == id then [] else [ps[0]]) + Without(ps[1..], id)
  }

  function SimpleStep(a: SimpleQueue, op: Op): SimpleQueue {
    match op
    case Insert(p) => SimpleQueue(a.getable + [p], a.waiting, if IsDurable(p) then a.kept + [p] else a.kept)
    case Front =>
      if a.getable == [] then a
      else SimpleQueue(a.getable[1..], a.waiting[Id(a.getable[0]) := a.getable[0]], a.kept)
    case Ack(id) =>
      if id !in a.waiting then a
      else SimpleQueue(a.getable, a.waiting - {id}, if IsDurable(a.waiting[id]) then Without(a.kept, id) else a.kept)
    case Restart => SimpleQueue(a.kept, map[], a.kept)
    case Clear => SimpleQueue([], map[], [])
  }

  function SimpleRun(a: SimpleQueue, ops: seq<Op>): SimpleQueue
    decreases |ops|
  {
    if ops == [] then a else SimpleRun(SimpleStep(a, ops[0]), ops[1..])
  }

  // ---- one step ----

  lemma {:induction false} WithoutAppend(a: seq<Payload>, b: seq<Payload>, id: Bytes)
    ensures Without(a + b, id) == Without(a, id) + Without(b, id)
  {
    hide Id;
    if a == [] {
      assert a + b == b;
    } else {
      assert (a + b)[1..] == a[1..] + b;
      WithoutAppend(a[1..], b, id);
    }
  }

  lemma {:induction false} WithoutMembers(ps: seq<Payload>, id: Bytes)
    ensures forall p :: p in Without(ps, id) <==> p in ps && Id(p) != id
    ensures (forall p | p in ps :: Id(p) != id) ==> Without(ps, id) == ps
    ensures |Without(ps, id)| <= |ps|
  {
    hide Id;
    if ps != [] {
      WithoutMembers(ps[1..], id);
      assert forall p :: p in ps <==> p == ps[0] || p in ps[1..];
    }
  }

  lemma {:induction false} WithoutOne(ps: seq<Payload>, id: Bytes)
    requires DistinctIds(ps) && exists p :: p in ps && Id(p) == id
    ensures |Without(ps, id)| == |ps| - 1
  {
    hide Id;
    if Id(ps[0]) == id {
      forall p | p in ps[1..] ensures Id(p) != id {
        var j :| 1 <= j < |ps| && ps[j] == p;
      }
      WithoutMembers(ps[1..], id);
    } else {
      assert forall p :: p in ps <==> p == ps[0] || p in ps[1..];
      WithoutOne(ps[1..], id);
    }
  }

  lemma {:induction false} WithoutDistinct(ps: seq<Payload>, id: Bytes)
    requires DistinctIds(ps)
    ensures DistinctIds(Without(ps, id))
  {
    hide Id;
    if ps != [] {
      WithoutDistinct(ps[1..], id);
      WithoutMembers(ps[1..], id);
      ConsDistinct(ps[0], Without(ps[1..], id), ps[1..]);
    }
  }

  lemma {:induction false} ConsDistinct(p: Payload, t: seq<Payload>, s: seq<Payload>)
    requires DistinctIds(t) && DistinctIds([p] + s) && forall x | x in t :: x in s
    ensures DistinctIds([p] + t)
  {
    hide Id;
    forall j | 0 <= j < |t| ensures Id(p) != Id(t[j]) {
      assert t[j] in t;
      var k :| 0 <= k < |s| && s[k] == t[j];
      assert Id(([p] + s)[0]) != Id(([p] + s)[k + 1]);
    }
  }

  /** Invalidating a record drops exactly that message from what load sees. */
  lemma {:induction false} LiveOfKill(log: seq<Payload>, id: Bytes)
    requires DistinctIds(Live(log))
    ensures Live(Kill(log, id)) == Without(Live(log), id)
    ensures |Kill(log, id)| == |log|
  {
    hide Id, DistinctIds;
    if log != [] {
      var head := if log[0].valid == DEAD then [] else [log[0]];
      LiveHead(log);
      LiveOfKill(log[1..], id);
      WithoutAppend(head, Live(log[1..]), id);
      WithoutSingle(log[0], id);
      if log[0].valid != DEAD && Id(log[0]) == id {
        WithoutMembers(Live(log[1..]), id);
      }
    }
  }

  lemma {:induction false} WithoutSingle(p: Payload, id: Bytes)
    ensures Without([p], id) == if Id(p) == id then [] else [p]
    ensures Without([], id) == []
  {
    assert [p][1..] == [];
  }

  lemma {:induction false} LiveHead(log: seq<Payload>)
    requires log != [] && DistinctIds(Live(log))
    ensures DistinctIds(Live(log[1..]))
    ensures log[0].valid != DEAD ==> forall p | p in Live(log[1..]) :: Id(p) != Id(log[0])
  {
    var t := Live(log[1..]);
    DistinctTail(if log[0].valid == DEAD then [] else [log[0]], t);
    if log[0].valid != DEAD {
      assert Live(log) == [log[0]] + t;
      HeadApart(log[0], t);
    }
  }

  lemma {:induction false} HeadApart(p: Payload, t: seq<Payload>)
    requires DistinctIds([p] + t)
    ensures forall x | x in t :: Id(x) != Id(p)
  {
    hide Id;
    forall x | x in t ensures Id(x) != Id(p) {
      var k :| 0 <= k < |t| && t[k] == x;
      assert Id(([p] + t)[0]) != Id(([p] + t)[k + 1]);
    }
  }

  /** Killing by id is one in-place overwrite when live ids are distinct. */
  lemma {:induction false} KillAt(log: seq<Payload>, i: nat, id: Bytes)
    requires i < |log| && log[i].valid != DEAD && Id(log[i]) == id && DistinctIds(Live(log))
    ensures Kill(log, id) == log[i := RecordLog.Dead(log[i])]
  {
    hide Id, Live, RecordLog.Dead;
    LiveHead(log);
    var rest := log[1..];
    if i == 0 {
      KillNone(rest, id);
    } else {
      KillAt(rest, i - 1, id);
      LiveOfLive(rest);
      assert rest[i - 1] == log[i] && rest[i - 1] in rest;
      assert log[i] in Live(rest);
      assert log[i := RecordLog.Dead(log[i])] == [log[0]] + rest[i - 1 := RecordLog.Dead(log[i])];
    }
  }

  lemma {:induction false} DistinctTail(a: seq<Payload>, b: seq<Payload>)
    requires DistinctIds(a + b)
    ensures DistinctIds(a) && DistinctIds(b)
  {
    hide Id;
    assert forall j | 0 <= j < |b| :: (a + b)[|a| + j] == b[j];
    assert forall j | 0 <= j < |a| :: (a + b)[j] == a[j];
  }

  lemma {:induction false} KillNone(log: seq<Payload>, id: Bytes)
    requires forall p | p in Live(log) :: Id(p) != id
    ensures Kill(log, id) == log
  {
    hide Id;
    if log != [] {
      assert forall p | p in Live(log[1..]) :: p in Live(log);
      KillNone(log[1..], id);
      if log[0].valid != DEAD {
        assert log[0] in Live(log);
      }
    }
  }

  lemma {:induction false} AfterGcCheckLive(log: seq<Payload>)
    ensures Live(AfterGcCheck(log)) == Live(log)
  {
    LiveOfLive(log);
  }

  /** One step of the store is one step of the simple queue. */
  lemma {:induction false} StepRefines(q: QState, op: Op)
    requires WellFormed(q) && Legal(q, op)
    ensures Abstract(Step(q, op)) == SimpleStep(Abstract(q), op)
  {
    match op
    case Insert(p) =>
      LiveAppend(q.log, [p]);
      LiveOne(p);
      hide Id;
    case Front =>
      assert q.getable != [] ==> q.getable[0] in q.getable;
    case Ack(id) =>
      LiveOfKill(q.log, id);
      AfterGcCheckLive(Kill(q.log, id));
    case Restart =>
      LiveOfLive(q.log);
    case Clear =>
  }

  // ---- the invariant ----

  lemma {:induction false} DurablesMembers(ps: seq<Payload>)
    ensures forall p :: p in Durables(ps) <==> p in ps && IsDurable(p)
    ensures (forall p | p in ps :: IsDurable(p)) ==> Durables(ps) == ps
  {
    hide IsDurable;
    if ps != [] {
      DurablesMembers(ps[1..]);
      assert forall p :: p in ps <==> p == ps[0] || p in ps[1..];
    }
  }

  lemma {:induction false} DurablesSnoc(ps: seq<Payload>, p: Payload)
    ensures Durables(ps + [p]) == Durables(ps) + if IsDurable(p) then [p] else []
  {
    hide IsDurable;
    if ps == [] {
      assert ps + [p] == [p];
    } else {
      assert ps + [p] == [ps[0]] + (ps[1..] + [p]) && ps == [ps[0]] + ps[1..];
      DurablesSnoc(ps[1..], p);
      hide Durables;
      DurablesCons(ps[0], ps[1..] + [p]);
      DurablesCons(ps[0], ps[1..]);
      ConcatAssociates(if IsDurable(ps[0]) then [ps[0]] else [], Durables(ps[1..]), if IsDurable(p) then [p] else []);
    }
  }

  lemma {:induction false} DistinctSnoc(ps: seq<Payload>, p: Payload)
    requires DistinctIds(ps) && forall x | x in ps :: Id(x) != Id(p)
    ensures DistinctIds(ps + [p])
  {
    hide Id;
    assert forall i | 0 <= i < |ps| :: ps[i] in ps;
  }

  lemma {:induction false} EmptyWellFormed()
    ensures EMPTY_QUEUE == QState([], map[], []) && WellFormed(EMPTY_QUEUE) && EMPTY_QUEUE.Kept() == []
  {
  }

  lemma {:induction false} WellFormedParts(q: QState)
    ensures WellFormed(q) <==>
      Healthy(q.log) && IdsApart(q.getable, q.waiting) && KeptMatches(q.getable, q.waiting, Live(q.log))
  {
    hide Healthy, IdsApart, KeptMatches, Live;
  }

  lemma {:induction false} HealthyDistinct(log: seq<Payload>)
    requires Healthy(log)
    ensures DistinctIds(Live(log))
  {
    hide Live, DistinctIds, AllStorable, IsDurable;
  }

  /** The state after each kind of step, field by field. */
  lemma {:induction false} StepParts(q: QState, id: Bytes, p: Payload)
    ensures Step(q, Insert(p)) == QState(q.getable + [p], q.waiting, if IsDurable(p) then q.log + [p] else q.log)
    ensures id in q.waiting ==>
      Step(q, Ack(id)) == QState(q.getable, q.waiting - {id},
                                 if IsDurable(q.waiting[id]) then AfterGcCheck(Kill(q.log, id)) else q.log)
    ensures id !in q.waiting ==> Step(q, Ack(id)) == q
    ensures Step(q, Restart) == QState(Live(q.log), map[], Live(q.log))
  {
    hide IsDurable, AfterGcCheck, Kill, Live;
  }

  lemma {:induction false} InsertIds(getable: seq<Payload>, waiting: map<Bytes, Payload>, p: Payload)
    requires IdsApart(getable, waiting) && Id(p) !in waiting
    requires forall i | 0 <= i < |getable| :: Id(getable[i]) != Id(p)
    ensures IdsApart(getable + [p], waiting)
  {
    hide Id;
    DistinctSnoc(getable, p);
  }

  lemma {:induction false} InsertKept(getable: seq<Payload>, waiting: map<Bytes, Payload>, kept: seq<Payload>,
      p: Payload)
    requires KeptMatches(getable, waiting, kept)
    ensures KeptMatches(getable + [p], waiting, kept + if IsDurable(p) then [p] else [])
  {
    DurablesSnoc(getable, p);
    hide Id, IsDurable, Durables;
  }

  lemma {:induction false} InsertHealthy(q: QState, p: Payload)
    requires WellFormed(q) && Legal(q, Insert(p)) && IsDurable(p)
    ensures Healthy(q.log + [p]) && Live(q.log + [p]) == Live(q.log) + [p]
  {
    LiveAppend(q.log, [p]);
    LiveOne(p);
    hide Id, Live, Storable, Durables, TailOf;
    DistinctSnoc(Live(q.log), p);
  }

  lemma {:induction false} InsertKeeps(q: QState, p: Payload)
    requires WellFormed(q) && Legal(q, Insert(p))
    ensures WellFormed(Step(q, Insert(p)))
  {
    assert IdFree(q, Id(p));
    hide Id, IsDurable, Healthy, IdsApart, KeptMatches, Live, AfterGcCheck, Kill, Step, WellFormed, Storable;
    WellFormedParts(q);
    StepParts(q, [], p);
    InsertIds(q.getable, q.waiting, p);
    InsertKept(q.getable, q.waiting, Live(q.log), p);
    ConcatNothing(Live(q.log));
    if IsDurable(p) {
      InsertHealthy(q, p);
    }
    WellFormedParts(Step(q, Insert(p)));
  }

  lemma {:induction false} FrontIds(p: Payload, rest: seq<Payload>, waiting: map<Bytes, Payload>)
    requires IdsApart([p] + rest, waiting)
    ensures Id(p) !in waiting && IdsApart(rest, waiting[Id(p) := p])
  {
    DistinctTail([p], rest);
    HeadApart(p, rest);
    hide Id, DistinctIds;
    assert p in [p] + rest;
    assert forall x | x in rest :: x in [p] + rest;
  }

  lemma {:induction false} DurablesCons(p: Payload, rest: seq<Payload>)
    ensures Durables([p] + rest) == (if IsDurable(p) then [p] else []) + Durables(rest)
  {
    assert ([p] + rest)[1..] == rest;
  }

  lemma {:induction false} TailMembers(t: seq<Payload>, s: seq<Payload>)
    requires TailOf(t, s)
    ensures forall x | x in t :: x in s
  {
  }

  lemma {:induction false} FrontKept(p: Payload, rest: seq<Payload>, waiting: map<Bytes, Payload>, kept: seq<Payload>)
    requires IdsApart([p] + rest, waiting) && KeptMatches([p] + rest, waiting, kept)
    ensures KeptMatches(rest, waiting[Id(p) := p], kept)
  {
    hide Id, IsDurable, Durables, IdsApart, TailOf;
    FrontIds(p, rest, waiting);
    DurablesCons(p, rest);
    TailMembers(Durables([p] + rest), kept);
    TailShorter(if IsDurable(p) then [p] else [], Durables(rest), kept);
    assert IsDurable(p) ==> p in Durables([p] + rest);
    assert forall x :: x in [p] + rest <==> x == p || x in rest;
  }

  lemma {:induction false} TailShorter(a: seq<Payload>, t: seq<Payload>, s: seq<Payload>)
    requires TailOf(a + t, s)
    ensures TailOf(t, s)
  {
    assert s[|s| - |t|..] == s[|s| - |a + t|..][|a|..];
  }

  lemma {:induction false} FrontKeeps(q: QState)
    requires WellFormed(q)
    ensures WellFormed(Step(q, Front))
  {
    hide Id, Live, Healthy, IdsApart, KeptMatches;
    if q.getable != [] {
      assert q.getable == [q.getable[0]] + q.getable[1..];
      FrontIds(q.getable[0], q.getable[1..], q.waiting);
      FrontKept(q.getable[0], q.getable[1..], q.waiting, Live(q.log));
    }
  }

  lemma {:induction false} TailWithout(t: seq<Payload>, s: seq<Payload>, id: Bytes)
    requires TailOf(t, s) && forall p | p in t :: Id(p) != id
    ensures TailOf(t, Without(s, id))
  {
    var h := s[..|s| - |t|];
    assert s == h + t;
    WithoutAppend(h, t, id);
    WithoutMembers(t, id);
  }

  lemma {:induction false} HealthyKill(log: seq<Payload>, id: Bytes)
    requires Healthy(log)
    ensures Healthy(Kill(log, id))
  {
    LiveOfKill(log, id);
    WithoutDistinct(Live(log), id);
    WithoutMembers(Live(log), id);
    KillStorable(log, id);
    hide Id, Live, Kill, Without, Storable, IsDurable;
  }

  lemma {:induction false} KillStorable(log: seq<Payload>, id: Bytes)
    requires AllStorable(log) && forall p | p in Live(log) :: p.valid == ALIVE
    ensures AllStorable(Kill(log, id))
  {
    hide Id, Storable;
    if log != [] {
      assert forall p | p in Live(log[1..]) :: p in Live(log);
      KillStorable(log[1..], id);
      if log[0].valid != DEAD {
        assert log[0] in Live(log);
        DeadStorable(log[0]);
      }
    }
  }

  lemma {:induction false} DeadStorable(p: Payload)
    requires p.valid == ALIVE
    ensures |Serialize(RecordLog.Dead(p))| == |Serialize(p)|
    ensures Storable(RecordLog.Dead(p)) == Storable(p)
  {
    SizeIgnoresValid(p, DEAD);
    hide Serialize;
  }

  lemma {:induction false} HealthyLive(log: seq<Payload>)
    requires Healthy(log)
    ensures Healthy(Live(log))
  {
    LiveOfLive(log);
    hide Id, Live, Storable, IsDurable;
    forall i | 0 <= i < |Live(log)| ensures Storable(Live(log)[i]) {
      assert Live(log)[i] in log;
    }
  }

  lemma {:induction false} AckKeptDurable(getable: seq<Payload>, waiting: map<Bytes, Payload>, kept: seq<Payload>,
      id: Bytes)
    requires IdsApart(getable, waiting) && KeptMatches(getable, waiting, kept) && id in waiting
    ensures KeptMatches(getable, waiting - {id}, Without(kept, id))
  {
    DurablesMembers(getable);
    WithoutMembers(kept, id);
    hide Id, Durables, Without, IsDurable, DistinctIds;
    assert forall p | p in Durables(getable) :: Id(p) != id;
    TailWithout(Durables(getable), kept, id);
    hide TailOf;
  }

  lemma {:induction false} AckKeptTransient(getable: seq<Payload>, waiting: map<Bytes, Payload>, kept: seq<Payload>,
      id: Bytes)
    requires IdsApart(getable, waiting) && KeptMatches(getable, waiting, kept) && id in waiting
    requires !IsDurable(waiting[id]) && forall p | p in kept :: IsDurable(p)
    ensures KeptMatches(getable, waiting - {id}, kept)
  {
    hide Id, Durables, IsDurable, DistinctIds, TailOf;
  }

  lemma {:induction false} AckIds(getable: seq<Payload>, waiting: map<Bytes, Payload>, id: Bytes)
    requires IdsApart(getable, waiting)
    ensures IdsApart(getable, waiting - {id})
  {
    hide Id, DistinctIds;
  }

  lemma {:induction false} AllDurable(log: seq<Payload>)
    requires Healthy(log)
    ensures forall p | p in Live(log) :: IsDurable(p)
  {
    hide Live, IsDurable, DistinctIds;
  }

  lemma {:induction false} AckKeeps(q: QState, id: Bytes)
    requires WellFormed(q)
    ensures WellFormed(Step(q, Ack(id)))
  {
    hide *;
    WellFormedParts(q);
    StepParts(q, id, NO_PAYLOAD);
    if id in q.waiting {
      AckIds(q.getable, q.waiting, id);
      if IsDurable(q.waiting[id]) {
        HealthyKill(q.log, id);
        HealthyLive(Kill(q.log, id));
        AfterGcCheckEither(Kill(q.log, id));
        HealthyDistinct(q.log);
        LiveOfKill(q.log, id);
        AckKeptDurable(q.getable, q.waiting, Live(q.log), id);
      } else {
        AllDurable(q.log);
        AckKeptTransient(q.getable, q.waiting, Live(q.log), id);
      }
      WellFormedParts(Step(q, Ack(id)));
    }
  }

  lemma {:induction false} AfterGcCheckEither(log: seq<Payload>)
    ensures AfterGcCheck(log) == log || AfterGcCheck(log) == Live(log)
    ensures Live(AfterGcCheck(log)) == Live(log)
  {
    LiveOfLive(log);
  }

  lemma {:induction false} AllGetable(kept: seq<Payload>)
    requires DistinctIds(kept) && forall p | p in kept :: IsDurable(p)
    ensures IdsApart(kept, map[]) && KeptMatches(kept, map[], kept)
  {
    DurablesMembers(kept);
    hide Id, IsDurable, Durables;
  }

  /** Recovery from any healthy log leaves a well-formed queue. */
  lemma {:induction false} RecoveryWellFormed(log: seq<Payload>)
    requires Healthy(log)
    ensures WellFormed(QState(Live(log), map[], Live(log)))
  {
    hide *;
    HealthyLive(log);
    LiveOfLive(log);
    AllDurable(log);
    HealthyDistinct(log);
    AllGetable(Live(log));
    WellFormedParts(QState(Live(log), map[], Live(log)));
  }

  lemma {:induction false} RestartKeeps(q: QState)
    requires WellFormed(q)
    ensures WellFormed(Step(q, Restart))
  {
    hide *;
    WellFormedParts(q);
    StepParts(q, [], NO_PAYLOAD);
    RecoveryWellFormed(q.log);
  }

  /** Every step keeps the invariant. */
  lemma {:induction false} StepKeeps(q: QState, op: Op)
    requires WellFormed(q) && Legal(q, op)
    ensures WellFormed(Step(q, op))
  {
    match op
    case Insert(p) => InsertKeeps(q, p);
    case Front => FrontKeeps(q);
    case Ack(id) => AckKeeps(q, id);
    case Restart => RestartKeeps(q);
    case Clear =>
  }
}
