/** Theorems about whole runs of one queue's message store, restarts and compactions included. */
module QueueRuns {
  import opened Basics
  import opened PayloadCodec
  import opened RecordLog
  import opened QueueModel

  /** Over every legal run the store keeps its invariant and behaves as the simple queue:
      neither the log nor any compaction can be observed. */
  lemma {:induction false} RunRefines(q: QState, ops: seq<Op>)
    requires WellFormed(q) && LegalRun(q, ops)
    ensures WellFormed(Run(q, ops))
    ensures Abstract(Run(q, ops)) == SimpleRun(Abstract(q), ops)
    decreases |ops|
  {
    hide WellFormed, Legal, Step, SimpleStep, Abstract;
    if ops != [] {
      StepKeeps(q, ops[0]);
      StepRefines(q, ops[0]);
      RunRefines(Step(q, ops[0]), ops[1..]);
    }
  }

  lemma {:induction false} RunSnoc(q: QState, ops: seq<Op>, op: Op)
    ensures Run(q, ops + [op]) == Step(Run(q, ops), op)
    decreases |ops|
  {
    hide Step;
    if ops == [] {
      assert ops + [op] == [op];
    } else {
      assert (ops + [op])[1..] == ops[1..] + [op];
      RunSnoc(Step(q, ops[0]), ops[1..], op);
    }
  }

  // ---- what a run did ----

  function Inserted(ops: seq<Op>): seq<Payload> {
    if ops == [] then [] else (if ops[0].Insert? then [ops[0].p] else []) + Inserted(ops[1..])
  }

  /** The messages handed out by front, in order. */
  function Delivered(q: QState, ops: seq<Op>): seq<Payload>
    decreases |ops|
  {
    if ops == [] then []
    else (if ops[0].Front? && q.getable != [] then [q.getable[0]] else []) + Delivered(Step(q, ops[0]), ops[1..])
  }

  predicate AcksDurable(q: QState, op: Op) {
    op.Ack? && op.id in q.waiting && IsDurable(q.waiting[op.id])
  }

  /** The ids whose ack found a waiting message. */
  function Acked(q: QState, ops: seq<Op>): set<Bytes>
    decreases |ops|
  {
    if ops == [] then {}
    else (if ops[0].Ack? && ops[0].id in q.waiting then {ops[0].id} else {}) + Acked(Step(q, ops[0]), ops[1..])
  }

  function DurablyAcked(q: QState, ops: seq<Op>): set<Bytes>
    decreases |ops|
  {
    if ops == [] then {}
    else (if AcksDurable(q, ops[0]) then {ops[0].id} else {}) + DurablyAcked(Step(q, ops[0]), ops[1..])
  }

  function WithoutAll(ps: seq<Payload>, ids: set<Bytes>): seq<Payload> {
    if ps == [] then [] else (if Id(ps[0]) in ids then [] else [ps[0]]) + WithoutAll(ps[1..], ids)
  }

  predicate HasClear(ops: seq<Op>) {
    exists i :: 0 <= i < |ops| && ops[i].Clear?
  }

  /** Of what was kept at the start: all but the durably acked, and nothing when the run clears. */
  function StillKept(q: QState, ops: seq<Op>): seq<Payload> {
    if HasClear(ops) then [] else WithoutAll(q.Kept(), DurablyAcked(q, ops))
  }

  /** The durable messages inserted whose id is not durably acked later and that no clear follows, in
      insertion order. An id acked and used again counts afresh. */
  function Surviving(q: QState, ops: seq<Op>): seq<Payload>
    decreases |ops|
  {
    if ops == [] then []
    else
      var q', rest := Step(q, ops[0]), ops[1..];
      (if ops[0].Insert? && IsDurable(ops[0].p) && !HasClear(rest) && Id(ops[0].p) !in DurablyAcked(q', rest)
       then [ops[0].p] else [])
      + Surviving(q', rest)
  }

  /** One process life: neither restarted nor cleared. */
  predicate OneLife(ops: seq<Op>) {
    forall i | 0 <= i < |ops| :: !ops[i].Clear? && !ops[i].Restart?
  }

  // ---- restart ----

  lemma {:induction false} WithoutAllStep(ps: seq<Payload>, id: Bytes, ids: set<Bytes>)
    ensures WithoutAll(Without(ps, id), ids) == WithoutAll(ps, {id} + ids)
  {
    hide Id;
    if ps != [] {
      WithoutAllStep(ps[1..], id, ids);
      ConcatNothing(Without(ps[1..], id));
      if Id(ps[0]) != id {
        assert Without(ps, id)[1..] == Without(ps[1..], id);
      }
    }
  }

  lemma {:induction false} WithoutNone(ps: seq<Payload>)
    ensures WithoutAll(ps, {}) == ps
  {
    if ps != [] {
      WithoutNone(ps[1..]);
    }
  }

  lemma {:induction false} WithoutAllSnoc(ps: seq<Payload>, p: Payload, ids: set<Bytes>)
    ensures WithoutAll(ps + [p], ids) == WithoutAll(ps, ids) + if Id(p) in ids then [] else [p]
  {
    hide Id;
    if ps == [] {
      assert [] + [p] == [p] && [p][1..] == [];
    } else {
      assert (ps + [p])[1..] == ps[1..] + [p];
      WithoutAllSnoc(ps[1..], p, ids);
    }
  }

  lemma {:induction false} KeptAfterAck(q: QState, id: Bytes)
    requires WellFormed(q) && AcksDurable(q, Ack(id))
    ensures Step(q, Ack(id)).Kept() == Without(q.Kept(), id)
  {
    StepRefines(q, Ack(id));
  }

  lemma {:induction false} KeptAfterOther(q: QState, op: Op)
    requires WellFormed(q) && Legal(q, op) && !op.Clear? && !AcksDurable(q, op)
    ensures Step(q, op).Kept() == q.Kept() + if op.Insert? && IsDurable(op.p) then [op.p] else []
  {
    StepRefines(q, op);
    hide Live, WellFormed, Legal;
  }

  lemma {:induction false} HasClearCons(ops: seq<Op>)
    requires ops != []
    ensures HasClear(ops) <==> ops[0].Clear? || HasClear(ops[1..])
  {
    if HasClear(ops[1..]) {
      var i :| 0 <= i < |ops[1..]| && ops[1..][i].Clear?;
      assert ops[i + 1].Clear?;
    }
    if i :| 0 <= i < |ops| && ops[i].Clear? {
      assert i > 0 ==> ops[1..][i - 1].Clear?;
    }
  }

  /** One operation more at the front of a run: what it adds to the survivors or takes from the old. */
  lemma {:induction false} LedgerCons(q: QState, ops: seq<Op>)
    requires ops != [] && WellFormed(q) && Legal(q, ops[0])
    ensures StillKept(q, ops) + Surviving(q, ops)
         == StillKept(Step(q, ops[0]), ops[1..]) + Surviving(Step(q, ops[0]), ops[1..])
  {
    hide WellFormed, Legal, Step, Live, WithoutAll, IsDurable, HasClear, QState.Kept;
    var op, rest := ops[0], ops[1..];
    var q' := Step(q, op);
    HasClearCons(ops);
    if op.Clear? {
      ClearKeepsNothing(q, DurablyAcked(q', rest));
    } else if AcksDurable(q, op) {
      KeptAfterAck(q, op.id);
      WithoutAllStep(q.Kept(), op.id, DurablyAcked(q', rest));
    } else {
      KeptAfterOther(q, op);
      assert DurablyAcked(q, ops) == DurablyAcked(q', rest);
      if op.Insert? && IsDurable(op.p) {
        var ids := DurablyAcked(q', rest);
        WithoutAllSnoc(q.Kept(), op.p, ids);
        ConcatAssociates(WithoutAll(q.Kept(), ids), if Id(op.p) in ids then [] else [op.p], Surviving(q', rest));
      } else {
        ConcatNothing(q.Kept());
        ConcatNothing(Surviving(q', rest));
      }
    }
  }

  lemma {:induction false} ClearKeepsNothing(q: QState, ids: set<Bytes>)
    ensures WithoutAll(Step(q, Op.Clear).Kept(), ids) == []
  {
  }

  /** What is kept after any run: what was kept before, less what was durably acked, then the survivors of
      what was inserted since. */
  lemma {:induction false} KeptLedger(q: QState, ops: seq<Op>)
    requires WellFormed(q) && LegalRun(q, ops)
    ensures Run(q, ops).Kept() == StillKept(q, ops) + Surviving(q, ops)
    decreases |ops|
  {
    hide WellFormed, Legal, Step, Live, QState.Kept;
    if ops == [] {
      WithoutNone(q.Kept());
    } else {
      hide StillKept, Surviving;
      LedgerCons(q, ops);
      StepKeeps(q, ops[0]);
      KeptLedger(Step(q, ops[0]), ops[1..]);
    }
  }

  /** Restart after any legal run hands out, in publish order, exactly the durable messages that were kept
      at the start or inserted since and neither acked nor cleared: waiting ones included, transient ones
      gone, whatever restarts and compactions happened in between. */
  lemma {:induction false} RestartBringsBack(q: QState, ops: seq<Op>)
    requires WellFormed(q) && LegalRun(q, ops)
    ensures Run(q, ops + [Restart]).getable == StillKept(q, ops) + Surviving(q, ops)
    ensures Run(q, ops + [Restart]).waiting == map[]
    ensures Run(q, ops + [Restart]).DeadRecords() == 0
  {
    hide Live, Run, StillKept, Surviving, WellFormed, LegalRun;
    KeptLedger(q, ops);
    RunSnoc(q, ops, Restart);
    LiveOfLive(Run(q, ops).log);
  }

  // ---- one process life ----

  /** First in, first out: what was handed out and what is still getable is what was there and what came in. */
  lemma {:induction false} FirstInFirstOut(q: QState, ops: seq<Op>)
    requires OneLife(ops)
    ensures Delivered(q, ops) + Run(q, ops).getable == q.getable + Inserted(ops)
    decreases |ops|
  {
    hide Id, IsDurable, AfterGcCheck;
    if ops == [] {
      ConcatNothing(q.getable);
    } else {
      var op, rest := ops[0], ops[1..];
      var q' := Step(q, op);
      FirstInFirstOut(q', rest);
      var d := if op.Front? && q.getable != [] then [q.getable[0]] else [];
      var n := if op.Insert? then [op.p] else [];
      assert d + q'.getable == q.getable + n;
      hide Step, Run, Delivered, Inserted;
      Reassociate(d, Delivered(q', rest), Run(q', rest).getable, q'.getable, Inserted(rest), q.getable, n);
      assert Delivered(q, ops) == d + Delivered(q', rest) by { DeliveredCons(q, ops); }
      assert Inserted(ops) == n + Inserted(rest) by { InsertedCons(ops); }
      assert Run(q, ops) == Run(q', rest) by { RunCons(q, ops); }
    }
  }

  /** The messages acked, in order: those an ack found waiting. */
  function AckedMsgs(q: QState, ops: seq<Op>): seq<Payload>
    decreases |ops|
  {
    if ops == [] then []
    else
      (if ops[0].Ack? && ops[0].id in q.waiting then [q.waiting[ops[0].id]] else [])
      + AckedMsgs(Step(q, ops[0]), ops[1..])
  }

  lemma {:induction false} ValuesPut(m: map<Bytes, Payload>, p: Payload)
    requires Id(p) !in m && forall id | id in m :: Id(m[id]) == id
    ensures multiset(m[Id(p) := p].Values) == multiset(m.Values) + multiset{p}
  {
    hide Id;
    var m' := m[Id(p) := p];
    assert Id(p) in m' && forall id | id in m :: id in m' && m'[id] == m[id];
    assert m'.Values == m.Values + {p};
    assert p !in m.Values;
  }

  lemma {:induction false} ValuesDrop(m: map<Bytes, Payload>, id: Bytes)
    requires id in m && forall id | id in m :: Id(m[id]) == id
    ensures multiset(m.Values) == multiset((m - {id}).Values) + multiset{m[id]}
  {
    hide Id;
    var m' := m - {id};
    assert Id(m[id]) == id;
    assert m'[id := m[id]] == m;
    ValuesPut(m', m[id]);
  }

  /** One operation: what it hands out is waiting, what it acks was. */
  lemma {:induction false} HandOver(q: QState, op: Op)
    requires WellFormed(q) && !op.Clear? && !op.Restart?
    ensures var handed := if op.Front? && q.getable != [] then [q.getable[0]] else [];
            var acked := if op.Ack? && op.id in q.waiting then [q.waiting[op.id]] else [];
            multiset(handed) + multiset(q.waiting.Values) == multiset(Step(q, op).waiting.Values) + multiset(acked)
  {
    hide Id, Healthy, KeptMatches, DistinctIds, AfterGcCheck, IsDurable, Kill;
    match op
    case Insert(p) =>
    case Front =>
      if q.getable != [] {
        assert q.getable[0] in q.getable;
        ValuesPut(q.waiting, q.getable[0]);
      }
    case Ack(id) =>
      if id in q.waiting {
        ValuesDrop(q.waiting, id);
      }
  }

  lemma {:induction false} Balance<T>(d: multiset<T>, x: multiset<T>, u: multiset<T>, v: multiset<T>, w: multiset<T>,
      a: multiset<T>, y: multiset<T>)
    requires d + u == v + a && x + v == w + y
    ensures (d + x) + u == w + (a + y)
  {
    calc {
      (d + x) + u;
      x + (d + u);
      (x + v) + a;
      w + (a + y);
    }
  }

  /** Every message handed out, and every one waiting before, is waiting or acked: as often as it was. */
  lemma {:induction false} HandedOut(q: QState, ops: seq<Op>)
    requires WellFormed(q) && LegalRun(q, ops) && OneLife(ops)
    ensures multiset(Delivered(q, ops)) + multiset(q.waiting.Values)
         == multiset(Run(q, ops).waiting.Values) + multiset(AckedMsgs(q, ops))
    decreases |ops|
  {
    hide WellFormed, Legal, Step, Id;
    if ops != [] {
      var op, rest := ops[0], ops[1..];
      var q' := Step(q, op);
      StepKeeps(q, op);
      HandOver(q, op);
      HandedOut(q', rest);
      var handed := if op.Front? && q.getable != [] then [q.getable[0]] else [];
      var acked := if op.Ack? && op.id in q.waiting then [q.waiting[op.id]] else [];
      Balance(multiset(handed), multiset(Delivered(q', rest)), multiset(q.waiting.Values), multiset(q'.waiting.Values),
              multiset(Run(q', rest).waiting.Values), multiset(acked), multiset(AckedMsgs(q', rest)));
      assert multiset(handed + Delivered(q', rest)) == multiset(handed) + multiset(Delivered(q', rest));
      assert multiset(acked + AckedMsgs(q', rest)) == multiset(acked) + multiset(AckedMsgs(q', rest));
    }
  }

  /** Conservation over one process life: every message there or accepted is in exactly one of getable,
      waiting and acked, counted with its repetitions; an id acked and used again is another message. */
  lemma {:induction false} ExactlyOnePlace(q: QState, ops: seq<Op>)
    requires WellFormed(q) && LegalRun(q, ops) && OneLife(ops)
    ensures multiset(q.getable + Inserted(ops)) + multiset(q.waiting.Values)
         == multiset(Run(q, ops).getable) + multiset(Run(q, ops).waiting.Values) + multiset(AckedMsgs(q, ops))
  {
    hide *;
    FirstInFirstOut(q, ops);
    HandedOut(q, ops);
    var d, g := Delivered(q, ops), Run(q, ops).getable;
    assert multiset(d + g) == multiset(d) + multiset(g);
    Shift(multiset(d), multiset(g), multiset(q.waiting.Values), multiset(Run(q, ops).waiting.Values),
      multiset(AckedMsgs(q, ops)));
  }

  lemma {:induction false} Shift<T>(d: multiset<T>, g: multiset<T>, u: multiset<T>, v: multiset<T>, a: multiset<T>)
    requires d + u == v + a
    ensures (d + g) + u == (g + v) + a
  {
    assert (d + g) + u == g + (d + u);
  }

  // ---- ids that are never used again ----

  lemma {:induction false} DeliveredCons(q: QState, ops: seq<Op>)
    requires ops != []
    ensures Delivered(q, ops)
         == (if ops[0].Front? && q.getable != [] then [q.getable[0]] else []) + Delivered(Step(q, ops[0]), ops[1..])
  {
  }

  lemma {:induction false} InsertedCons(ops: seq<Op>)
    requires ops != []
    ensures Inserted(ops) == (if ops[0].Insert? then [ops[0].p] else []) + Inserted(ops[1..])
  {
  }

  lemma {:induction false} RunCons(q: QState, ops: seq<Op>)
    requires ops != []
    ensures Run(q, ops) == Run(Step(q, ops[0]), ops[1..])
  {
  }

  lemma {:induction false} Reassociate<T>(d: seq<T>, x: seq<T>, y: seq<T>, u: seq<T>, v: seq<T>, g: seq<T>, n: seq<T>)
    requires x + y == u + v && d + u == g + n
    ensures (d + x) + y == g + (n + v)
  {
    calc {
      (d + x) + y;
      d + (x + y);
      d + (u + v);
      (d + u) + v;
      (g + n) + v;
      g + (n + v);
    }
  }

  function IdSet(ps: seq<Payload>): set<Bytes> {
    set p | p in ps :: Id(p)
  }

  /** A run that hands out each id at most once: none waiting already, none used twice. */
  ghost predicate IdsUsedOnce(q: QState, later: seq<Payload>) {
    DistinctIds(q.getable + later) && IdSet(q.getable + later) !! q.waiting.Keys
  }

  lemma {:induction false} AckedCons(q: QState, ops: seq<Op>)
    requires ops != []
    ensures Acked(q, ops)
         == (if ops[0].Ack? && ops[0].id in q.waiting then {ops[0].id} else {}) + Acked(Step(q, ops[0]), ops[1..])
  {
  }

  lemma {:induction false} UsedOnceStep(q: QState, op: Op, later: seq<Payload>)
    requires IdsUsedOnce(q, (if op.Insert? then [op.p] else []) + later) && !op.Clear? && !op.Restart?
    ensures IdsUsedOnce(Step(q, op), later)
    ensures op.Front? && q.getable != [] ==> Step(q, op).waiting.Keys == q.waiting.Keys + {Id(q.getable[0])}
    ensures !(op.Front? && q.getable != []) ==>
      Step(q, op).waiting.Keys == q.waiting.Keys - if op.Ack? then {op.id} else {}
  {
    hide Id, DistinctIds, IdSet, AfterGcCheck, IsDurable;
    ConcatNothing(later);
    match op
    case Insert(p) => ConcatAssociates(q.getable, [p], later);
    case Front =>
      if q.getable != [] {
        FrontShrinks(q, later);
      }
    case Ack(id) =>
  }

  /** When no id is used twice, every id handed out is waiting for its ack or acked, never both. */
  lemma {:induction false} HandedOutIds(q: QState, ops: seq<Op>)
    requires OneLife(ops) && IdsUsedOnce(q, Inserted(ops))
    ensures Run(q, ops).waiting.Keys + Acked(q, ops) == q.waiting.Keys + IdSet(Delivered(q, ops))
    ensures Run(q, ops).waiting.Keys !! Acked(q, ops)
    ensures IdSet(Delivered(q, ops)) <= IdSet(q.getable + Inserted(ops))
    decreases |ops|
  {
    hide Id, DistinctIds, Step, Run, Delivered, Inserted, IdsUsedOnce;
    FirstInFirstOut(q, ops);
    IdSetPrefix(Delivered(q, ops), Run(q, ops).getable);
    if ops == [] {
      RunNothing(q);
    } else {
      var op, rest := ops[0], ops[1..];
      var q' := Step(q, op);
      InsertedCons(ops);
      DeliveredCons(q, ops);
      RunCons(q, ops);
      AckedCons(q, ops);
      UsedOnceStep(q, op, Inserted(rest));
      HandedOutIds(q', rest);
      ConcatNothing(Delivered(q', rest));
      hide Acked, IdSet, OneLife;
      if op.Front? && q.getable != [] {
        IdSetCons(q.getable[0], Delivered(q', rest));
      } else if op.Ack? && op.id in q.waiting {
        ConcatNothing(Inserted(rest));
        AckedNotAgain(q, op.id, Inserted(rest));
      }
    }
  }

  lemma {:induction false} RunNothing(q: QState)
    ensures Run(q, []) == q && Delivered(q, []) == [] && IdSet([]) == {}
  {
  }

  /** An acked id is not among the messages still to be handed out. */
  lemma {:induction false} AckedNotAgain(q: QState, id: Bytes, later: seq<Payload>)
    requires id in q.waiting && IdsUsedOnce(q, later)
    ensures id !in IdSet(Step(q, Ack(id)).getable + later)
  {
    hide Id, DistinctIds, IdSet;
  }

  lemma {:induction false} IdSetCons(p: Payload, ps: seq<Payload>)
    ensures IdSet([p] + ps) == {Id(p)} + IdSet(ps)
  {
    hide Id;
    assert p in [p] + ps;
    assert forall x | x in ps :: x in [p] + ps;
  }

  lemma {:induction false} IdSetPrefix(a: seq<Payload>, b: seq<Payload>)
    ensures IdSet(a) <= IdSet(a + b)
  {
    hide Id;
    assert forall x | x in a :: x in a + b;
  }

  lemma {:induction false} FrontShrinks(q: QState, later: seq<Payload>)
    requires q.getable != [] && DistinctIds(q.getable + later) && IdSet(q.getable + later) !! q.waiting.Keys
    ensures var q' := Step(q, Front);
            && q'.waiting.Keys == q.waiting.Keys + {Id(q.getable[0])}
            && DistinctIds(q'.getable + later)
            && IdSet(q'.getable + later) !! q'.waiting.Keys
            && q'.getable == q.getable[1..]
  {
    var p, s := q.getable[0], q.getable[1..] + later;
    assert q.getable + later == [p] + s;
    DistinctTail([p], s);
    HeadApart(p, s);
    IdSetCons(p, s);
    hide Id, DistinctIds;
  }

  /** And since recovery every id accepted is in exactly one of the three places, and handed out at most once. */
  lemma {:induction false} OnePlaceById(q: QState, ops: seq<Op>, p: Payload)
    requires q.waiting == map[] && OneLife(ops)
    requires DistinctIds(q.getable + Inserted(ops)) && p in q.getable + Inserted(ops)
    ensures var r := Run(q, ops);
            && (p in r.getable) == (Id(p) !in r.waiting && Id(p) !in Acked(q, ops))
            && !(Id(p) in r.waiting && Id(p) in Acked(q, ops))
    ensures DistinctIds(Delivered(q, ops))
  {
    var r, d := Run(q, ops), Delivered(q, ops);
    assert IdsUsedOnce(q, Inserted(ops));
    HandedOutIds(q, ops);
    FirstInFirstOut(q, ops);
    DistinctTail(d, r.getable);
    hide Run, Delivered, Inserted, Acked;
    Apart(d, r.getable, p);
  }

  lemma {:induction false} Apart(a: seq<Payload>, b: seq<Payload>, p: Payload)
    requires DistinctIds(a + b) && p in a + b
    ensures p in b <==> Id(p) !in IdSet(a)
  {
    hide Id;
    if p in b {
      var j :| 0 <= j < |b| && b[j] == p;
      forall x | x in a ensures Id(x) != Id(p) {
        var i :| 0 <= i < |a| && a[i] == x;
        assert (a + b)[i] == x && (a + b)[|a| + j] == p;
      }
    }
  }

  // ---- compaction cost ----

  /** The trigger in closed form. */
  lemma {:induction false} GcDueExactly(total: nat, valid: nat)
    ensures GcDue(total, valid) <==> total > 2000 && 2 * valid < total
  {
    if total > 0 {
      var k := valid * 10 / total;
      assert k * total <= valid * 10 < (k + 1) * total;
      if k < 5 {
        assert (k + 1) * total <= 5 * total;
      } else {
        assert k * total >= 5 * total;
      }
    }
  }

  /** Dead records never outnumber both 2000 and the live ones. */
  predicate Bounded(q: QState) {
    q.DeadRecords() <= 2000 || q.DeadRecords() <= |q.Kept()|
  }

  /** Records an automatic compaction copies at this step. */
  function Copies(q: QState, op: Op): nat {
    if AcksDurable(q, op) then
      var log := Kill(q.log, op.id);
      if GcDue(|log|, |Live(log)|) then |Live(log)| else 0
    else 0
  }

  function Copied(q: QState, ops: seq<Op>): nat
    decreases |ops|
  {
    if ops == [] then 0 else Copies(q, ops[0]) + Copied(Step(q, ops[0]), ops[1..])
  }

  function DurableAcks(q: QState, ops: seq<Op>): nat
    decreases |ops|
  {
    if ops == [] then 0
    else (if AcksDurable(q, ops[0]) then 1 else 0) + DurableAcks(Step(q, ops[0]), ops[1..])
  }

  lemma {:induction false} CompactionStep(q: QState, op: Op)
    requires WellFormed(q) && Legal(q, op) && Bounded(q)
    ensures Bounded(Step(q, op))
    ensures Copies(q, op) + Step(q, op).DeadRecords() <= q.DeadRecords() + if AcksDurable(q, op) then 1 else 0
  {
    LiveOfLive(q.log);
    match op
    case Insert(p) =>
      LiveAppend(q.log, [p]);
      LiveOne(p);
      hide Live, Id, Storable;
    case Front =>
    case Ack(id) =>
      if AcksDurable(q, op) {
        var log := Kill(q.log, id);
        LiveOfKill(q.log, id);
        LiveOfLive(log);
        assert q.waiting[id] in q.Kept() && Id(q.waiting[id]) == id;
        WithoutOne(q.Kept(), id);
        GcDueExactly(|log|, |Live(log)|);
        hide Live, Id, GcDue, Kill, Without;
      }
    case Restart =>
      LiveOfLive(Live(q.log));
    case Clear =>
  }

  /** The ack of a durable message leaves one more dead record, or, when more than 2000 records are in the file and
      fewer than half of them live, a file without any. */
  lemma {:induction false} CompactsExactly(q: QState, id: Bytes)
    requires WellFormed(q) && id in q.waiting && IsDurable(q.waiting[id])
    ensures var q' := Step(q, Ack(id));
            if |q.log| > 2000 && 2 * (|q.Kept()| - 1) < |q.log| then q'.log == q'.Kept()
            else |q'.log| == |q.log| && q'.DeadRecords() == q.DeadRecords() + 1
  {
    hide Live, Id, GcDue, Kill, WellFormed, IsDurable;
    KilledOne(q, id);
    GcDueExactly(|Kill(q.log, id)|, |Live(Kill(q.log, id))|);
    LiveOfLive(Kill(q.log, id));
  }

  lemma {:induction false} KilledOne(q: QState, id: Bytes)
    requires WellFormed(q) && id in q.waiting && IsDurable(q.waiting[id])
    ensures |Kill(q.log, id)| == |q.log| && |Live(Kill(q.log, id))| == |q.Kept()| - 1
  {
    hide Live, Id, Kill, Without, IsDurable;
    LiveOfKill(q.log, id);
    assert q.waiting[id] in q.Kept() && Id(q.waiting[id]) == id;
    WithoutOne(q.Kept(), id);
  }

  /** Over any run from a bounded state: dead records stay bounded, and the records copied by automatic
      compactions plus those dead now never exceed the durable acks plus those dead at the start. */
  lemma {:induction false} CompactionCost(q: QState, ops: seq<Op>)
    requires WellFormed(q) && LegalRun(q, ops) && Bounded(q)
    ensures Bounded(Run(q, ops))
    ensures Copied(q, ops) + Run(q, ops).DeadRecords() <= DurableAcks(q, ops) + q.DeadRecords()
    decreases |ops|
  {
    hide WellFormed, Legal, Step, Bounded, Copies, Live, AcksDurable;
    if ops != [] {
      StepKeeps(q, ops[0]);
      CompactionStep(q, ops[0]);
      CompactionCost(Step(q, ops[0]), ops[1..]);
    }
  }
}
