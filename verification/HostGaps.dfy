/** Where the virtual host falls short, each with an input and the exact condition: message handles without
    a queue, tables that `clear` drops, and bindings that dangle after a restart. */
module HostGaps {
  import opened Basics
  import opened PayloadCodec
  import opened RecordLog
  import opened QueueModel
  import opened ArgsCodec
  import opened HostModel
  import opened HostSafety
  import opened HostRestart

  // ---- handles without a queue ----

  /** Every message handle belongs to a queue. */
  ghost predicate HandlesOwned(h: HostState) {
    forall n | n in h.stores :: n in h.queues
  }

  /** The two operations that leave a handle behind: a durable declare of a new queue whose row is refused,
      and a clear while any handle is open. */
  predicate LeavesHandle(h: HostState, op: HostOp) {
    || (op.DeclareQueue? && op.q.durable && op.q.name !in h.queues && !CanInsert(h.queueTable, op.q.name, op.dbOk))
    || (op.Clear? && h.stores != map[])
  }

  lemma {:induction false} HandlesOwnedExactly(h: HostState, op: HostOp)
    requires HandlesOwned(h) && !op.Restart?
    ensures HandlesOwned(HostStep(h, op)) <==> !LeavesHandle(h, op)
  {
    hide DeleteBindings, Keeping, QueueModel.Step, NewPayload, Recovered;
    if op.Clear? && h.stores != map[] {
      var n :| n in h.stores;
      assert n in HostStep(h, op).stores;
    }
    if op.DeclareQueue? {
      assert op.q.name in OpenStore(h, op.q.name).stores;
    }
  }

  /** A restart leaves only handles that belong to a queue. */
  lemma {:induction false} RestartOwnsHandles(h: HostState)
    ensures HandlesOwned(StepRestart(h))
  {
    hide Recovered, FromExchangeRows, FromQueueRows, FromRows;
  }

  const LOST_QUEUE := MsgQueue([113], true, false, false, map[])

  /** The first process declares one durable queue while the database fails. */
  lemma {:induction false} OrphanHandle()
    ensures var op := DeclareQueue(LOST_QUEUE, [], false);
            var h := HostStep(NEW_HOST, op);
            LegalOp(NEW_HOST, op) && HostInvariant(h) && LOST_QUEUE.name in h.stores && LOST_QUEUE.name !in h.queues
  {
    EmptyColumn();
    NewHostSafe();
    hide ArgsOf, HostInvariant, Recovered;
    StepKeepsHost(NEW_HOST, DeclareQueue(LOST_QUEUE, [], false));
  }

  lemma {:induction false} EmptyColumn()
    ensures ArgsOf([]) == map[]
  {
    ArgsRoundTrip(map[], []);
    hide ArgsOf;
  }

  // ---- after clear ----

  predicate TablesDropped(h: HostState) {
    h.exchangeTable.None? && h.queueTable.None? && h.bindingTable.None?
  }

  predicate TablesPresent(h: HostState) {
    h.exchangeTable.Some? && h.queueTable.Some? && h.bindingTable.Some?
  }

  /** The run clears and does not restart after that. */
  ghost predicate ClearedSince(ops: seq<HostOp>) {
    exists i :: 0 <= i < |ops| && ClearedAt(ops, i)
  }

  ghost predicate ClearedAt(ops: seq<HostOp>, i: nat)
    requires i < |ops|
  {
    ops[i].Clear? && forall j | i < j < |ops| :: !ops[j].Restart?
  }

  ghost predicate NoRestart(ops: seq<HostOp>) {
    forall i | 0 <= i < |ops| :: !ops[i].Restart?
  }

  lemma {:induction false} TablesStep(h: HostState, op: HostOp)
    requires TablesPresent(h) || TablesDropped(h)
    ensures var h' := HostStep(h, op);
            && (op.Clear? ==> TablesDropped(h'))
            && (op.Restart? ==> TablesPresent(h'))
            && (!op.Clear? && !op.Restart? ==>
                  (TablesPresent(h') <==> TablesPresent(h)) && (TablesDropped(h') <==> TablesDropped(h)))
  {
    hide StepDeleteExchange, StepDeclareQueue, StepDeleteQueue, StepBind, StepUnBind, StepPublish, StepStore,
      NewPayload, Recovered, FromExchangeRows, FromQueueRows, FromRows, AllLogs;
    match op
    case DeleteExchange(n) => DeletesKeepTables(h, n, [], []);
    case DeleteQueue(n) => DeletesKeepTables(h, n, [], []);
    case UnBind(e, q) => DeletesKeepTables(h, [], e, q);
    case DeclareQueue(q, column, dbOk) => InsertsKeepTables(h, q, column, dbOk, [], [], []);
    case Bind(e, q, key, dbOk) => InsertsKeepTables(h, LOST_QUEUE, [], dbOk, e, q, key);
    case Publish(q, bp, body, id) => StoresKeepTables(h, q, Insert(NewPayload(bp, id, body, DurableOf(h, q))));
    case Consume(q) => StoresKeepTables(h, q, Front);
    case Ack(q, id) => StoresKeepTables(h, q, QueueModel.Ack(id));
    case _ =>
  }

  /** The same tables are there. */
  predicate SameTables(h: HostState, h': HostState) {
    h'.exchangeTable.Some? == h.exchangeTable.Some? && h'.queueTable.Some? == h.queueTable.Some?
    && h'.bindingTable.Some? == h.bindingTable.Some?
  }

  lemma {:induction false} DeletesKeepTables(h: HostState, n: Bytes, e: Bytes, q: Bytes)
    ensures SameTables(h, StepDeleteExchange(h, n)) && SameTables(h, StepDeleteQueue(h, n))
      && SameTables(h, StepUnBind(h, e, q))
  {
    hide Keeping, Matching;
  }

  lemma {:induction false} InsertsKeepTables(h: HostState, q: MsgQueue, column: Bytes, dbOk: bool, ename: Bytes,
      qname: Bytes, key: Bytes)
    ensures SameTables(h, StepDeclareQueue(h, q, column, dbOk).0)
      && SameTables(h, StepBind(h, ename, qname, key, dbOk).0)
  {
    hide Recovered, PastLog;
  }

  lemma {:induction false} StoresKeepTables(h: HostState, n: Bytes, op: QueueModel.Op)
    ensures SameTables(h, StepStore(h, n, op))
    ensures op.Insert? ==> SameTables(h, StepPublish(h, n, op.p).0)
  {
    hide QueueModel.Step;
  }

  lemma {:induction false} ClearedSinceCons(ops: seq<HostOp>)
    requires ops != []
    ensures ClearedSince(ops) <==> ClearedSince(ops[1..]) || (ops[0].Clear? && NoRestart(ops[1..]))
    ensures NoRestart(ops) <==> !ops[0].Restart? && NoRestart(ops[1..])
  {
    hide ClearedAt;
    var rest := ops[1..];
    ClearedAtFirst(ops);
    if i :| 0 <= i < |rest| && ClearedAt(rest, i) {
      ClearedAtNext(ops, i);
      assert ClearedAt(ops, i + 1);
    }
    if i :| 0 <= i < |ops| && ClearedAt(ops, i) {
      if i > 0 {
        ClearedAtNext(ops, i - 1);
        assert ClearedAt(rest, i - 1);
      }
    }
  }

  lemma {:induction false} ClearedAtFirst(ops: seq<HostOp>)
    requires ops != []
    ensures ClearedAt(ops, 0) <==> ops[0].Clear? && NoRestart(ops[1..])
    ensures NoRestart(ops) <==> !ops[0].Restart? && NoRestart(ops[1..])
  {
    assert forall i | 0 <= i < |ops| - 1 :: ops[1..][i] == ops[i + 1];
  }

  lemma {:induction false} ClearedAtNext(ops: seq<HostOp>, i: nat)
    requires i + 1 < |ops|
    ensures ClearedAt(ops, i + 1) <==> ClearedAt(ops[1..], i)
  {
    var rest := ops[1..];
    assert forall j | 0 <= j < |rest| :: rest[j] == ops[j + 1];
    if ClearedAt(rest, i) {
      forall j | i + 1 < j < |ops| ensures !ops[j].Restart? {
        assert rest[j - 1] == ops[j];
      }
    }
  }

  /** Over every run from a host with its tables: they are gone exactly when a clear came and no restart since. */
  lemma {:induction false} TablesOverRuns(h: HostState, ops: seq<HostOp>)
    requires TablesPresent(h) || TablesDropped(h)
    ensures TablesPresent(HostRun(h, ops)) || TablesDropped(HostRun(h, ops))
    ensures TablesDropped(HostRun(h, ops)) <==> ClearedSince(ops) || (TablesDropped(h) && NoRestart(ops))
    decreases |ops|
  {
    hide HostStep, ClearedSince, NoRestart;
    if ops == [] {
      NothingSince();
    } else {
      TablesStep(h, ops[0]);
      ClearedSinceCons(ops);
      TablesOverRuns(HostStep(h, ops[0]), ops[1..]);
    }
  }

  lemma {:induction false} NothingSince()
    ensures !ClearedSince([]) && NoRestart([])
  {
  }

  /** Nothing durable exists, any new durable exchange or queue is refused, whatever the database answers, no
      store keeps a message, and a restart brings back nothing at all. */
  ghost predicate NothingDurable(h: HostState) {
    && (forall n | n in h.exchanges :: !h.exchanges[n].durable)
    && (forall n | n in h.queues :: !h.queues[n].durable)
    && (forall e: Exchange, column, dbOk | e.durable && e.name !in h.exchanges ::
      !StepDeclareExchange(h, e, column, dbOk).1)
    && (forall q: MsgQueue, column, dbOk | q.durable && q.name !in h.queues :: !StepDeclareQueue(h, q, column, dbOk).1)
    && (forall n | n in h.stores :: h.stores[n].Kept() == [])
    && RestartsEmpty(h)
  }

  ghost predicate RestartsEmpty(h: HostState) {
    var r := StepRestart(h);
    r.exchanges == map[] && r.queues == map[] && r.bindings == map[] && r.stores == map[]
  }

  lemma {:induction false} DroppedMeansTransient(h: HostState)
    requires Settled(h) && TablesDropped(h)
    ensures NothingDurable(h)
  {
    hide OpenStore, StepRestart, Live;
    assert forall n | n in h.exchanges && h.exchanges[n].durable :: n in Rows(h.exchangeTable);
    EmptyRestart(h);
  }

  lemma {:induction false} EmptyRows(es: map<Bytes, ExchangeRow>, qs: map<Bytes, QueueRow>, bs: seq<Binding>)
    ensures es == map[] ==> FromExchangeRows(es) == map[]
    ensures qs == map[] ==> FromQueueRows(qs) == map[]
    ensures bs == [] ==> FromRows(bs) == map[]
  {
    hide ArgsOf;
  }

  lemma {:induction false} EmptyRestart(h: HostState)
    requires TablesDropped(h)
    ensures RestartsEmpty(h)
  {
    hide Recovered, PastLog, AllLogs, ArgsOf, FromExchangeRows, FromQueueRows, FromRows;
    EmptyRows(Rows(h.exchangeTable), Rows(h.queueTable), BindingRows(h.bindingTable));
  }

  /** `clear` drops the tables for good: over any run, from the last clear until the next restart nothing
      durable exists or can come to exist, and everything is lost at that restart. */
  lemma {:induction false} NothingDurableAfterClear(h: HostState, ops: seq<HostOp>)
    requires Settled(h) && (TablesPresent(h) || TablesDropped(h)) && ClearedSince(ops)
    ensures NothingDurable(HostRun(h, ops))
  {
    hide Settled, HostRun, ClearedSince, NothingDurable, TablesDropped;
    RunSettles(h, ops);
    TablesOverRuns(h, ops);
    DroppedMeansTransient(HostRun(h, ops));
  }

  /** The table still holds a row of this name that the reader skips: the primary key is taken, and nothing in
      memory can be deleted to free it. */
  predicate Blocked(h: HostState, name: Bytes) {
    name in Rows(h.exchangeTable) && !(0 <= Rows(h.exchangeTable)[name].kind <= 3)
  }

  /** After any run: a new durable exchange is accepted exactly when the database takes rows, no clear came
      since the last restart, and no skipped row blocks its name; a new durable queue, or a new binding with
      both ends durable, exactly when the first two hold. */
  lemma {:induction false} DurableAcceptedExactly(h: HostState, ops: seq<HostOp>, e: Exchange, q: MsgQueue, b: Binding,
      column: Bytes, dbOk: bool)
    requires Settled(h) && TablesPresent(h)
    ensures var r := HostRun(h, ops);
            && (e.durable && e.name !in r.exchanges ==>
                  (StepDeclareExchange(r, e, column, dbOk).1 <==> dbOk && !ClearedSince(ops) && !Blocked(r, e.name)))
            && (q.durable && q.name !in r.queues ==>
                  (StepDeclareQueue(r, q, column, dbOk).1 <==> dbOk && !ClearedSince(ops)))
            && (BothDurable(r.exchanges, r.queues, PairOf(b)) && PairOf(b) !in r.bindings ==>
                  (StepBind(r, b.exchange, b.queue, b.key, dbOk).1 <==> dbOk && !ClearedSince(ops)))
  {
    hide HostRun, ClearedSince, NoRestart, Live;
    RunSettles(h, ops);
    TablesOverRuns(h, ops);
  }

  // ---- what any run keeps, whatever is declared or published ----

  /** A row belongs to a durable entity in memory, or is one the reader skips. */
  ghost predicate ExchangeRowsOwned(es: map<Bytes, Exchange>, rows: map<Bytes, ExchangeRow>) {
    && (forall n | n in rows :: rows[n].durable && ((n in es && es[n].durable) || !(0 <= rows[n].kind <= 3)))
    && (forall n | n in es && es[n].durable :: n in rows)
  }

  ghost predicate QueueRowsOwned(qs: map<Bytes, MsgQueue>, rows: map<Bytes, QueueRow>) {
    && (forall n | n in rows :: rows[n].durable && n in qs && qs[n].durable)
    && (forall n | n in qs && qs[n].durable :: n in rows)
  }

  /** Only durable queues keep messages on disk. */
  ghost predicate LogsQuiet(h: HostState) {
    && (forall n | n in h.stores && !DurableOf(h, n) :: h.stores[n].Kept() == [])
    && (forall n | n in h.stale :: Live(h.stale[n]) == [])
  }

  ghost predicate Settled(h: HostState) {
    && ExchangeRowsOwned(h.exchanges, Rows(h.exchangeTable)) && QueueRowsOwned(h.queues, Rows(h.queueTable))
    && LogsQuiet(h)
  }

  lemma {:induction false} InvariantSettles(h: HostState)
    requires HostInvariant(h)
    ensures Settled(h)
  {
    hide NoDangling, FromRows, DurablePart, DistinctPairs, WellFormed, Healthy, Live, ArgsOf;
    forall n | n in Rows(h.exchangeTable) ensures Rows(h.exchangeTable)[n].durable {
      assert ExchangePersisted(Rows(h.exchangeTable)[n], h.exchanges[n]);
    }
    forall n | n in Rows(h.queueTable) ensures Rows(h.queueTable)[n].durable {
      assert QueuePersisted(Rows(h.queueTable)[n], h.queues[n]);
    }
  }

  lemma {:induction false} OthersStay(h: HostState, q: MsgQueue, column: Bytes, dbOk: bool, ename: Bytes, qname: Bytes,
      key: Bytes)
    ensures var d := StepDeclareQueue(h, q, column, dbOk).0;
      d.exchanges == h.exchanges && d.exchangeTable == h.exchangeTable
    ensures var b := StepBind(h, ename, qname, key, dbOk).0;
      b == h.(bindings := b.bindings, bindingTable := b.bindingTable)
  {
    hide Recovered, PastLog;
  }

  /** Operations on one kind of entity leave the other's map and table alone. */
  lemma {:induction false} ExchangesStay(h: HostState, op: HostOp)
    requires !op.DeclareExchange? && !op.DeleteExchange? && !op.Clear? && !op.Restart?
    ensures HostStep(h, op).exchanges == h.exchanges && HostStep(h, op).exchangeTable == h.exchangeTable
  {
    hide StepDeclareQueue, StepBind, StepDeclareExchange, StepDeleteExchange, StepRestart, NewPayload,
      QueueModel.Step, Keeping, DeleteBindings;
    match op
    case DeclareQueue(q, column, dbOk) => OthersStay(h, q, column, dbOk, [], [], []);
    case Bind(e, q, key, dbOk) => OthersStay(h, LOST_QUEUE, [], dbOk, e, q, key);
    case _ =>
  }

  lemma {:induction false} QueuesStay(h: HostState, op: HostOp)
    requires !op.DeclareQueue? && !op.DeleteQueue? && !op.Clear? && !op.Restart?
    ensures HostStep(h, op).queues == h.queues && HostStep(h, op).queueTable == h.queueTable
  {
    hide StepDeclareQueue, StepBind, StepDeclareExchange, StepDeleteQueue, StepRestart, NewPayload, QueueModel.Step,
      Keeping, DeleteBindings;
    match op
    case DeclareExchange(e, column, dbOk) => ExchangeStays(h, e, column, dbOk);
    case Bind(e, q, key, dbOk) => OthersStay(h, LOST_QUEUE, [], dbOk, e, q, key);
    case _ =>
  }

  lemma {:induction false} DeclareExchangeSettles(h: HostState, e: Exchange, column: Bytes, dbOk: bool)
    requires ExchangeRowsOwned(h.exchanges, Rows(h.exchangeTable))
    ensures var d := StepDeclareExchange(h, e, column, dbOk).0; ExchangeRowsOwned(d.exchanges, Rows(d.exchangeTable))
  {
  }

  lemma {:induction false} DeclareQueueSettles(h: HostState, q: MsgQueue, column: Bytes, dbOk: bool)
    requires QueueRowsOwned(h.queues, Rows(h.queueTable))
    ensures var d := StepDeclareQueue(h, q, column, dbOk).0; QueueRowsOwned(d.queues, Rows(d.queueTable))
  {
    hide Recovered, PastLog, OpenStore, QueueRowsOwned;
    if q.name !in h.queues {
      QueuePut(h.queues, Rows(h.queueTable), q, QueueRowOf(q, column));
    }
    OpenKeepsQueues(h, q.name);
  }

  lemma {:induction false} OpenKeepsQueues(h: HostState, n: Bytes)
    ensures OpenStore(h, n).queues == h.queues && OpenStore(h, n).queueTable == h.queueTable
  {
    hide Recovered, PastLog;
  }

  lemma {:induction false} QueuePut(qs: map<Bytes, MsgQueue>, rows: map<Bytes, QueueRow>, q: MsgQueue, row: QueueRow)
    requires QueueRowsOwned(qs, rows) && q.name !in qs && row.durable == q.durable
    ensures QueueRowsOwned(qs[q.name := q], if q.durable then rows[q.name := row] else rows)
  {
  }

  lemma {:induction false} DeleteExchangeSettles(h: HostState, n: Bytes)
    requires ExchangeRowsOwned(h.exchanges, Rows(h.exchangeTable))
    ensures var d := StepDeleteExchange(h, n); ExchangeRowsOwned(d.exchanges, Rows(d.exchangeTable))
  {
    hide Keeping, DeleteBindings;
  }

  lemma {:induction false} DeleteQueueSettles(h: HostState, n: Bytes)
    requires QueueRowsOwned(h.queues, Rows(h.queueTable))
    ensures var d := StepDeleteQueue(h, n); QueueRowsOwned(d.queues, Rows(d.queueTable))
  {
    hide Keeping, DeleteBindings;
  }

  lemma {:induction false} RestartSettles(h: HostState)
    ensures ExchangeRowsOwned(h.exchanges, Rows(h.exchangeTable)) ==>
      ExchangeRowsOwned(StepRestart(h).exchanges, Rows(StepRestart(h).exchangeTable))
    ensures QueueRowsOwned(h.queues, Rows(h.queueTable)) ==>
      QueueRowsOwned(StepRestart(h).queues, Rows(StepRestart(h).queueTable))
  {
    hide Recovered, FromRows, AllLogs, ArgsOf, PastLog;
  }

  lemma {:induction false} ExchangesSettle(h: HostState, op: HostOp)
    requires ExchangeRowsOwned(h.exchanges, Rows(h.exchangeTable))
    ensures ExchangeRowsOwned(HostStep(h, op).exchanges, Rows(HostStep(h, op).exchangeTable))
  {
    hide StepDeclareExchange, StepDeleteExchange, StepDeclareQueue, StepDeleteQueue, StepBind, StepUnBind,
      StepPublish, StepStore, StepRestart;
    match op
    case DeclareExchange(e, column, dbOk) => DeclareExchangeSettles(h, e, column, dbOk);
    case DeleteExchange(n) => DeleteExchangeSettles(h, n);
    case Restart => RestartSettles(h);
    case Clear =>
    case _ => ExchangesStay(h, op);
  }

  lemma {:induction false} QueuesSettle(h: HostState, op: HostOp)
    requires QueueRowsOwned(h.queues, Rows(h.queueTable))
    ensures QueueRowsOwned(HostStep(h, op).queues, Rows(HostStep(h, op).queueTable))
  {
    hide StepDeclareExchange, StepDeleteExchange, StepDeclareQueue, StepDeleteQueue, StepBind, StepUnBind,
      StepPublish, StepStore, StepRestart;
    match op
    case DeclareQueue(q, column, dbOk) => DeclareQueueSettles(h, q, column, dbOk);
    case DeleteQueue(n) => DeleteQueueSettles(h, n);
    case Restart => RestartSettles(h);
    case Clear =>
    case _ => QueuesStay(h, op);
  }

  lemma {:induction false} ExchangeStays(h: HostState, e: Exchange, column: Bytes, dbOk: bool)
    ensures var d := StepDeclareExchange(h, e, column, dbOk).0;
            d == h.(exchanges := d.exchanges, exchangeTable := d.exchangeTable)
  {
  }

  lemma {:induction false} LogsSettle(h: HostState, op: HostOp)
    requires Settled(h)
    ensures LogsQuiet(HostStep(h, op))
  {
    hide *;
    SettledIs(h);
    if op.Publish? || op.Consume? || op.Ack? {
      MessagesSettle(h, op);
    } else if op.DeclareQueue? || op.DeleteQueue? || op.Clear? || op.Restart? {
      StoresSettle(h, op);
    } else {
      StoresStay(h, op);
    }
  }

  lemma {:induction false} SettledIs(h: HostState)
    requires Settled(h)
    ensures ExchangeRowsOwned(h.exchanges, Rows(h.exchangeTable)) && QueueRowsOwned(h.queues, Rows(h.queueTable))
    ensures LogsQuiet(h)
  {
    hide ExchangeRowsOwned, QueueRowsOwned, LogsQuiet, Rows;
  }

  lemma {:induction false} StoresSettle(h: HostState, op: HostOp)
    requires LogsQuiet(h) && QueueRowsOwned(h.queues, Rows(h.queueTable))
    requires op.DeclareQueue? || op.DeleteQueue? || op.Clear? || op.Restart?
    ensures LogsQuiet(HostStep(h, op))
  {
    hide StepRestart, Live, DeleteBindings, OpenStore, QueueRowsOwned;
    match op
    case DeclareQueue(q, _, _) => OpenQuiet(h, q.name);
    case Clear => EmptyHealthy();
    case Restart => RestartQuiet(h);
    case _ =>
  }

  lemma {:induction false} StoresStay(h: HostState, op: HostOp)
    requires LogsQuiet(h)
    requires op.DeclareExchange? || op.DeleteExchange? || op.Bind? || op.UnBind?
    ensures LogsQuiet(HostStep(h, op))
  {
    hide StepDeclareExchange, StepBind, Live, DeleteBindings;
    match op
    case DeclareExchange(e, column, dbOk) => ExchangeStays(h, e, column, dbOk);
    case Bind(e, q, key, dbOk) => OthersStay(h, LOST_QUEUE, [], dbOk, e, q, key);
    case _ =>
  }

  lemma {:induction false} MessagesSettle(h: HostState, op: HostOp)
    requires LogsQuiet(h) && (op.Publish? || op.Consume? || op.Ack?)
    ensures LogsQuiet(HostStep(h, op))
  {
    hide StepStore, StepPublish, Live, NewPayload, QueueModel.Step;
    match op
    case Publish(q, bp, body, id) => StoreQuiet(h, q, Insert(NewPayload(bp, id, body, DurableOf(h, q))), bp, id, body);
    case Consume(q) => StoreQuiet(h, q, Front, None, [], []);
    case Ack(q, id) => StoreQuiet(h, q, QueueModel.Ack(id), None, [], []);
    case _ =>
  }

  lemma {:induction false} OpenQuiet(h: HostState, n: Bytes)
    requires LogsQuiet(h)
    ensures LogsQuiet(OpenStore(h, n))
    ensures var o := OpenStore(h, n); o == h.(stores := o.stores, stale := o.stale) && n in o.stores
    ensures n !in h.queues ==> OpenStore(h, n).stores[n].Kept() == []
  {
    hide Live;
    EmptyHealthy();
    LiveOfLive(PastLog(h.stale, n));
  }

  /** A store without durable messages gets one only by the insert of one. */
  lemma {:induction false} QuietStep(q: QState, op: QueueModel.Op)
    requires q.Kept() == [] && !(op.Insert? && IsDurable(op.p))
    ensures QueueModel.Step(q, op).Kept() == []
  {
    hide Id, IsDurable, GcDue;
    if op.Ack? {
      KillNone(q.log, op.id);
    }
    EmptyHealthy();
    LiveOfLive(q.log);
  }

  lemma {:induction false} StoreQuiet(h: HostState, n: Bytes, op: QueueModel.Op, bp: Option<Properties>, id: Bytes,
      body: Bytes)
    requires LogsQuiet(h) && (op.Insert? ==> op.p == NewPayload(bp, id, body, DurableOf(h, n)))
    ensures LogsQuiet(StepStore(h, n, op)) && (op.Insert? ==> LogsQuiet(StepPublish(h, n, op.p).0))
  {
    hide Live, QueueModel.Step, QState.Kept;
    if n in h.stores && !DurableOf(h, n) {
      QuietStep(h.stores[n], op);
    }
  }

  lemma {:induction false} RestartQuiet(h: HostState)
    requires LogsQuiet(h) && QueueRowsOwned(h.queues, Rows(h.queueTable))
    ensures LogsQuiet(StepRestart(h))
  {
    hide Live, Recovered, FromExchangeRows, FromRows, ArgsOf;
    var r := StepRestart(h);
    assert forall n | n in r.stores :: DurableOf(r, n);
    forall n | n in r.stale ensures Live(r.stale[n]) == [] {
      assert n !in Rows(h.queueTable);
    }
  }

  lemma {:induction false} RunSettles(h: HostState, ops: seq<HostOp>)
    requires Settled(h)
    ensures Settled(HostRun(h, ops))
    decreases |ops|
  {
    hide HostStep, ExchangeRowsOwned, QueueRowsOwned, LogsQuiet;
    if ops != [] {
      ExchangesSettle(h, ops[0]);
      QueuesSettle(h, ops[0]);
      LogsSettle(h, ops[0]);
      RunSettles(HostStep(h, ops[0]), ops[1..]);
    }
  }

  /** One clear of the first process is such a run. */
  lemma {:induction false} OneClear()
    ensures Settled(NEW_HOST) && ClearedSince([HostOp.Clear]) && TablesPresent(NEW_HOST)
  {
    NewHostSafe();
    InvariantSettles(NEW_HOST);
    hide Settled;
    assert ClearedAt([HostOp.Clear], 0) && [HostOp.Clear][1..] == [];
  }

  // ---- bindings that dangle ----

  const ODD_EXCHANGE := Exchange([101], 4, true, false, map[])

  /** The first process declares a durable exchange of type 4 and a durable queue and binds them. */
  const DANGLING_RUN := [
    DeclareExchange(ODD_EXCHANGE, [], true),
    DeclareQueue(LOST_QUEUE, [], true),
    Bind(ODD_EXCHANGE.name, LOST_QUEUE.name, [], true)]

  lemma {:induction false} DanglingRun()
    ensures var h := HostRun(NEW_HOST, DANGLING_RUN);
            && HostInvariant(h) && (ODD_EXCHANGE.name, LOST_QUEUE.name) in h.bindings
            && h.exchanges == map[ODD_EXCHANGE.name := ODD_EXCHANGE] && LOST_QUEUE.name in h.queues
            && h.queues[LOST_QUEUE.name] == LOST_QUEUE
  {
    hide ArgsOf, HostInvariant, Recovered;
    EmptyColumn();
    NewHostSafe();
    var h1 := HostStep(NEW_HOST, DANGLING_RUN[0]);
    StepKeepsHost(NEW_HOST, DANGLING_RUN[0]);
    var h2 := HostStep(h1, DANGLING_RUN[1]);
    StepKeepsHost(h1, DANGLING_RUN[1]);
    StepKeepsHost(h2, DANGLING_RUN[2]);
    ThreeSteps(NEW_HOST, DANGLING_RUN);
  }

  lemma {:induction false} DanglingBinding()
    ensures var h := HostRun(NEW_HOST, DANGLING_RUN);
            HostInvariant(h) && NoDangling(h) && !NoDangling(StepRestart(h)) && !HostInvariant(StepRestart(h))
  {
    hide HostInvariant, StepRestart, NoDangling, HostRun, HostStep;
    DanglingRun();
    var h := HostRun(NEW_HOST, DANGLING_RUN);
    RestartDanglesExactly(h);
    InvariantParts(h);
    InvariantParts(StepRestart(h));
  }

  /** After the restart the name of that exchange is refused to every durable declare, even of a known type and
      even after a delete, although no exchange has it. */
  lemma {:induction false} BlockedName(e: Exchange, column: Bytes, dbOk: bool)
    requires e.name == ODD_EXCHANGE.name && e.durable
    ensures var ops := DANGLING_RUN + [HostOp.Restart];
            var r := HostRun(NEW_HOST, ops);
            && !ClearedSince(ops) && e.name !in r.exchanges && Blocked(r, e.name)
            && !StepDeclareExchange(r, e, column, dbOk).1
            && !StepDeclareExchange(StepDeleteExchange(r, e.name), e, column, dbOk).1
  {
    hide HostInvariant, HostRun, HostStep, FromRows, FromQueueRows, Recovered, ArgsOf, AllLogs;
    DanglingRun();
    var h, ops := HostRun(NEW_HOST, DANGLING_RUN), DANGLING_RUN + [HostOp.Restart];
    HostRunSnoc(NEW_HOST, DANGLING_RUN, HostOp.Restart);
    RestartIs(h, HostOp.Restart);
    RowOfOdd(h);
    assert ops[3].Restart?;
    forall i | 0 <= i < |ops| ensures !ClearedAt(ops, i) {
    }
  }

  lemma {:induction false} RowOfOdd(h: HostState)
    requires HostInvariant(h) && h.exchanges == map[ODD_EXCHANGE.name := ODD_EXCHANGE]
    ensures Blocked(h, ODD_EXCHANGE.name) && Blocked(StepRestart(h), ODD_EXCHANGE.name)
    ensures ODD_EXCHANGE.name !in StepRestart(h).exchanges && h.exchangeTable.Some?
  {
    hide NoDangling, StoresMatch, QueuesPersisted, FromRows, DurablePart, DistinctPairs, ArgsOf, Recovered,
      FromQueueRows;
    assert ExchangePersisted(Rows(h.exchangeTable)[ODD_EXCHANGE.name], ODD_EXCHANGE);
  }

  lemma {:induction false} HostRunSnoc(h: HostState, ops: seq<HostOp>, op: HostOp)
    ensures HostRun(h, ops + [op]) == HostStep(HostRun(h, ops), op)
    decreases |ops|
  {
    hide HostStep;
    if ops == [] {
      assert [op][1..] == [] && [] + [op] == [op];
    } else {
      assert (ops + [op])[1..] == ops[1..] + [op];
      HostRunSnoc(HostStep(h, ops[0]), ops[1..], op);
    }
  }

  lemma {:induction false} ThreeSteps(h: HostState, ops: seq<HostOp>)
    requires |ops| == 3
    ensures HostRun(h, ops) == HostStep(HostStep(HostStep(h, ops[0]), ops[1]), ops[2])
  {
    hide HostStep;
    var h1, h2 := HostStep(h, ops[0]), HostStep(HostStep(h, ops[0]), ops[1]);
    assert HostRun(h, ops) == HostRun(h1, ops[1..]);
    assert ops[1..][0] == ops[1] && ops[1..][1..] == [ops[2]];
    assert HostRun(h1, ops[1..]) == HostRun(h2, [ops[2]]);
    assert [ops[2]][1..] == [];
    assert HostRun(h2, [ops[2]]) == HostRun(HostStep(h2, ops[2]), []);
  }

  lemma {:induction false} InvariantParts(h: HostState)
    ensures HostInvariant(h) ==> NoDangling(h)
  {
    hide NoDangling;
  }
}
