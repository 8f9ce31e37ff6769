/** Restart of the virtual host, and safety over whole runs. */
module HostRestart {
  import opened Basics
  import opened RecordLog
  import opened QueueModel
  import opened ArgsCodec
  import opened HostModel
  import opened HostSafety

  /** A type the exchange table's reader accepts. */
  predicate KnownKind(e: Exchange) {
    0 <= e.kind <= 3
  }

  /** What comes back of a durable exchange or queue: everything but an arg with the empty key. */
  function ReloadedExchange(e: Exchange): Exchange {
    e.(args := e.args - {[]})
  }

  function ReloadedQueue(q: MsgQueue): MsgQueue {
    q.(args := q.args - {[]})
  }

  lemma {:induction false} ExchangesReload(es: map<Bytes, Exchange>, rows: map<Bytes, ExchangeRow>)
    requires ExchangesPersisted(es, rows)
    ensures FromExchangeRows(rows) == map n | n in es && es[n].durable && KnownKind(es[n]) :: ReloadedExchange(es[n])
    ensures ExchangesPersisted(FromExchangeRows(rows), rows) <==>
      forall n | n in es && es[n].durable :: KnownKind(es[n])
  {
    hide ArgsOf;
    var back := FromExchangeRows(rows);
    forall n | n in rows && KnownKind(es[n]) ensures n in back && back[n] == ReloadedExchange(es[n]) {
      assert ExchangePersisted(rows[n], es[n]);
    }
    forall n | n in back ensures back[n].args - {[]} == back[n].args {
      assert ExchangePersisted(rows[n], es[n]);
    }
  }

  lemma {:induction false} QueuesReload(qs: map<Bytes, MsgQueue>, rows: map<Bytes, QueueRow>)
    requires QueuesPersisted(qs, rows)
    ensures FromQueueRows(rows) == map n | n in qs && qs[n].durable :: ReloadedQueue(qs[n])
    ensures QueuesPersisted(FromQueueRows(rows), rows)
  {
    hide ArgsOf;
    var back := FromQueueRows(rows);
    forall n | n in rows ensures n in back && back[n] == ReloadedQueue(qs[n]) && back[n].args - {[]} == back[n].args {
      assert QueuePersisted(rows[n], qs[n]);
    }
  }

  lemma {:induction false} LogOnDisk(h: HostState, n: Bytes)
    requires StoresMatch(h)
    ensures n in h.stores ==> PastLog(AllLogs(h), n) == h.stores[n].log && Healthy(h.stores[n].log)
    ensures n in AllLogs(h) ==> Healthy(AllLogs(h)[n]) && (!DurableOf(h, n) ==> Live(AllLogs(h)[n]) == [])
  {
    hide WellFormed, Healthy, Live;
    if n in h.stores {
      HealthyPart(h.stores[n]);
    }
  }

  lemma {:induction false} RecoveredIsRestart(q: QState)
    ensures Recovered(q.log) == QueueModel.Step(q, QueueModel.Restart)
  {
    hide Live;
  }

  lemma {:induction false} LogsAfterRestart(h: HostState)
    requires StoresMatch(h) && QueuesPersisted(h.queues, Rows(h.queueTable))
    ensures var r := StepRestart(h);
            && StoresMatch(r)
            && r.stores.Keys == r.queues.Keys
            && forall n | n in r.stores ::
                 n in h.stores && r.stores[n] == QueueModel.Step(h.stores[n], QueueModel.Restart)
  {
    hide ArgsOf, WellFormed, Healthy, Live, FromRows, QueuesPersisted, FromExchangeRows, FromQueueRows, PastLog,
      AllLogs, QueueModel.Step, Recovered;
    var r := StepRestart(h);
    QueuesReload(h.queues, Rows(h.queueTable));
    forall n | n in r.stores
      ensures n in h.stores && r.stores[n] == QueueModel.Step(h.stores[n], QueueModel.Restart)
        && WellFormed(r.stores[n])
    {
      LogOnDisk(h, n);
      RecoveryWellFormed(h.stores[n].log);
      RecoveredIsRestart(h.stores[n]);
      RecoveredIs(h.stores[n].log);
    }
    forall n | n in r.stale ensures Healthy(r.stale[n]) && Live(r.stale[n]) == [] {
      LogOnDisk(h, n);
    }
  }

  lemma {:induction false} HealthyPart(q: QState)
    requires WellFormed(q)
    ensures Healthy(q.log)
  {
    hide Healthy, IdsApart, KeptMatches;
  }

  /** Restart gives back exactly the durable queues, the durable exchanges of known type, the bindings with
      both ends durable, and in each durable queue the messages its own recovery yields. */
  lemma {:induction false} RestartIsProjection(h: HostState)
    requires HostInvariant(h)
    ensures var r := StepRestart(h);
            && r.exchanges == (map n | n in h.exchanges && h.exchanges[n].durable && KnownKind(h.exchanges[n]) ::
              ReloadedExchange(h.exchanges[n]))
            && r.queues == (map n | n in h.queues && h.queues[n].durable :: ReloadedQueue(h.queues[n]))
            && r.bindings == DurablePart(h.exchanges, h.queues, h.bindings)
            && r.stores.Keys == r.queues.Keys
            && (forall n | n in r.stores ::
                 n in h.stores && r.stores[n] == QueueModel.Step(h.stores[n], QueueModel.Restart))
  {
    hide ArgsOf, Live, DistinctPairs, FromRows, NoDangling, StoresMatch, ExchangesPersisted, QueuesPersisted,
      FromExchangeRows, FromQueueRows, DurablePart;
    ExchangesReload(h.exchanges, Rows(h.exchangeTable));
    QueuesReload(h.queues, Rows(h.queueTable));
    LogsAfterRestart(h);
  }

  /** After a restart no binding dangles exactly when every durable exchange with a durable binding has a known type. */
  lemma {:induction false} RestartDanglesExactly(h: HostState)
    requires HostInvariant(h)
    ensures NoDangling(StepRestart(h)) <==>
      forall p | p in h.bindings && BothDurable(h.exchanges, h.queues, p) :: KnownKind(h.exchanges[p.0])
  {
    hide HostInvariant, StepRestart;
    RestartIsProjection(h);
    var r := StepRestart(h);
    forall p | p in h.bindings && BothDurable(h.exchanges, h.queues, p)
      ensures p in r.bindings && (p.0 in r.exchanges <==> KnownKind(h.exchanges[p.0])) && p.1 in r.queues
    {
    }
  }

  ghost predicate KindsKnown(h: HostState) {
    forall n | n in h.exchanges && h.exchanges[n].durable :: KnownKind(h.exchanges[n])
  }

  lemma {:induction false} AllDurablePart(es: map<Bytes, Exchange>, qs: map<Bytes, MsgQueue>, m: map<Pair, Bytes>)
    requires forall p | p in m :: BothDurable(es, qs, p)
    ensures DurablePart(es, qs, m) == m
  {
  }

  lemma {:induction false} TablesAfterRestart(h: HostState)
    requires HostInvariant(h) && KindsKnown(h)
    ensures TablesMatch(StepRestart(h))
  {
    hide ArgsOf, FromRows, DistinctPairs, NoDangling, StoresMatch, ExchangesPersisted, QueuesPersisted, DurablePart,
      FromExchangeRows, FromQueueRows;
    RestartIsProjection(h);
    ExchangesReload(h.exchanges, Rows(h.exchangeTable));
    QueuesReload(h.queues, Rows(h.queueTable));
    var r := StepRestart(h);
    DurablePartMembers(h.exchanges, h.queues, h.bindings);
    AllDurablePart(r.exchanges, r.queues, r.bindings);
  }

  lemma {:induction false} DurablePartMembers(es: map<Bytes, Exchange>, qs: map<Bytes, MsgQueue>, m: map<Pair, Bytes>)
    ensures forall p | p in DurablePart(es, qs, m) :: BothDurable(es, qs, p)
  {
  }

  /** The whole invariant survives a restart exactly when every durable exchange has a known type. */
  lemma {:induction false} RestartKeepsExactly(h: HostState)
    requires HostInvariant(h)
    ensures HostInvariant(StepRestart(h)) <==> KindsKnown(h)
    ensures KindsKnown(StepRestart(h))
  {
    hide ArgsOf, FromRows, DistinctPairs, StoresMatch, ExchangesPersisted, QueuesPersisted, NoDangling, StepRestart;
    RestartIsProjection(h);
    if KindsKnown(h) {
      TablesAfterRestart(h);
      RestartDanglesExactly(h);
      StoresAfterRestart(h);
    } else {
      LostExchange(h);
    }
  }

  lemma {:induction false} StoresAfterRestart(h: HostState)
    requires HostInvariant(h)
    ensures StoresMatch(StepRestart(h))
  {
    hide StoresMatch, StepRestart, NoDangling, ExchangesPersisted, QueuesPersisted, FromRows, DurablePart,
      DistinctPairs;
    LogsAfterRestart(h);
  }

  lemma {:induction false} LostExchange(h: HostState)
    requires HostInvariant(h) && !KindsKnown(h)
    ensures !TablesMatch(StepRestart(h))
  {
    hide ArgsOf, FromRows, DistinctPairs, StoresMatch, QueuesPersisted, NoDangling, DurablePart, ExchangesPersisted,
      FromQueueRows;
    ExchangesReload(h.exchanges, Rows(h.exchangeTable));
  }

  // ---- runs ----

  function HostRun(h: HostState, ops: seq<HostOp>): HostState
    decreases |ops|
  {
    if ops == [] then h else HostRun(HostStep(h, ops[0]), ops[1..])
  }

  /** Durable exchanges are declared with one of the four types of the protocol's enum. */
  predicate DeclaresKnownKind(op: HostOp) {
    op.DeclareExchange? && op.e.durable ==> KnownKind(op.e)
  }

  ghost predicate LegalHostRun(h: HostState, ops: seq<HostOp>)
    decreases |ops|
  {
    ops == [] || (LegalOp(h, ops[0]) && DeclaresKnownKind(ops[0]) && LegalHostRun(HostStep(h, ops[0]), ops[1..]))
  }

  lemma {:induction false} KindsStay(h: HostState, op: HostOp)
    requires KindsKnown(h) && DeclaresKnownKind(op) && !op.Restart?
    ensures KindsKnown(HostStep(h, op))
  {
  }

  /** Over every run, restarts included, no binding ever dangles, every queue has its message handle,
      and the tables hold exactly the durable part of memory. */
  lemma {:induction false} RunSafe(h: HostState, ops: seq<HostOp>)
    requires HostInvariant(h) && KindsKnown(h) && LegalHostRun(h, ops)
    ensures HostInvariant(HostRun(h, ops)) && KindsKnown(HostRun(h, ops))
    decreases |ops|
  {
    hide HostInvariant, KindsKnown, HostStep, LegalOp, DeclaresKnownKind, StepRestart;
    if ops != [] {
      if ops[0].Restart? {
        RestartKeepsExactly(h);
        RestartIs(h, ops[0]);
      } else {
        StepKeepsHost(h, ops[0]);
        KindsStay(h, ops[0]);
      }
      RunSafe(HostStep(h, ops[0]), ops[1..]);
    }
  }

  lemma {:induction false} RestartIs(h: HostState, op: HostOp)
    requires op.Restart?
    ensures HostStep(h, op) == StepRestart(h)
  {
    hide StepRestart;
  }

  const NEW_HOST := HostState(map[], map[], map[], Some(map[]), Some(map[]), Some([]), map[], map[])

  lemma {:induction false} NewHostSafe()
    ensures HostInvariant(NEW_HOST) && KindsKnown(NEW_HOST)
  {
  }
}
