/** Every operation of the virtual host keeps its invariant; restart is the projection to the durable part. */
module HostSafety {
  import opened Basics
  import opened PayloadCodec
  import opened RecordLog
  import opened QueueModel
  import opened ArgsCodec
  import opened HostModel

  // ---- binding rows ----

  lemma {:induction false} FromRowsMembers(rows: seq<Binding>)
    ensures forall p :: p in FromRows(rows) <==> exists i :: 0 <= i < |rows| && PairOf(rows[i]) == p
  {
    if rows != [] {
      FromRowsMembers(rows[1..]);
      forall p ensures p in FromRows(rows) <==> exists i :: 0 <= i < |rows| && PairOf(rows[i]) == p {
        if p in FromRows(rows[1..]) {
          var i :| 0 <= i < |rows[1..]| && PairOf(rows[1..][i]) == p;
          assert PairOf(rows[i + 1]) == p;
        }
        if i :| 0 <= i < |rows| && PairOf(rows[i]) == p {
          if i > 0 {
            assert PairOf(rows[1..][i - 1]) == p;
          }
        }
      }
    }
  }

  lemma {:induction false} FromRowsSnoc(rows: seq<Binding>, b: Binding)
    ensures FromRows(rows + [b]) ==
      if PairOf(b) in FromRows(rows) then FromRows(rows) else FromRows(rows)[PairOf(b) := b.key]
  {
    if rows == [] {
      assert [b][1..] == [];
    } else {
      assert (rows + [b])[1..] == rows[1..] + [b];
      FromRowsSnoc(rows[1..], b);
    }
  }

  lemma {:induction false} DistinctPairsSnoc(rows: seq<Binding>, b: Binding)
    requires DistinctPairs(rows) && PairOf(b) !in FromRows(rows)
    ensures DistinctPairs(rows + [b])
  {
    hide FromRows;
    FromRowsMembers(rows);
  }

  lemma {:induction false} MatchingMembers(rows: seq<Binding>, keep: Binding -> bool)
    ensures forall b :: b in Matching(rows, keep) <==> b in rows && keep(b)
  {
    if rows != [] {
      MatchingMembers(rows[1..], keep);
      assert forall b :: b in rows <==> b == rows[0] || b in rows[1..];
    }
  }

  lemma {:induction false} PairsCons(b: Binding, rows: seq<Binding>, kept: seq<Binding>)
    requires DistinctPairs([b] + rows) && DistinctPairs(kept) && forall x | x in kept :: x in rows
    ensures DistinctPairs([b] + kept)
    ensures DistinctPairs(rows)
  {
    hide PairOf;
    var all := [b] + rows;
    forall i, j | 0 <= i < j < |rows| ensures PairOf(rows[i]) != PairOf(rows[j]) {
      assert PairOf(all[i + 1]) != PairOf(all[j + 1]);
    }
    forall j | 0 <= j < |kept| ensures PairOf(b) != PairOf(kept[j]) {
      assert kept[j] in rows;
      var k :| 0 <= k < |rows| && rows[k] == kept[j];
      assert PairOf(all[0]) != PairOf(all[k + 1]);
    }
  }

  lemma {:induction false} FromRowsCons(b: Binding, rest: seq<Binding>)
    ensures FromRows([b] + rest) == FromRows(rest)[PairOf(b) := b.key]
  {
    assert ([b] + rest)[1..] == rest;
  }

  lemma {:induction false} MatchingCons(b: Binding, rest: seq<Binding>, keep: Binding -> bool)
    ensures Matching([b] + rest, keep) == if keep(b) then [b] + Matching(rest, keep) else Matching(rest, keep)
  {
    assert ([b] + rest)[1..] == rest;
    assert [] + Matching(rest, keep) == Matching(rest, keep);
  }

  lemma {:induction false} KeepingPut(m: map<Pair, Bytes>, b: Binding, keep: Binding -> bool)
    requires PairOf(b) !in m
    ensures Keeping(m[PairOf(b) := b.key], keep)
         == if keep(b) then Keeping(m, keep)[PairOf(b) := b.key] else Keeping(m, keep)
  {
  }

  /** Deleting rows deletes exactly those bindings. */
  lemma {:induction false} FromRowsMatching(rows: seq<Binding>, keep: Binding -> bool)
    requires DistinctPairs(rows)
    ensures FromRows(Matching(rows, keep)) == Keeping(FromRows(rows), keep)
    ensures DistinctPairs(Matching(rows, keep))
  {
    hide FromRows, Matching, Keeping, PairOf, DistinctPairs;
    if rows == [] {
      NoRows(keep);
    } else {
      var b, rest := rows[0], rows[1..];
      assert rows == [b] + rest;
      NoRows(keep);
      PairsCons(b, rest, []);
      FromRowsMatching(rest, keep);
      MatchingMembers(rest, keep);
      PairsCons(b, rest, Matching(rest, keep));
      HeadPairApart(b, rest);
      FromRowsMembers(rest);
      FromRowsCons(b, rest);
      FromRowsCons(b, Matching(rest, keep));
      MatchingCons(b, rest, keep);
      KeepingPut(FromRows(rest), b, keep);
    }
  }

  lemma {:induction false} NoRows(keep: Binding -> bool)
    ensures Matching([], keep) == [] && FromRows([]) == map[] && Keeping(map[], keep) == map[] && DistinctPairs([])
  {
  }

  lemma {:induction false} HeadPairApart(b: Binding, rows: seq<Binding>)
    requires DistinctPairs([b] + rows)
    ensures forall i | 0 <= i < |rows| :: PairOf(rows[i]) != PairOf(b)
  {
    hide PairOf;
    var all := [b] + rows;
    forall i | 0 <= i < |rows| ensures PairOf(rows[i]) != PairOf(b) {
      assert PairOf(all[0]) != PairOf(all[i + 1]);
    }
  }

  // ---- the parts of the invariant under each operation ----

  lemma {:induction false} RowsDropped(h: HostState, keep: Binding -> bool)
    requires DistinctPairs(BindingRows(h.bindingTable))
    ensures var rows := BindingRows(DropBindings(h, keep).bindingTable);
            DistinctPairs(rows) && FromRows(rows) == Keeping(FromRows(BindingRows(h.bindingTable)), keep)
  {
    hide FromRows, Matching, Keeping;
    FromRowsMatching(BindingRows(h.bindingTable), keep);
    NoRows(keep);
  }

  /** What an exchange or queue deletion drops is exactly what its durable rows drop. */
  lemma {:induction false} DurablePartKeeping(es: map<Bytes, Exchange>, qs: map<Bytes, MsgQueue>, m: map<Pair, Bytes>,
      keep: Binding -> bool)
    ensures Keeping(DurablePart(es, qs, m), keep) == DurablePart(es, qs, Keeping(m, keep))
  {
  }

  lemma {:induction false} DurablePartLessExchange(es: map<Bytes, Exchange>, qs: map<Bytes, MsgQueue>,
      m: map<Pair, Bytes>, n: Bytes)
    ensures DurablePart(es, qs, Keeping(m, NotExchange(n))) == DurablePart(es - {n}, qs, Keeping(m, NotExchange(n)))
  {
  }

  lemma {:induction false} DurablePartLessQueue(es: map<Bytes, Exchange>, qs: map<Bytes, MsgQueue>,
      m: map<Pair, Bytes>, n: Bytes)
    ensures DurablePart(es, qs, Keeping(m, NotQueue(n))) == DurablePart(es, qs - {n}, Keeping(m, NotQueue(n)))
  {
  }

  /** A new entity has no bindings yet. */
  lemma {:induction false} DurablePartMore(es: map<Bytes, Exchange>, qs: map<Bytes, MsgQueue>, m: map<Pair, Bytes>,
      e: Exchange, q: MsgQueue)
    requires forall p | p in m :: p.0 in es && p.1 in qs
    ensures e.name !in es ==> DurablePart(es[e.name := e], qs, m) == DurablePart(es, qs, m)
    ensures q.name !in qs ==> DurablePart(es, qs[q.name := q], m) == DurablePart(es, qs, m)
  {
  }

  lemma {:induction false} DurablePartBind(es: map<Bytes, Exchange>, qs: map<Bytes, MsgQueue>, m: map<Pair, Bytes>,
      p: Pair, key: Bytes)
    requires p !in m
    ensures DurablePart(es, qs, m[p := key])
         == if BothDurable(es, qs, p) then DurablePart(es, qs, m)[p := key] else DurablePart(es, qs, m)
  {
  }

  // ---- legal operations ----

  /** What callers and the layers below guarantee: the column of a row encodes its args, and
      a published message's id is free in its queue and its payload can be serialized. */
  ghost predicate LegalOp(h: HostState, op: HostOp) {
    match op
    case DeclareExchange(e, column, _) => e.durable && e.name !in h.exchanges ==> ArgsOf(column) == e.args - {[]}
    case DeclareQueue(q, column, _) => q.durable && q.name !in h.queues ==> ArgsOf(column) == q.args - {[]}
    case Publish(q, bp, body, id) =>
      q in h.stores ==> Legal(h.stores[q], Insert(NewPayload(bp, id, body, DurableOf(h, q))))
    case _ => true
  }

  // ---- exchanges ----

  lemma {:induction false} ExchangeAdded(es: map<Bytes, Exchange>, rows: map<Bytes, ExchangeRow>, e: Exchange,
      column: Bytes)
    requires ExchangesPersisted(es, rows) && e.name !in es && (e.durable ==> ArgsOf(column) == e.args - {[]})
    ensures !e.durable ==> ExchangesPersisted(es[e.name := e], rows)
    ensures e.durable ==> ExchangesPersisted(es[e.name := e], rows[e.name := ExchangeRowOf(e, column)])
  {
    hide ArgsOf;
  }

  lemma {:induction false} ExchangeRemoved(es: map<Bytes, Exchange>, rows: map<Bytes, ExchangeRow>, n: Bytes)
    requires ExchangesPersisted(es, rows) && n in es
    ensures ExchangesPersisted(es - {n}, if es[n].durable then rows - {n} else rows)
  {
    hide ArgsOf;
  }

  lemma {:induction false} QueueAdded(qs: map<Bytes, MsgQueue>, rows: map<Bytes, QueueRow>, q: MsgQueue, column: Bytes)
    requires QueuesPersisted(qs, rows) && q.name !in qs && (q.durable ==> ArgsOf(column) == q.args - {[]})
    ensures !q.durable ==> QueuesPersisted(qs[q.name := q], rows)
    ensures q.durable ==> QueuesPersisted(qs[q.name := q], rows[q.name := QueueRowOf(q, column)])
  {
    hide ArgsOf;
  }

  lemma {:induction false} QueueRemoved(qs: map<Bytes, MsgQueue>, rows: map<Bytes, QueueRow>, n: Bytes)
    requires QueuesPersisted(qs, rows) && n in qs
    ensures QueuesPersisted(qs - {n}, if qs[n].durable then rows - {n} else rows)
  {
    hide ArgsOf;
  }

  lemma {:induction false} RowsDeleted<R>(table: Option<map<Bytes, R>>, n: Bytes)
    ensures Rows(DeleteRow(table, n)) == Rows(table) - {n}
  {
  }

  lemma {:induction false} DeclareExchangeKeeps(h: HostState, e: Exchange, column: Bytes, dbOk: bool)
    requires HostInvariant(h) && (e.durable && e.name !in h.exchanges ==> ArgsOf(column) == e.args - {[]})
    ensures HostInvariant(StepDeclareExchange(h, e, column, dbOk).0)
  {
    hide ArgsOf, WellFormed, Healthy, Live, FromRows, DurablePart, DistinctPairs, ExchangesPersisted, QueuesPersisted;
    if e.name !in h.exchanges {
      ExchangeAdded(h.exchanges, Rows(h.exchangeTable), e, column);
      DurablePartMore(h.exchanges, h.queues, h.bindings, e, MsgQueue([], false, false, false, map[]));
    }
  }

  lemma {:induction false} DeleteExchangeKeeps(h: HostState, n: Bytes)
    requires HostInvariant(h)
    ensures HostInvariant(StepDeleteExchange(h, n))
  {
    hide ArgsOf, WellFormed, Healthy, Live, FromRows, DurablePart, DistinctPairs, ExchangesPersisted, QueuesPersisted,
      Matching;
    RowsDropped(h, NotExchange(n));
    DurablePartKeeping(h.exchanges, h.queues, h.bindings, NotExchange(n));
    DurablePartLessExchange(h.exchanges, h.queues, h.bindings, n);
    if n in h.exchanges {
      RowsDeleted(h.exchangeTable, n);
      ExchangeRemoved(h.exchanges, Rows(h.exchangeTable), n);
    }
  }

  // ---- bindings ----

  lemma {:induction false} BindKeeps(h: HostState, e: Bytes, q: Bytes, key: Bytes, dbOk: bool)
    requires HostInvariant(h)
    ensures HostInvariant(StepBind(h, e, q, key, dbOk).0)
  {
    hide ArgsOf, WellFormed, Healthy, Live, FromRows, DurablePart, DistinctPairs, ExchangesPersisted, QueuesPersisted;
    if e in h.exchanges && q in h.queues && (e, q) !in h.bindings {
      var rows, b := BindingRows(h.bindingTable), Binding(e, q, key);
      DurablePartBind(h.exchanges, h.queues, h.bindings, (e, q), key);
      NotDurableYet(h.exchanges, h.queues, h.bindings, (e, q));
      assert PairOf(b) == (e, q);
      FromRowsSnoc(rows, b);
      DistinctPairsSnoc(rows, b);
    }
  }

  lemma {:induction false} NotDurableYet(es: map<Bytes, Exchange>, qs: map<Bytes, MsgQueue>, m: map<Pair, Bytes>,
      p: Pair)
    requires p !in m
    ensures p !in DurablePart(es, qs, m)
  {
  }

  lemma {:induction false} UnBindKeeps(h: HostState, e: Bytes, q: Bytes)
    requires HostInvariant(h)
    ensures HostInvariant(StepUnBind(h, e, q))
  {
    hide ArgsOf, WellFormed, Healthy, Live, FromRows, DurablePart, DistinctPairs, ExchangesPersisted, QueuesPersisted,
      Matching;
    RowsDropped(h, NotPair(e, q));
    DurablePartKeeping(h.exchanges, h.queues, h.bindings, NotPair(e, q));
  }

  // ---- queues and their stores ----

  lemma {:induction false} OpenStoreKeeps(h: HostState, n: Bytes)
    requires HostInvariant(h)
    ensures HostInvariant(OpenStore(h, n)) && n in OpenStore(h, n).stores
    ensures n !in h.queues && n in h.stores ==> h.stores[n].Kept() == []
    ensures n !in h.stores ==> OpenStore(h, n).stores[n].Kept() == []
  {
    hide WellFormed, Healthy, Live, TablesMatch;
    if n !in h.stores {
      EmptyHealthy();
      RecoveryWellFormed(PastLog(h.stale, n));
      LiveOfLive(PastLog(h.stale, n));
      assert Recovered(PastLog(h.stale, n)).Kept() == [];
      TablesIgnoreStores(h, OpenStore(h, n));
    }
  }

  lemma {:induction false} EmptyHealthy()
    ensures Healthy([]) && Live([]) == []
  {
  }

  lemma {:induction false} TablesIgnoreStores(h: HostState, h': HostState)
    requires TablesMatch(h) && h'.(stores := h.stores, stale := h.stale) == h
    ensures TablesMatch(h')
  {
    hide FromRows, DurablePart, DistinctPairs, ExchangesPersisted, QueuesPersisted;
  }

  lemma {:induction false} AddQueueKeeps(h: HostState, q: MsgQueue, table: Option<map<Bytes, QueueRow>>)
    requires HostInvariant(h) && q.name !in h.queues && q.name in h.stores
    requires QueuesPersisted(h.queues[q.name := q], Rows(table))
    ensures HostInvariant(h.(queues := h.queues[q.name := q], queueTable := table))
  {
    hide ArgsOf, WellFormed, Healthy, Live, FromRows, DurablePart, DistinctPairs, ExchangesPersisted, QueuesPersisted;
    DurablePartMore(h.exchanges, h.queues, h.bindings, Exchange([], 0, false, false, map[]), q);
  }

  lemma {:induction false} QueuesArePersisted(h: HostState)
    requires HostInvariant(h)
    ensures QueuesPersisted(h.queues, Rows(h.queueTable))
  {
    hide QueuesPersisted, NoDangling, StoresMatch;
  }

  lemma {:induction false} DeclareQueueKeeps(h: HostState, q: MsgQueue, column: Bytes, dbOk: bool)
    requires HostInvariant(h) && (q.durable && q.name !in h.queues ==> ArgsOf(column) == q.args - {[]})
    ensures HostInvariant(StepDeclareQueue(h, q, column, dbOk).0)
  {
    hide ArgsOf, HostInvariant, QueuesPersisted;
    OpenStoreKeeps(h, q.name);
    QueuesArePersisted(h);
    var h1 := OpenStore(h, q.name);
    if q.name !in h.queues {
      QueueAdded(h.queues, Rows(h.queueTable), q, column);
      if !q.durable {
        AddQueueKeeps(h1, q, h.queueTable);
      } else if CanInsert(h.queueTable, q.name, dbOk) {
        AddQueueKeeps(h1, q, InsertRow(h.queueTable, q.name, QueueRowOf(q, column)));
      }
    }
  }

  lemma {:induction false} DeleteQueueKeeps(h: HostState, n: Bytes)
    requires HostInvariant(h)
    ensures HostInvariant(StepDeleteQueue(h, n))
  {
    hide StepDeleteQueue, NoDangling, TablesMatch, StoresMatch;
    DeleteQueueTables(h, n);
    DeleteQueueStores(h, n);
  }

  lemma {:induction false} DeleteQueueTables(h: HostState, n: Bytes)
    requires TablesMatch(h)
    ensures TablesMatch(StepDeleteQueue(h, n))
  {
    hide FromRows, DurablePart, DistinctPairs, ExchangesPersisted, QueuesPersisted, Matching, Keeping;
    RowsDropped(h.(stores := h.stores - {n}), NotQueue(n));
    DurablePartKeeping(h.exchanges, h.queues, h.bindings, NotQueue(n));
    DurablePartLessQueue(h.exchanges, h.queues, h.bindings, n);
    if n in h.queues {
      RowsDeleted(h.queueTable, n);
      QueueRemoved(h.queues, Rows(h.queueTable), n);
    }
  }

  lemma {:induction false} DeleteQueueStores(h: HostState, n: Bytes)
    requires NoDangling(h) && StoresMatch(h)
    ensures NoDangling(StepDeleteQueue(h, n)) && StoresMatch(StepDeleteQueue(h, n))
  {
    hide WellFormed, Healthy, Live, DeleteBindings, QState.Kept;
  }

  lemma {:induction false} StoreStepKeeps(h: HostState, n: Bytes, op: QueueModel.Op)
    requires HostInvariant(h) && n in h.stores && Legal(h.stores[n], op) && !op.Restart?
    requires op.Insert? && IsDurable(op.p) ==> DurableOf(h, n)
    ensures HostInvariant(h.(stores := h.stores[n := QueueModel.Step(h.stores[n], op)]))
  {
    hide WellFormed, Healthy, Live, TablesMatch, Legal, QueueModel.Step, Abstract, IsDurable, SimpleStep;
    StepKeeps(h.stores[n], op);
    StepRefines(h.stores[n], op);
    if !DurableOf(h, n) {
      TransientKeepsNothing(h.stores[n], op);
    }
    TablesIgnoreStores(h, h.(stores := h.stores[n := QueueModel.Step(h.stores[n], op)]));
  }

  lemma {:induction false} TransientKeepsNothing(q: QState, op: QueueModel.Op)
    requires Abstract(QueueModel.Step(q, op)) == SimpleStep(Abstract(q), op) && q.Kept() == []
    requires !(op.Insert? && IsDurable(op.p))
    ensures QueueModel.Step(q, op).Kept() == []
  {
    hide Live, QueueModel.Step, IsDurable;
  }

  lemma {:induction false} PublishKeeps(h: HostState, n: Bytes, bp: Option<Properties>, body: Bytes, id: Bytes)
    requires HostInvariant(h) && LegalOp(h, Publish(n, bp, body, id))
    ensures HostInvariant(HostStep(h, Publish(n, bp, body, id)))
  {
    hide HostInvariant, Legal, QueueModel.Step;
    var p := NewPayload(bp, id, body, DurableOf(h, n));
    if n in h.queues && n in h.stores {
      assert IsDurable(p) ==> DurableOf(h, n);
      StoreStepKeeps(h, n, Insert(p));
    }
  }

  lemma {:induction false} ClearKeeps(h: HostState)
    requires HostInvariant(h)
    ensures HostInvariant(StepClear(h))
  {
    hide Healthy, WellFormed, Live, DurablePart, DistinctPairs, FromRows;
    EmptyWellFormed();
    NoBindings();
  }

  lemma {:induction false} NoBindings()
    ensures DurablePart(map[], map[], map[]) == map[] && FromRows([]) == map[] && DistinctPairs([])
  {
  }

  /** Every operation within one process keeps the invariant. */
  lemma {:induction false} StepKeepsHost(h: HostState, op: HostOp)
    requires HostInvariant(h) && LegalOp(h, op) && !op.Restart?
    ensures HostInvariant(HostStep(h, op))
  {
    hide HostInvariant, StepDeclareExchange, StepDeleteExchange, StepDeclareQueue, StepDeleteQueue, StepBind,
      StepUnBind, StepPublish, StepClear, ArgsOf, Legal;
    match op
    case DeclareExchange(e, column, dbOk) => DeclareExchangeKeeps(h, e, column, dbOk);
    case DeleteExchange(n) => DeleteExchangeKeeps(h, n);
    case DeclareQueue(q, column, dbOk) => DeclareQueueKeeps(h, q, column, dbOk);
    case DeleteQueue(n) => DeleteQueueKeeps(h, n);
    case Bind(e, q, key, dbOk) => BindKeeps(h, e, q, key, dbOk);
    case UnBind(e, q) => UnBindKeeps(h, e, q);
    case Publish(q, bp, body, id) => PublishKeeps(h, q, bp, body, id);
    case Consume(q) =>
      if q in h.stores {
        LegalAlways(h.stores[q], Front);
        StoreStepKeeps(h, q, Front);
      }
    case Ack(q, id) =>
      if q in h.stores {
        LegalAlways(h.stores[q], QueueModel.Ack(id));
        StoreStepKeeps(h, q, QueueModel.Ack(id));
      }
    case Clear => ClearKeeps(h);
  }

  lemma {:induction false} LegalAlways(q: QState, op: QueueModel.Op)
    requires !op.Insert?
    ensures Legal(q, op)
  {
  }
}
