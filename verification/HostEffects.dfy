/** What each operation of the virtual host does, and what it leaves alone, in memory and at the next restart. */
module HostEffects {
  import opened Basics
  import opened PayloadCodec
  import opened RecordLog
  import opened QueueModel
  import opened HostModel
  import opened HostSafety
  import opened HostRestart

  // ---- restart ----

  /** The queue after a restart that kept these messages. */
  function Reopened(kept: seq<Payload>): QState {
    QState(kept, map[], kept)
  }

  /** The durable exchanges of type 0 to 3, with all they were declared with but an empty arg. */
  function ExchangesBack(es: map<Bytes, Exchange>): map<Bytes, Exchange> {
    map n | n in es && es[n].durable && 0 <= es[n].kind <= 3 ::
      Exchange(es[n].name, es[n].kind, true, es[n].autoDelete, es[n].args - {[]})
  }

  function QueuesBack(qs: map<Bytes, MsgQueue>): map<Bytes, MsgQueue> {
    map n | n in qs && qs[n].durable ::
      MsgQueue(qs[n].name, true, qs[n].exclusive, qs[n].autoDelete, qs[n].args - {[]})
  }

  /** The bindings between durable ends, with their keys. */
  function BindingsBack(h: HostState): map<Pair, Bytes> {
    map p | p in h.bindings && p.0 in h.exchanges && h.exchanges[p.0].durable
        && p.1 in h.queues && h.queues[p.1].durable :: h.bindings[p]
  }

  /** The messages each durable queue kept. */
  function StoresBack(h: HostState): map<Bytes, QState> {
    map n | n in h.queues && h.queues[n].durable && n in h.stores :: Reopened(h.stores[n].Kept())
  }

  /** What a restart gives back, entity by entity. */
  lemma {:induction false} RestartGivesBack(h: HostState)
    requires HostInvariant(h)
    ensures var r := HostStep(h, HostOp.Restart);
            && r.exchanges == ExchangesBack(h.exchanges) && r.queues == QueuesBack(h.queues)
            && r.bindings == BindingsBack(h) && r.stores == StoresBack(h)
  {
    hide *;
    RestartIs(h, HostOp.Restart);
    MetadataGivenBack(h);
    StoresGivenBack(h);
  }

  lemma {:induction false} MetadataGivenBack(h: HostState)
    requires HostInvariant(h)
    ensures var r := StepRestart(h);
            && r.exchanges == ExchangesBack(h.exchanges) && r.queues == QueuesBack(h.queues)
            && r.bindings == BindingsBack(h)
  {
    hide StepRestart, HostInvariant, QueueModel.Step;
    RestartIsProjection(h);
  }

  lemma {:induction false} StoresGivenBack(h: HostState)
    requires HostInvariant(h)
    ensures StepRestart(h).stores == StoresBack(h)
  {
    hide StepRestart, HostInvariant, QState.Kept, QueueModel.Step, Reopened, DurablePart, ReloadedQueue;
    RestartIsProjection(h);
    StoresOfQueues(h);
    forall n | n in h.stores ensures QueueModel.Step(h.stores[n], QueueModel.Restart) == Reopened(h.stores[n].Kept()) {
      RestartedIs(h.stores[n]);
    }
  }

  lemma {:induction false} RestartedIs(q: QState)
    ensures QueueModel.Step(q, QueueModel.Restart) == Reopened(q.Kept())
  {
    hide Live;
  }

  lemma {:induction false} StoresOfQueues(h: HostState)
    requires HostInvariant(h)
    ensures forall p | p in h.bindings :: p.0 in h.exchanges && p.1 in h.queues
    ensures forall n | n in h.queues :: n in h.stores
    ensures forall n | n in h.stores :: WellFormed(h.stores[n])
  {
    hide TablesMatch, WellFormed, Healthy, Live;
  }

  // ---- exchanges ----

  /** A taken name is answered true and nothing changes; a new exchange is there as declared, with a row of its own
      if it is durable; refused, nothing changes. */
  lemma {:induction false} DeclareExchangeEffect(h: HostState, e: Exchange, column: Bytes, dbOk: bool)
    ensures var (h', ok) := StepDeclareExchange(h, e, column, dbOk);
            && HostStep(h, DeclareExchange(e, column, dbOk)) == h'
            && (e.name in h.exchanges ==> ok && h' == h)
            && (e.name !in h.exchanges ==>
                  && (ok <==> e.durable ==> dbOk && h.exchangeTable.Some? && e.name !in h.exchangeTable.value)
                  && (!ok ==> h' == h)
                  && (ok ==> h' == h.(exchanges := h.exchanges[e.name := e], exchangeTable := h'.exchangeTable))
                  && (ok && !e.durable ==> h'.exchangeTable == h.exchangeTable)
                  && (ok && e.durable ==> h'.exchangeTable == Some(h.exchangeTable.value[
                        e.name := ExchangeRow(e.name, e.kind, true, e.autoDelete, column)])))
  {
  }

  /** At the next restart exactly that exchange is there besides, if it is durable and of a known type. */
  lemma {:induction false} DeclareExchangeLasts(h: HostState, e: Exchange, column: Bytes, dbOk: bool)
    requires HostInvariant(h) && LegalOp(h, DeclareExchange(e, column, dbOk)) && e.name !in h.exchanges
    requires StepDeclareExchange(h, e, column, dbOk).1
    ensures var r := HostStep(h, HostOp.Restart);
            var r' := HostStep(HostStep(h, DeclareExchange(e, column, dbOk)), HostOp.Restart);
            && r'.queues == r.queues && r'.bindings == r.bindings && r'.stores == r.stores
            && r'.exchanges == if e.durable && 0 <= e.kind <= 3
                 then r.exchanges[e.name := Exchange(e.name, e.kind, true, e.autoDelete, e.args - {[]})]
                 else r.exchanges
  {
    hide *;
    var h' := HostStep(h, DeclareExchange(e, column, dbOk));
    DeclareExchangeEffect(h, e, column, dbOk);
    StepKeepsHost(h, DeclareExchange(e, column, dbOk));
    RestartGivesBack(h);
    RestartGivesBack(h');
    StoresOfQueues(h);
    ExchangesBackPut(h.exchanges, e);
    OthersBack(h, h', e.name);
  }

  lemma {:induction false} ExchangesBackPut(es: map<Bytes, Exchange>, e: Exchange)
    requires e.name !in es
    ensures ExchangesBack(es[e.name := e]) == if e.durable && 0 <= e.kind <= 3
      then ExchangesBack(es)[e.name := Exchange(e.name, e.kind, true, e.autoDelete, e.args - {[]})]
      else ExchangesBack(es)
  {
  }

  /** A change to one unbound exchange is none to what comes back of bindings and stores. */
  lemma {:induction false} OthersBack(h: HostState, h': HostState, n: Bytes)
    requires h' == h.(exchanges := h'.exchanges, exchangeTable := h'.exchangeTable)
    requires forall p | p in h.bindings :: p.0 != n
    requires h'.exchanges - {n} == h.exchanges - {n}
    ensures BindingsBack(h') == BindingsBack(h) && StoresBack(h') == StoresBack(h)
  {
    assert forall k | k != n :: k in h'.exchanges <==> k in h'.exchanges - {n};
    assert forall k | k != n && k in h.exchanges :: h.exchanges[k] == (h.exchanges - {n})[k];
  }

  /** Deleting an exchange takes it, its bindings and their rows away, and nothing else. */
  lemma {:induction false} DeleteExchangeEffect(h: HostState, n: Bytes)
    ensures var h' := HostStep(h, DeleteExchange(n));
            && h' == h.(exchanges := h.exchanges - {n}, bindings := h'.bindings,
                        exchangeTable := h'.exchangeTable, bindingTable := h'.bindingTable)
            && (forall p :: p in h'.bindings <==> p in h.bindings && p.0 != n)
            && (forall p | p in h'.bindings :: h'.bindings[p] == h.bindings[p])
            && h'.exchangeTable == (if n in h.exchanges && h.exchanges[n].durable && h.exchangeTable.Some?
                                    then Some(h.exchangeTable.value - {n}) else h.exchangeTable)
            && (h'.bindingTable.Some? <==> h.bindingTable.Some?)
            && (h.bindingTable.Some? ==>
                  forall b :: b in h'.bindingTable.value <==> b in h.bindingTable.value && b.exchange != n)
  {
    hide DropBindings;
    BindingsDropped(h, NotExchange(n));
    assert n !in h.exchanges ==> h.exchanges - {n} == h.exchanges;
  }

  /** Exactly the bindings and rows not kept go. */
  lemma {:induction false} BindingsDropped(h: HostState, keep: Binding -> bool)
    ensures var h' := DropBindings(h, keep);
            && h' == h.(bindings := h'.bindings, bindingTable := h'.bindingTable)
            && (forall p :: p in h'.bindings <==> p in h.bindings && keep(Binding(p.0, p.1, h.bindings[p])))
            && (forall p | p in h'.bindings :: h'.bindings[p] == h.bindings[p])
            && (h'.bindingTable.Some? <==> h.bindingTable.Some?)
            && (h.bindingTable.Some? ==>
                  forall b :: b in h'.bindingTable.value <==> b in h.bindingTable.value && keep(b))
  {
    hide Matching;
    if h.bindingTable.Some? {
      MatchingMembers(h.bindingTable.value, keep);
    }
  }

  lemma {:induction false} DeleteExchangeLasts(h: HostState, n: Bytes)
    requires HostInvariant(h)
    ensures var r := HostStep(h, HostOp.Restart);
            var r' := HostStep(HostStep(h, DeleteExchange(n)), HostOp.Restart);
            && r'.queues == r.queues && r'.stores == r.stores && r'.exchanges == r.exchanges - {n}
            && (forall p :: p in r'.bindings <==> p in r.bindings && p.0 != n)
            && (forall p | p in r'.bindings :: r'.bindings[p] == r.bindings[p])
  {
    hide *;
    var h' := HostStep(h, DeleteExchange(n));
    DeleteExchangeEffect(h, n);
    AlwaysLegal(h, DeleteExchange(n));
    StepKeepsHost(h, DeleteExchange(n));
    RestartGivesBack(h);
    RestartGivesBack(h');
    ExchangeGone(h, h', n);
  }

  lemma {:induction false} AlwaysLegal(h: HostState, op: HostOp)
    requires !op.DeclareExchange? && !op.DeclareQueue? && !op.Publish?
    ensures LegalOp(h, op)
  {
  }

  lemma {:induction false} ExchangeGone(h: HostState, h': HostState, n: Bytes)
    requires h'.exchanges == h.exchanges - {n} && h'.queues == h.queues && h'.stores == h.stores
    requires forall p :: p in h'.bindings <==> p in h.bindings && p.0 != n
    requires forall p | p in h'.bindings :: h'.bindings[p] == h.bindings[p]
    ensures ExchangesBack(h'.exchanges) == ExchangesBack(h.exchanges) - {n}
    ensures forall p :: p in BindingsBack(h') <==> p in BindingsBack(h) && p.0 != n
    ensures forall p | p in BindingsBack(h') :: BindingsBack(h')[p] == BindingsBack(h)[p]
    ensures StoresBack(h') == StoresBack(h)
  {
  }

  // ---- queues ----

  /** The same for queues; a new queue starts without messages, and no other store changes. */
  lemma {:induction false} DeclareQueueEffect(h: HostState, q: MsgQueue, column: Bytes, dbOk: bool)
    requires HostInvariant(h)
    ensures var (h', ok) := StepDeclareQueue(h, q, column, dbOk);
            && HostStep(h, DeclareQueue(q, column, dbOk)) == h'
            && (q.name in h.queues ==> ok && h' == h)
            && (q.name !in h.queues ==>
                  && (ok <==> q.durable ==> dbOk && h.queueTable.Some? && q.name !in h.queueTable.value)
                  && h' == h.(queues := h'.queues, queueTable := h'.queueTable, stores := h'.stores, stale := h'.stale)
                  && h'.queues == (if ok then h.queues[q.name := q] else h.queues)
                  && h'.queueTable == (if ok && q.durable
                       then Some(h.queueTable.value[
                              q.name := QueueRow(q.name, true, q.exclusive, q.autoDelete, column)])
                       else h.queueTable)
                  && h'.stores == (if q.name in h.stores then h.stores else h.stores[q.name := QState([], map[], [])])
                  && h'.stale == (if q.name in h.stores then h.stale else h.stale - {q.name}))
  {
    hide HostInvariant, OpenStore;
    OpenStoreEffect(h, q.name);
    StoresOfQueues(h);
  }

  /** A handle opened anew holds nothing: what its file has, if anything, is dead. */
  lemma {:induction false} OpenStoreEffect(h: HostState, n: Bytes)
    requires HostInvariant(h)
    ensures OpenStore(h, n) == if n in h.stores then h
      else h.(stores := h.stores[n := QState([], map[], [])], stale := h.stale - {n})
  {
    hide TablesMatch, NoDangling, WellFormed, Healthy, Live;
    EmptyLive();
  }

  lemma {:induction false} EmptyLive()
    ensures Live([]) == []
  {
  }

  lemma {:induction false} DeclareQueueLasts(h: HostState, q: MsgQueue, column: Bytes, dbOk: bool)
    requires HostInvariant(h) && LegalOp(h, DeclareQueue(q, column, dbOk)) && q.name !in h.queues
    ensures var r := HostStep(h, HostOp.Restart);
            var r' := HostStep(HostStep(h, DeclareQueue(q, column, dbOk)), HostOp.Restart);
            var lasts := q.durable && StepDeclareQueue(h, q, column, dbOk).1;
            && r'.exchanges == r.exchanges && r'.bindings == r.bindings
            && r'.queues == (if lasts
                 then r.queues[q.name := MsgQueue(q.name, true, q.exclusive, q.autoDelete, q.args - {[]})]
                   else r.queues)
            && r'.stores == if lasts then r.stores[q.name := QState([], map[], [])] else r.stores
  {
    hide *;
    var h' := HostStep(h, DeclareQueue(q, column, dbOk));
    DeclareQueueEffect(h, q, column, dbOk);
    StepKeepsHost(h, DeclareQueue(q, column, dbOk));
    RestartGivesBack(h);
    RestartGivesBack(h');
    StoresOfQueues(h);
    QueuesBackPut(h.queues, q);
    if q.name in h.stores {
      NothingKeptBy(h, q.name);
    }
    QueueAddedBack(h, h', q, StepDeclareQueue(h, q, column, dbOk).1);
  }

  lemma {:induction false} QueuesBackPut(qs: map<Bytes, MsgQueue>, q: MsgQueue)
    requires q.name !in qs
    ensures QueuesBack(qs[q.name := q]) == if q.durable
      then QueuesBack(qs)[q.name := MsgQueue(q.name, true, q.exclusive, q.autoDelete, q.args - {[]})]
      else QueuesBack(qs)
  {
  }

  lemma {:induction false} NothingKeptBy(h: HostState, n: Bytes)
    requires HostInvariant(h) && n in h.stores && n !in h.queues
    ensures h.stores[n].Kept() == []
  {
    hide TablesMatch, NoDangling, WellFormed, Healthy, Live;
  }

  lemma {:induction false} QueueAddedBack(h: HostState, h': HostState, q: MsgQueue, ok: bool)
    requires q.name !in h.queues && (forall p | p in h.bindings :: p.1 in h.queues)
    requires h'.exchanges == h.exchanges && h'.bindings == h.bindings
    requires h'.queues == if ok then h.queues[q.name := q] else h.queues
    requires h'.stores == if q.name in h.stores then h.stores else h.stores[q.name := QState([], map[], [])]
    requires q.name in h.stores ==> h.stores[q.name].Kept() == []
    ensures BindingsBack(h') == BindingsBack(h)
    ensures StoresBack(h') == if q.durable && ok then StoresBack(h)[q.name := QState([], map[], [])] else StoresBack(h)
  {
    hide StoresBack, QState.Kept;
    StoreAddedBack(h, h', q, ok);
  }

  lemma {:induction false} StoreAddedBack(h: HostState, h': HostState, q: MsgQueue, ok: bool)
    requires q.name !in h.queues
    requires h'.queues == if ok then h.queues[q.name := q] else h.queues
    requires h'.stores == if q.name in h.stores then h.stores else h.stores[q.name := QState([], map[], [])]
    requires q.name in h.stores ==> h.stores[q.name].Kept() == []
    ensures StoresBack(h') == if q.durable && ok then StoresBack(h)[q.name := QState([], map[], [])] else StoresBack(h)
  {
    EmptyKept();
    hide QState.Kept;
  }

  lemma {:induction false} EmptyKept()
    ensures QState([], map[], []).Kept() == []
  {
  }

  /** Deleting a queue takes it, its messages, its bindings and their rows away, and nothing else. */
  lemma {:induction false} DeleteQueueEffect(h: HostState, n: Bytes)
    ensures var h' := HostStep(h, DeleteQueue(n));
            && h' == h.(queues := h.queues - {n}, stores := h.stores - {n}, bindings := h'.bindings,
                        queueTable := h'.queueTable, bindingTable := h'.bindingTable)
            && (forall p :: p in h'.bindings <==> p in h.bindings && p.1 != n)
            && (forall p | p in h'.bindings :: h'.bindings[p] == h.bindings[p])
            && h'.queueTable == (if n in h.queues && h.queues[n].durable && h.queueTable.Some?
                                 then Some(h.queueTable.value - {n}) else h.queueTable)
            && (h'.bindingTable.Some? <==> h.bindingTable.Some?)
            && (h.bindingTable.Some? ==>
                  forall b :: b in h'.bindingTable.value <==> b in h.bindingTable.value && b.queue != n)
  {
    hide DropBindings;
    BindingsDropped(h.(stores := h.stores - {n}), NotQueue(n));
    assert n !in h.queues ==> h.queues - {n} == h.queues;
  }

  lemma {:induction false} DeleteQueueLasts(h: HostState, n: Bytes)
    requires HostInvariant(h)
    ensures var r := HostStep(h, HostOp.Restart);
            var r' := HostStep(HostStep(h, DeleteQueue(n)), HostOp.Restart);
            && r'.exchanges == r.exchanges && r'.queues == r.queues - {n} && r'.stores == r.stores - {n}
            && (forall p :: p in r'.bindings <==> p in r.bindings && p.1 != n)
            && (forall p | p in r'.bindings :: r'.bindings[p] == r.bindings[p])
  {
    hide *;
    var h' := HostStep(h, DeleteQueue(n));
    DeleteQueueEffect(h, n);
    AlwaysLegal(h, DeleteQueue(n));
    StepKeepsHost(h, DeleteQueue(n));
    RestartGivesBack(h);
    RestartGivesBack(h');
    QueueGone(h, h', n);
  }

  lemma {:induction false} QueueGone(h: HostState, h': HostState, n: Bytes)
    requires h'.exchanges == h.exchanges && h'.queues == h.queues - {n} && h'.stores == h.stores - {n}
    requires forall p :: p in h'.bindings <==> p in h.bindings && p.1 != n
    requires forall p | p in h'.bindings :: h'.bindings[p] == h.bindings[p]
    ensures QueuesBack(h'.queues) == QueuesBack(h.queues) - {n} && StoresBack(h') == StoresBack(h) - {n}
    ensures forall p :: p in BindingsBack(h') <==> p in BindingsBack(h) && p.1 != n
    ensures forall p | p in BindingsBack(h') :: BindingsBack(h')[p] == BindingsBack(h)[p]
  {
    hide QState.Kept;
  }

  // ---- bindings ----

  /** A bind needs both ends and leaves a bound pair as it is; a new binding is there with its own key, with a row of
      its own if both ends are durable; refused, nothing changes. */
  lemma {:induction false} BindEffect(h: HostState, e: Bytes, q: Bytes, key: Bytes, dbOk: bool)
    ensures var (h', ok) := StepBind(h, e, q, key, dbOk);
            && HostStep(h, HostOp.Bind(e, q, key, dbOk)) == h'
            && (e !in h.exchanges || q !in h.queues ==> !ok && h' == h)
            && (e in h.exchanges && q in h.queues && (e, q) in h.bindings ==> ok && h' == h)
            && (e in h.exchanges && q in h.queues && (e, q) !in h.bindings ==>
                  var durable := h.exchanges[e].durable && h.queues[q].durable;
                  && (ok <==> durable ==> dbOk && h.bindingTable.Some?)
                  && (!ok ==> h' == h)
                  && (ok ==> h' == h.(bindings := h.bindings[(e, q) := key], bindingTable := h'.bindingTable))
                  && (ok ==> h'.bindingTable == if durable
                        then Some(h.bindingTable.value + [Binding(e, q, key)]) else h.bindingTable))
  {
  }

  /** At the next restart the binding is there, with its key, exactly when both ends are durable. */
  lemma {:induction false} BindLasts(h: HostState, e: Bytes, q: Bytes, key: Bytes, dbOk: bool)
    requires HostInvariant(h) && e in h.exchanges && q in h.queues && (e, q) !in h.bindings
    requires StepBind(h, e, q, key, dbOk).1
    ensures var r := HostStep(h, HostOp.Restart);
            var r' := HostStep(HostStep(h, HostOp.Bind(e, q, key, dbOk)), HostOp.Restart);
            && r'.exchanges == r.exchanges && r'.queues == r.queues && r'.stores == r.stores
            && r'.bindings == if h.exchanges[e].durable && h.queues[q].durable
                 then r.bindings[(e, q) := key] else r.bindings
  {
    hide *;
    var h' := HostStep(h, HostOp.Bind(e, q, key, dbOk));
    BindEffect(h, e, q, key, dbOk);
    AlwaysLegal(h, HostOp.Bind(e, q, key, dbOk));
    StepKeepsHost(h, HostOp.Bind(e, q, key, dbOk));
    RestartGivesBack(h);
    RestartGivesBack(h');
    BindingIn(h, h', e, q, key);
  }

  lemma {:induction false} BindingIn(h: HostState, h': HostState, e: Bytes, q: Bytes, key: Bytes)
    requires h'.exchanges == h.exchanges && h'.queues == h.queues && h'.stores == h.stores
    requires h'.bindings == h.bindings[(e, q) := key] && e in h.exchanges && q in h.queues && (e, q) !in h.bindings
    ensures StoresBack(h') == StoresBack(h)
    ensures BindingsBack(h') == if h.exchanges[e].durable && h.queues[q].durable
      then BindingsBack(h)[(e, q) := key] else BindingsBack(h)
  {
    hide QState.Kept;
  }

  /** An unbind takes exactly the pair and its rows away. */
  lemma {:induction false} UnBindEffect(h: HostState, e: Bytes, q: Bytes)
    ensures var h' := HostStep(h, HostOp.UnBind(e, q));
            && ((e, q) !in h.bindings ==> h' == h)
            && h' == h.(bindings := h.bindings - {(e, q)}, bindingTable := h'.bindingTable)
            && (h'.bindingTable.Some? <==> h.bindingTable.Some?)
            && ((e, q) in h.bindings && h.bindingTable.Some? ==>
                  forall b :: b in h'.bindingTable.value <==>
                    b in h.bindingTable.value && !(b.exchange == e && b.queue == q))
  {
    hide DropBindings;
    if (e, q) in h.bindings {
      BindingsDropped(h, NotPair(e, q));
      var h' := DropBindings(h, NotPair(e, q));
      assert forall p :: p in h'.bindings <==> p in h.bindings - {(e, q)};
      assert h'.bindings == h.bindings - {(e, q)};
    } else {
      assert h.bindings - {(e, q)} == h.bindings;
    }
  }

  /** And a restart does not bring it back. */
  lemma {:induction false} UnBindLasts(h: HostState, e: Bytes, q: Bytes)
    requires HostInvariant(h)
    ensures var r := HostStep(h, HostOp.Restart);
            var r' := HostStep(HostStep(h, HostOp.UnBind(e, q)), HostOp.Restart);
            && r'.exchanges == r.exchanges && r'.queues == r.queues && r'.stores == r.stores
            && r'.bindings == r.bindings - {(e, q)}
  {
    hide *;
    var h' := HostStep(h, HostOp.UnBind(e, q));
    UnBindEffect(h, e, q);
    AlwaysLegal(h, HostOp.UnBind(e, q));
    StepKeepsHost(h, HostOp.UnBind(e, q));
    RestartGivesBack(h);
    RestartGivesBack(h');
    BindingOut(h, h', (e, q));
  }

  lemma {:induction false} BindingOut(h: HostState, h': HostState, p: Pair)
    requires h'.exchanges == h.exchanges && h'.queues == h.queues && h'.stores == h.stores
    requires h'.bindings == h.bindings - {p}
    ensures StoresBack(h') == StoresBack(h) && BindingsBack(h') == BindingsBack(h) - {p}
  {
    hide QState.Kept;
  }
}
