/** What clients see of the broker: which queues a publish reaches for each type of exchange, how binding and unbinding
    change that, now and after a restart, what each of those queues receives, and what a consumer is sent. */
module ClientView {
  import opened Basics
  import opened PayloadCodec
  import opened StrHelper
  import opened QueueModel
  import opened HostModel
  import opened HostSafety
  import opened HostEffects
  import opened MessageEffects
  import opened Consumers
  import opened Router
  import opened Channel
  import PL = Pipeline

  // ---- which queues ----

  /** A publish to a direct exchange (type 1) reaches exactly the queues bound to it with the routing key, one to a
      fanout exchange (2) every queue bound to it, and one to any other exchange the queues whose binding words match
      the words of the key, as long as none of these is `#`. */
  lemma {:induction false} ReachedByKind(h: HostState, e: Bytes, key: Bytes, n: Bytes)
    ensures e !in h.exchanges ==> n !in Routed(h, e, key)
    ensures (e, n) !in h.bindings ==> n !in Routed(h, e, key)
    ensures e in h.exchanges && (e, n) in h.bindings ==>
      var kind, bk := h.exchanges[e].kind, h.bindings[(e, n)];
      && (kind == 1 ==> (n in Routed(h, e, key) <==> key == bk))
      && (kind == 2 ==> n in Routed(h, e, key))
      && (kind != 1 && kind != 2 && [35] !in Words(key, [46]) ==>
            (n in Routed(h, e, key) <==> Matches(Words(bk, [46]), Words(key, [46]))))
  {
    hide Routes, Words, Matches;
    RoutedIs(h, e, key, n);
    if e in h.exchanges && (e, n) in h.bindings {
      RoutesByKind(h.exchanges[e].kind, key, h.bindings[(e, n)]);
    }
  }

  lemma {:induction false} RoutedIs(h: HostState, e: Bytes, key: Bytes, n: Bytes)
    ensures n in Routed(h, e, key) <==>
      e in h.exchanges && (e, n) in h.bindings && Routes(h.exchanges[e].kind, key, h.bindings[(e, n)])
  {
    hide Routes;
    if e in h.exchanges && (e, n) in h.bindings && Routes(h.exchanges[e].kind, key, h.bindings[(e, n)]) {
      assert (e, n).1 in Routed(h, e, key);
    }
  }

  /** Once bound, a queue is reached by exactly the keys its own binding key lets through, and no other pair of
      exchange and queue is affected. */
  lemma {:induction false} BindReaches(h: HostState, e: Bytes, q: Bytes, key: Bytes, dbOk: bool,
      e': Bytes, k: Bytes, n: Bytes)
    requires e in h.exchanges && q in h.queues && (e, q) !in h.bindings && StepBind(h, e, q, key, dbOk).1
    ensures var h' := HostStep(h, HostOp.Bind(e, q, key, dbOk));
            && (q in Routed(h', e, k) <==> Routes(h.exchanges[e].kind, k, key))
            && ((e', n) != (e, q) ==> (n in Routed(h', e', k) <==> n in Routed(h, e', k)))
  {
    hide Routes, Routed, StepBind;
    BindEffect(h, e, q, key, dbOk);
    var h' := HostStep(h, HostOp.Bind(e, q, key, dbOk));
    RoutedIs(h', e, k, q);
    RoutedIs(h', e', k, n);
    RoutedIs(h, e', k, n);
  }

  /** After a restart too, if both ends are durable and the exchange is of a known type. */
  lemma {:induction false} BindReachesAfterRestart(h: HostState, e: Bytes, q: Bytes, key: Bytes, dbOk: bool, k: Bytes)
    requires HostInvariant(h) && e in h.exchanges && q in h.queues && (e, q) !in h.bindings
    requires StepBind(h, e, q, key, dbOk).1
    ensures var r := HostStep(HostStep(h, HostOp.Bind(e, q, key, dbOk)), HostOp.Restart);
            q in Routed(r, e, k) <==>
              && h.exchanges[e].durable && h.queues[q].durable && 0 <= h.exchanges[e].kind <= 3
              && Routes(h.exchanges[e].kind, k, key)
  {
    hide *;
    var r0 := HostStep(h, HostOp.Restart);
    var r := HostStep(HostStep(h, HostOp.Bind(e, q, key, dbOk)), HostOp.Restart);
    BindLasts(h, e, q, key, dbOk);
    RestartGivesBack(h);
    BackAt(h, e, q);
    RoutedIs(r, e, k, q);
  }

  lemma {:induction false} BackAt(h: HostState, e: Bytes, q: Bytes)
    requires e in h.exchanges && q in h.queues
    ensures e in ExchangesBack(h.exchanges) <==> h.exchanges[e].durable && 0 <= h.exchanges[e].kind <= 3
    ensures e in ExchangesBack(h.exchanges) ==> ExchangesBack(h.exchanges)[e].kind == h.exchanges[e].kind
    ensures (e, q) in BindingsBack(h) ==> (e, q) in h.bindings
  {
  }

  /** Once unbound, a queue is reached through that exchange by no key, after a restart either, and every other pair
      of exchange and queue as before. */
  lemma {:induction false} UnBindReaches(h: HostState, e: Bytes, q: Bytes, e': Bytes, k: Bytes, n: Bytes)
    requires HostInvariant(h)
    ensures var h' := HostStep(h, HostOp.UnBind(e, q));
            && q !in Routed(h', e, k) && q !in Routed(HostStep(h', HostOp.Restart), e, k)
            && ((e', n) != (e, q) ==> (n in Routed(h', e', k) <==> n in Routed(h, e', k)))
  {
    hide *;
    UnBindEffect(h, e, q);
    UnBindLasts(h, e, q);
    var h' := HostStep(h, HostOp.UnBind(e, q));
    RoutedIs(h', e, k, q);
    RoutedIs(HostStep(h', HostOp.Restart), e, k, q);
    RoutedIs(h', e', k, n);
    RoutedIs(h, e', k, n);
  }

  // ---- what they receive ----

  /** A publish goes by the routing key of its properties, or by the empty key. Each queue reached gets the message at
      the end of its list; every other queue and everything else stays. */
  lemma {:induction false} PublishReaches(h: HostState, e: Bytes, bp: Option<Properties>, body: Bytes,
      ids: Bytes -> Bytes, n: Bytes)
    requires HostInvariant(h)
    ensures var key := match bp case Some(b) => b.routingKey case None => [];
            var h' := Published(h, Routed(h, e, RoutingKey(bp)), bp, body, ids);
            && h' == h.(stores := h'.stores) && h'.stores.Keys == h.stores.Keys
            && (n in Routed(h, e, key) ==> n in h.queues && n in h.stores)
            && (n in h.stores && n !in Routed(h, e, key) ==> h'.stores[n] == h.stores[n])
            && (n in Routed(h, e, key) ==>
                  var s, s' := h.stores[n], h'.stores[n];
                  && |s'.getable| == |s.getable| + 1 && s'.getable[..|s.getable|] == s.getable
                  && s'.waiting == s.waiting
                  && IsPublished(s'.getable[|s.getable|], bp, body, ids(n), h.queues[n].durable))
  {
    hide Routed, HostInvariant;
    RoutedExist(h, e, RoutingKey(bp));
  }

  // ---- what a consumer is sent ----

  /** A consume task sends the oldest message of the queue to the consumer whose turn it is. Without a message nothing
      happens; without a consumer the message is left among those waiting for an ack, as it is when the consumer does
      not acknowledge automatically; otherwise it is gone, and kept no more. */
  lemma {:induction false} DeliveryEffect(h: HostState, view: map<Bytes, Ring>, q: Bytes)
    requires HostInvariant(h)
    ensures var (h', view', sent) := ConsumeStep(h, view, q);
            if q !in h.stores || h.stores[q].getable == [] then h' == h && view' == view && sent == None
            else
              var s, m := h.stores[q], h.stores[q].getable[0];
              && OnlyStore(h, h', q)
              && if q !in view || view[q].consumers == [] then
                   sent == None && view' == view && IsTaken(s, h'.stores[q])
                 else
                   var cs, next := view[q].consumers, view[q].next;
                   var c := cs[next % |cs|];
                   && sent == Some(Delivery(c, m))
                   && view' == view[q := Ring(cs, (next + 1) % 0x1_0000_0000_0000_0000)]
                   && if c.autoAck then IsGone(s, h'.stores[q]) else IsTaken(s, h'.stores[q])
  {
    hide HostInvariant, HostStep, IsTaken, IsGone, Id;
    ConsumeEffect(h, q);
    if q in h.stores && h.stores[q].getable != [] {
      var h1, id := HostStep(h, HostOp.Consume(q)), Id(h.stores[q].getable[0]);
      AlwaysLegal(h, HostOp.Consume(q));
      StepKeepsHost(h, HostOp.Consume(q));
      AckEffect(h1, q, id);
      TakenThenAcked(h, h1, HostStep(h1, HostOp.Ack(q, id)), q);
    }
  }

  /** The oldest message is gone from list and file, and nothing else is. */
  ghost predicate IsGone(s: QState, s': QState)
    requires s.getable != []
  {
    && s.getable == [s.getable[0]] + s'.getable && s'.waiting == s.waiting
    && forall x :: x in s'.Kept() <==> x in s.Kept() && x != s.getable[0]
  }

  lemma {:induction false} TakenThenAcked(h: HostState, h1: HostState, h2: HostState, q: Bytes)
    requires q in h.stores && h.stores[q].getable != []
    requires OnlyStore(h, h1, q) && IsTaken(h.stores[q], h1.stores[q])
    requires var id := Id(h.stores[q].getable[0]);
             if id !in h1.stores[q].waiting then h2 == h1
             else OnlyStore(h1, h2, q) && IsAcked(h1.stores[q], h2.stores[q], id)
    ensures OnlyStore(h, h2, q) && IsGone(h.stores[q], h2.stores[q])
  {
    hide QueueModel.Without;
    SameLog(h.stores[q], h1.stores[q]);
    hide QState.Kept;
    var s, id := h.stores[q], Id(h.stores[q].getable[0]);
    assert s.waiting[id := s.getable[0]] - {id} == s.waiting;
  }

  /** What a worker does from popping to the end of its task, with nothing in between, is what the consume task does
      to the queue: the path of one queue and the task agree. */
  lemma {:induction false} TaskIsConsume(s: PL.Pipe, w: nat, h: HostState, view: map<Bytes, Ring>, q: Bytes)
    requires w < |s.workers| && s.workers[w] == PL.Started && q in h.stores && h.stores[q] == s.q
    ensures var (h', view', sent) := ConsumeStep(h, view, q);
            var popped := PL.Apply(s, PL.Pop(w));
            && q in h'.stores
            && if s.q.getable == [] then Ended(popped, w, h'.stores[q])
               else
                 && popped.popped == s.popped + [s.q.getable[0]]
                 && if sent == None then
                      && PL.Enabled(popped, PL.NobodyThere(w))
                      && Ended(PL.Apply(popped, PL.NobodyThere(w)), w, h'.stores[q])
                    else
                      var autoAck := sent.value.to.autoAck;
                      && sent.value.p == s.q.getable[0] && PL.Enabled(popped, PL.Deliver(w, autoAck))
                      && var delivered := PL.Apply(popped, PL.Deliver(w, autoAck));
                      && delivered.delivered == s.delivered + [|s.popped|]
                      && if !autoAck then Ended(delivered, w, h'.stores[q])
                         else
                           && PL.Enabled(delivered, PL.AutoAck(w, []))
                           && Ended(PL.Apply(delivered, PL.AutoAck(w, [])), w, h'.stores[q])
  {
    hide ConsumeStep, QueueModel.Step, Ended, Id, PL.MayRelist;
    TaskOnStore(h, view, q);
    WorkerPops(s, w);
    if s.q.getable != [] {
      WorkerEnds(PL.Apply(s, PL.Pop(w)), w, |s.popped|);
    }
  }

  /** The consume task as steps of the one store it touches. */
  lemma {:induction false} TaskOnStore(h: HostState, view: map<Bytes, Ring>, q: Bytes)
    requires q in h.stores
    ensures var (h', _, sent) := ConsumeStep(h, view, q);
            var s := h.stores[q];
            && q in h'.stores
            && if s.getable == [] then sent == None && h'.stores[q] == s
               else
                 var taken := QueueModel.Step(s, Front);
                 && (sent == None || !sent.value.to.autoAck ==> h'.stores[q] == taken)
                 && (sent.Some? ==> sent.value.p == s.getable[0])
                 && (sent.Some? && sent.value.to.autoAck ==>
                       h'.stores[q] == QueueModel.Step(taken, QueueModel.Ack(Id(s.getable[0]))))
  {
    hide QueueModel.Step, ChosenAt, Id;
  }

  lemma {:induction false} WorkerPops(s: PL.Pipe, w: nat)
    requires w < |s.workers| && s.workers[w] == PL.Started
    ensures var r := PL.Apply(s, PL.Pop(w));
            if s.q.getable == [] then Ended(r, w, s.q)
            else
              && r.q == QueueModel.Step(s.q, Front) && r.popped == s.popped + [s.q.getable[0]]
              && |r.workers| == |s.workers| && r.workers[w] == PL.Holding(|s.popped|) && r.delivered == s.delivered
  {
    hide QueueModel.Step;
  }

  lemma {:induction false} WorkerEnds(s: PL.Pipe, w: nat, k: nat)
    requires w < |s.workers| && s.workers[w] == PL.Holding(k) && k < |s.popped|
    ensures Ended(PL.Apply(s, PL.NobodyThere(w)), w, s.q) && Ended(PL.Apply(s, PL.Deliver(w, false)), w, s.q)
    ensures forall autoAck :: PL.Apply(s, PL.Deliver(w, autoAck)).delivered == s.delivered + [k]
    ensures var r := PL.Apply(s, PL.Deliver(w, true));
            && PL.Enabled(r, PL.AutoAck(w, []))
            && Ended(PL.Apply(r, PL.AutoAck(w, [])), w, QueueModel.Step(s.q, QueueModel.Ack(Id(s.popped[k]))))
  {
    hide QueueModel.Step, Id;
    ConcatNothing(QueueModel.Step(s.q, QueueModel.Ack(Id(s.popped[k]))).getable);
  }

  /** The worker is through, and the queue is this. */
  predicate Ended(s: PL.Pipe, w: nat, q: QState) {
    w < |s.workers| && s.workers[w] == PL.Idle && s.q == q
  }

  lemma {:induction false} SameLog(s: QState, s': QState)
    ensures s'.log == s.log ==> s'.Kept() == s.Kept()
  {
  }
}
