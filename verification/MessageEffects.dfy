/** What publishing, taking and acknowledging a message does at the virtual host, and what it leaves alone, in memory
    and at the next restart; and what clear leaves of a host. */
module MessageEffects {
  import opened Basics
  import opened PayloadCodec
  import opened RecordLog
  import opened QueueModel
  import opened HostModel
  import opened HostSafety
  import opened HostEffects

  /** Only the store of one queue differs. */
  ghost predicate OnlyStore(h: HostState, h': HostState, q: Bytes) {
    && h' == h.(stores := h'.stores) && h'.stores.Keys == h.stores.Keys
    && forall n | n in h.stores && n != q :: h'.stores[n] == h.stores[n]
  }

  /** The message is the one published: the publisher's id, routing key and mode when there are properties, the
      server's id otherwise, the body, and the mode a transient queue overrules. */
  predicate IsPublished(m: Payload, bp: Option<Properties>, body: Bytes, serverId: Bytes, durable: bool) {
    m == match bp
      case Some(b) =>
        var mode := if durable then b.deliveryMode else 1;
        Payload(Some(Properties(b.id, mode, b.routingKey)), body, if mode == 2 then [49] else [])
      case None =>
        Payload(Some(Properties(serverId, if durable then 2 else 1, [])), body, if durable then [49] else [])
  }

  // ---- publish ----

  /** A publish needs queue and handle. Then the message goes to the end of the list of that queue, and as a record
      to the end of its file exactly when the queue is durable and the publisher asked for mode 2 or gave no
      properties. */
  lemma {:induction false} PublishEffect(h: HostState, q: Bytes, bp: Option<Properties>, body: Bytes, serverId: Bytes)
    ensures var h' := HostStep(h, HostOp.Publish(q, bp, body, serverId));
            if q !in h.queues || q !in h.stores then h' == h
            else
              var s, s' := h.stores[q], h'.stores[q];
              && OnlyStore(h, h', q)
              && |s'.getable| == |s.getable| + 1 && s'.getable[..|s.getable|] == s.getable && s'.waiting == s.waiting
              && IsPublished(s'.getable[|s.getable|], bp, body, serverId, h.queues[q].durable)
              && s'.log == s.log + if h.queues[q].durable && (bp.None? || bp.value.deliveryMode == 2)
                   then [s'.getable[|s.getable|]] else []
  {
  }

  /** And a restart brings the message back, behind those kept before, exactly in that case. */
  lemma {:induction false} PublishLasts(h: HostState, q: Bytes, bp: Option<Properties>, body: Bytes, serverId: Bytes)
    requires HostInvariant(h) && q in h.queues && LegalOp(h, HostOp.Publish(q, bp, body, serverId))
    ensures var r := HostStep(h, HostOp.Restart);
            var r' := HostStep(HostStep(h, HostOp.Publish(q, bp, body, serverId)), HostOp.Restart);
            && r'.exchanges == r.exchanges && r'.queues == r.queues && r'.bindings == r.bindings
            && if h.queues[q].durable && (bp.None? || bp.value.deliveryMode == 2) then
                 && q in r.stores && OnlyStoreOf(r.stores, r'.stores, q)
                 && var s, s' := r.stores[q], r'.stores[q];
                 && |s'.getable| == |s.getable| + 1 && s'.getable[..|s.getable|] == s.getable && s'.waiting == map[]
                 && IsPublished(s'.getable[|s.getable|], bp, body, serverId, true)
               else r'.stores == r.stores
  {
    hide *;
    var op := HostOp.Publish(q, bp, body, serverId);
    var h' := HostStep(h, op);
    StepKeepsHost(h, op);
    RestartGivesBack(h);
    RestartGivesBack(h');
    StoresOfQueues(h);
    PublishEffect(h, q, bp, body, serverId);
    PublishedKept(h, q, bp, body, serverId);
    OneStoreBack(h, h', q);
  }

  /** What the file keeps grows by a durable message. */
  lemma {:induction false} PublishedKept(h: HostState, q: Bytes, bp: Option<Properties>, body: Bytes, serverId: Bytes)
    requires q in h.queues && q in h.stores
    ensures var s, s' := h.stores[q], HostStep(h, HostOp.Publish(q, bp, body, serverId)).stores[q];
            s'.Kept() == s.Kept() + if h.queues[q].durable && (bp.None? || bp.value.deliveryMode == 2)
              then [s'.getable[|s.getable|]] else []
  {
    var s, s' := h.stores[q], HostStep(h, HostOp.Publish(q, bp, body, serverId)).stores[q];
    PublishEffect(h, q, bp, body, serverId);
    var m := s'.getable[|s.getable|];
    LiveAppend(s.log, [m]);
    LiveOne(m);
    hide Live, HostStep;
    ConcatNothing(s.log);
    ConcatNothing(s.Kept());
  }

  ghost predicate OnlyStoreOf(stores: map<Bytes, QState>, stores': map<Bytes, QState>, q: Bytes) {
    && stores'.Keys == stores.Keys && forall n | n in stores && n != q :: stores'[n] == stores[n]
  }

  lemma {:induction false} OneStoreBack(h: HostState, h': HostState, q: Bytes)
    requires OnlyStore(h, h', q)
    ensures BindingsBack(h') == BindingsBack(h) && ExchangesBack(h'.exchanges) == ExchangesBack(h.exchanges)
    ensures QueuesBack(h'.queues) == QueuesBack(h.queues)
    ensures OnlyStoreOf(StoresBack(h), StoresBack(h'), q)
    ensures q in h.stores && h'.stores[q].Kept() == h.stores[q].Kept() ==> StoresBack(h') == StoresBack(h)
    ensures q in StoresBack(h) <==> q in h.queues && h.queues[q].durable && q in h.stores
    ensures q in StoresBack(h) ==>
      && StoresBack(h)[q] == QState(h.stores[q].Kept(), map[], h.stores[q].Kept())
      && StoresBack(h')[q] == QState(h'.stores[q].Kept(), map[], h'.stores[q].Kept())
  {
    hide QState.Kept;
  }

  // ---- consume ----

  /** Taking needs a handle with a message in its list. Then the oldest moves, under its own id, to those waiting for
      an ack, and its record stays. */
  lemma {:induction false} ConsumeEffect(h: HostState, q: Bytes)
    requires HostInvariant(h)
    ensures var h' := HostStep(h, HostOp.Consume(q));
            if q !in h.stores || h.stores[q].getable == [] then h' == h
            else OnlyStore(h, h', q) && IsTaken(h.stores[q], h'.stores[q])
  {
    hide HostInvariant, QueueModel.Step, IsTaken, WellFormed;
    StoresOfQueues(h);
    if q in h.stores {
      FrontEffect(h.stores[q]);
      assert h.stores[q := h.stores[q]] == h.stores;
    }
  }

  /** The oldest message of the list, under its own id, is among the waiting; the file is as it was. */
  predicate IsTaken(s: QState, s': QState)
    requires s.getable != []
  {
    var m := s.getable[0];
    var id := match m.properties case Some(p) => p.id case None => [];
    s.getable == [m] + s'.getable && id !in s.waiting && s'.waiting == s.waiting[id := m] && s'.log == s.log
  }

  lemma {:induction false} FrontEffect(q: QState)
    requires WellFormed(q)
    ensures q.getable == [] ==> QueueModel.Step(q, Front) == q
    ensures q.getable != [] ==> IsTaken(q, QueueModel.Step(q, Front))
  {
    hide Healthy, KeptMatches, DistinctIds;
    assert q.getable != [] ==> q.getable[0] in q.getable;
  }

  /** A message taken and not acked is back after a restart, in its old place. */
  lemma {:induction false} ConsumeLasts(h: HostState, q: Bytes)
    requires HostInvariant(h)
    ensures var r := HostStep(h, HostOp.Restart);
            var r' := HostStep(HostStep(h, HostOp.Consume(q)), HostOp.Restart);
            && r'.exchanges == r.exchanges && r'.queues == r.queues && r'.bindings == r.bindings
            && r'.stores == r.stores
  {
    hide *;
    var h' := HostStep(h, HostOp.Consume(q));
    AlwaysLegal(h, HostOp.Consume(q));
    StepKeepsHost(h, HostOp.Consume(q));
    RestartGivesBack(h);
    RestartGivesBack(h');
    ConsumeEffect(h, q);
    if q in h.stores && h.stores[q].getable != [] {
      OneStoreBack(h, h', q);
      TakenKept(h, h', q);
    }
  }

  lemma {:induction false} TakenKept(h: HostState, h': HostState, q: Bytes)
    requires OnlyStore(h, h', q) && q in h.stores && h.stores[q].getable != [] && IsTaken(h.stores[q], h'.stores[q])
    ensures h'.stores[q].Kept() == h.stores[q].Kept()
  {
    hide Live;
  }

  // ---- ack ----

  /** An ack needs a handle and a message waiting under the id. Then that message waits no more and is not kept any
      more, and every other message is where it was. */
  lemma {:induction false} AckEffect(h: HostState, q: Bytes, id: Bytes)
    requires HostInvariant(h)
    ensures var h' := HostStep(h, HostOp.Ack(q, id));
            if q !in h.stores || id !in h.stores[q].waiting then h' == h
            else OnlyStore(h, h', q) && IsAcked(h.stores[q], h'.stores[q], id)
  {
    hide HostInvariant, QueueModel.Step, IsAcked, WellFormed;
    StoresOfQueues(h);
    if q in h.stores {
      AckedEffect(h.stores[q], id);
      assert h.stores[q := h.stores[q]] == h.stores;
    }
  }

  ghost predicate IsAcked(s: QState, s': QState, id: Bytes)
    requires id in s.waiting
  {
    && s'.waiting == s.waiting - {id} && s'.getable == s.getable
    && (forall x :: x in s'.Kept() <==> x in s.Kept() && x != s.waiting[id])
    && s'.Kept() == Without(s.Kept(), id)
  }

  lemma {:induction false} AckedEffect(q: QState, id: Bytes)
    requires WellFormed(q)
    ensures id !in q.waiting ==> QueueModel.Step(q, QueueModel.Ack(id)) == q
    ensures id in q.waiting ==> IsAcked(q, QueueModel.Step(q, QueueModel.Ack(id)), id)
  {
    hide Id, Live, Kill, AfterGcCheck, DistinctIds, IsDurable, Without;
    if id in q.waiting {
      WithoutMembers(q.Kept(), id);
      KeptApart(q, id);
      LiveOfKill(q.log, id);
      AfterGcCheckLive(Kill(q.log, id));
    }
  }

  /** The waiting message of an id is the one kept message of that id, if it is durable; otherwise there is none. */
  lemma {:induction false} KeptApart(q: QState, id: Bytes)
    requires WellFormed(q) && id in q.waiting
    ensures forall x | x in q.Kept() :: Id(x) == id <==> x == q.waiting[id]
    ensures !IsDurable(q.waiting[id]) ==> forall x | x in q.Kept() :: Id(x) != id
  {
    hide Id, Live, DistinctIds, IsDurable;
  }

  /** After a restart the acked message is not back; everything else is. */
  lemma {:induction false} AckLasts(h: HostState, q: Bytes, id: Bytes)
    requires HostInvariant(h) && q in h.stores && id in h.stores[q].waiting
    ensures var r := HostStep(h, HostOp.Restart);
            var r' := HostStep(HostStep(h, HostOp.Ack(q, id)), HostOp.Restart);
            && r'.exchanges == r.exchanges && r'.queues == r.queues && r'.bindings == r.bindings
            && OnlyStoreOf(r.stores, r'.stores, q)
            && (q in r.stores ==>
                  && r'.stores[q].waiting == map[] && r'.stores[q].getable == Without(r.stores[q].getable, id)
                  && forall x :: x in r'.stores[q].getable <==>
                    x in r.stores[q].getable && x != h.stores[q].waiting[id])
  {
    hide *;
    var h' := HostStep(h, HostOp.Ack(q, id));
    AlwaysLegal(h, HostOp.Ack(q, id));
    StepKeepsHost(h, HostOp.Ack(q, id));
    RestartGivesBack(h);
    RestartGivesBack(h');
    AckEffect(h, q, id);
    OneStoreBack(h, h', q);
    AckedKept(h, h', q, id);
  }

  lemma {:induction false} AckedKept(h: HostState, h': HostState, q: Bytes, id: Bytes)
    requires OnlyStore(h, h', q) && q in h.stores && id in h.stores[q].waiting
    requires IsAcked(h.stores[q], h'.stores[q], id)
    ensures h'.stores[q].Kept() == Without(h.stores[q].Kept(), id)
    ensures forall x :: x in h'.stores[q].Kept() <==> x in h.stores[q].Kept() && x != h.stores[q].waiting[id]
  {
    hide Live, Without;
  }

  // ---- clear ----

  /** A clear leaves no exchange, queue, binding or table, and every handle with nothing in it. */
  lemma {:induction false} ClearEffect(h: HostState)
    ensures var h' := HostStep(h, HostOp.Clear);
            && h'.exchanges == map[] && h'.queues == map[] && h'.bindings == map[]
            && h'.exchangeTable == None && h'.queueTable == None && h'.bindingTable == None
            && h'.stores == (map n | n in h.stores :: QState([], map[], [])) && h'.stale == h.stale
  {
  }

  /** And nothing comes back. */
  lemma {:induction false} ClearLasts(h: HostState)
    ensures var r := HostStep(HostStep(h, HostOp.Clear), HostOp.Restart);
            r.exchanges == map[] && r.queues == map[] && r.bindings == map[] && r.stores == map[]
  {
    ClearEffect(h);
  }
}
