/** `Channel`: the publish fan-out and the consume task, over one host, the consumer lists and a pool of tasks. */
module Channel {
  import opened Basics
  import opened PayloadCodec
  import opened RecordLog
  import opened QueueModel
  import opened MessageManager
  import opened HostModel
  import opened HostSafety
  import opened Consumers
  import opened Router
  import opened VirtualHost

  /** The task queue behind `push`: a consume task is the name of its queue. A stopped pool refuses. */
  class TaskPool {
    var tasks: seq<Bytes>
    var stop: bool

    constructor ()
      ensures tasks == [] && !stop
    {
      tasks, stop := [], false;
    }

    method Push(task: Bytes) returns (ok: bool)
      modifies this
      ensures ok <==> !old(stop)
      ensures tasks == (if ok then old(tasks) + [task] else old(tasks)) && stop == old(stop)
    {
      if stop {
        return false;
      }
      tasks := tasks + [task];
      return true;
    }
  }

  // ---- what a publish does to a host ----

  function RoutingKey(bp: Option<Properties>): Bytes {
    if bp.Some? then bp.value.routingKey else []
  }

  /** The queues bound to the exchange whose binding routes the key. */
  ghost function Routed(h: HostState, ename: Bytes, key: Bytes): set<Bytes> {
    set p | p in h.bindings && p.0 == ename && ename in h.exchanges
      && Routes(h.exchanges[ename].kind, key, h.bindings[p]) :: p.1
  }

  function Copy(h: HostState, n: Bytes, bp: Option<Properties>, body: Bytes, ids: Bytes -> Bytes): Payload {
    NewPayload(bp, ids(n), body, DurableOf(h, n))
  }

  /** One copy in each of the given queues, nothing else. */
  ghost function Published(h: HostState, qs: set<Bytes>, bp: Option<Properties>, body: Bytes,
      ids: Bytes -> Bytes): HostState {
    h.(stores := map n | n in h.stores ::
      if n in qs then Step(h.stores[n], Op.Insert(Copy(h, n, bp, body, ids))) else h.stores[n])
  }

  /** The queues among these whose store cannot take its copy. */
  ghost function Refusing(h: HostState, qs: set<Bytes>, bp: Option<Properties>, body: Bytes,
      ids: Bytes -> Bytes): set<Bytes> {
    set n | n in qs && n in h.stores && !Insertable(h.stores[n], Copy(h, n, bp, body, ids))
  }

  lemma {:induction false} RefusingNext(h: HostState, qs: set<Bytes>, bp: Option<Properties>, body: Bytes,
      ids: Bytes -> Bytes, n: Bytes)
    requires n !in qs && n in h.stores
    ensures n !in Refusing(h, qs, bp, body, ids)
    ensures Refusing(h, qs + {n}, bp, body, ids)
         == if Insertable(h.stores[n], Copy(h, n, bp, body, ids)) then Refusing(h, qs, bp, body, ids)
            else Refusing(h, qs, bp, body, ids) + {n}
  {
    hide Insertable, Copy;
  }

  lemma {:induction false} RefusingNone(h: HostState, qs: set<Bytes>, bp: Option<Properties>, body: Bytes,
      ids: Bytes -> Bytes)
    requires qs <= h.stores.Keys
    ensures Refusing(h, {}, bp, body, ids) == {} && Refusing(h, Names([]), bp, body, ids) == {}
    ensures Refusing(h, qs, bp, body, ids) == {} <==>
      forall n | n in qs :: Insertable(h.stores[n], Copy(h, n, bp, body, ids))
  {
    hide Insertable, Copy;
    assert Names([]) == {};
    assert forall n | n in qs && !Insertable(h.stores[n], Copy(h, n, bp, body, ids)) ::
        n in Refusing(h, qs, bp, body, ids);
  }

  ghost predicate Lists(order: seq<Bytes>, qs: set<Bytes>) {
    && (forall n :: n in order <==> n in qs)
    && forall i, j | 0 <= i < j < |order| :: order[i] != order[j]
  }

  /** What a restart would bring back of a queue grows by its copy when the copy is durable. */
  lemma {:induction false} FanOutIsKept(h: HostState, qs: set<Bytes>, bp: Option<Properties>, body: Bytes,
      ids: Bytes -> Bytes, n: Bytes)
    requires n in qs && n in h.stores
    ensures var copy := Copy(h, n, bp, body, ids);
            Published(h, qs, bp, body, ids).stores[n].Kept()
            == h.stores[n].Kept() + if IsDurable(copy) then [copy] else []
  {
    var copy := Copy(h, n, bp, body, ids);
    LiveAppend(h.stores[n].log, [copy]);
    LiveOne(copy);
    hide Live;
  }

  /** Each routed queue exists and grows by its one copy, in the list and, when the copy is durable, in what a
      restart would bring back; every other queue and everything else stays. */
  lemma {:induction false} FanOutIsExact(h: HostState, ename: Bytes, bp: Option<Properties>, body: Bytes,
      ids: Bytes -> Bytes)
    requires HostInvariant(h)
    ensures var qs := Routed(h, ename, RoutingKey(bp));
            var h' := Published(h, qs, bp, body, ids);
            && h' == h.(stores := h'.stores) && h'.stores.Keys == h.stores.Keys
            && qs <= h.stores.Keys && qs <= h.queues.Keys
            && (forall n | n in qs :: GrowsByCopy(h.stores[n], h'.stores[n], Copy(h, n, bp, body, ids)))
            && (forall n | n in h.stores && n !in qs :: h'.stores[n] == h.stores[n])
  {
    hide WellFormed, TablesMatch, Routes, Copy, Live;
    var qs := Routed(h, ename, RoutingKey(bp));
    RoutedExist(h, ename, RoutingKey(bp));
    forall n | n in qs
      ensures GrowsByCopy(h.stores[n], Published(h, qs, bp, body, ids).stores[n], Copy(h, n, bp, body, ids))
    {
      FanOutIsKept(h, qs, bp, body, ids, n);
    }
  }

  ghost predicate GrowsByCopy(q: QState, q': QState, copy: Payload) {
    && q'.getable == q.getable + [copy] && q'.waiting == q.waiting
    && q'.Kept() == q.Kept() + if IsDurable(copy) then [copy] else []
  }

  function Names(order: seq<Bytes>): set<Bytes> {
    set n | n in order
  }

  lemma {:induction false} EmptyNames(h: HostState)
    ensures Names([]) <= h.stores.Keys
  {
  }

  lemma {:induction false} PublishedNone(h: HostState, bp: Option<Properties>, body: Bytes, ids: Bytes -> Bytes)
    ensures Published(h, {}, bp, body, ids) == h && Published(h, Names([]), bp, body, ids) == h
  {
    assert Names([]) == {};
  }

  lemma {:induction false} PublishedNext(h: HostState, qs: set<Bytes>, bp: Option<Properties>, body: Bytes,
      ids: Bytes -> Bytes, n: Bytes)
    requires n !in qs && n in h.stores && n in h.queues
    ensures var h1 := Published(h, qs, bp, body, ids);
            && h1.queues == h.queues && n in h1.stores && h1.stores[n] == h.stores[n]
            && HostStep(h1, HostOp.Publish(n, bp, body, ids(n))) == Published(h, qs + {n}, bp, body, ids)
  {
    hide Step, NewPayload;
  }

  lemma {:induction false} RoutedExist(h: HostState, ename: Bytes, key: Bytes)
    requires HostInvariant(h)
    ensures forall n | n in Routed(h, ename, key) :: n in h.queues && n in h.stores
  {
    hide WellFormed, TablesMatch, Routes;
  }

  class Channel {
    const host: VirtualHost
    const consumers: ConsumerManager
    const pool: TaskPool

    ghost predicate Valid()
      reads host.bindings, host.messages, host.messages.repr, host.messages.queues.Values, host.fs
      reads host.db, host.exchanges, host.queues
    {
      host.Valid() && HostInvariant(host.View()) && pool !in host.messages.repr
    }

    lemma {:induction false} ValidIs()
      ensures Valid() <==> host.Valid() && HostInvariant(host.View()) && pool !in host.messages.repr
    {
      hide HostInvariant, VirtualHost.Valid, VirtualHost.View;
    }

    /** Validity, but for the invariants of the stores of these queues, which are the ones to have lost theirs. */
    ghost predicate ValidBut(broken: set<Bytes>)
      reads host.bindings, host.messages, host.messages.repr, host.messages.queues.Values, host.fs
      reads host.db, host.exchanges, host.queues
    {
      host.ValidBut(broken) && (broken == {} ==> HostInvariant(host.View())) && pool !in host.messages.repr
    }

    lemma {:induction false} ValidButNone(broken: set<Bytes>)
      ensures Valid() <==> ValidBut({})
      ensures ValidBut(broken) ==> (Valid() <==> broken == {})
      ensures ValidBut(broken) <==>
        host.ValidBut(broken) && (broken == {} ==> HostInvariant(host.View())) && pool !in host.messages.repr
    {
      hide HostInvariant, VirtualHost.Valid, VirtualHost.ValidBut, VirtualHost.View;
      host.ValidButNone(broken);
    }

    constructor (host: VirtualHost, consumers: ConsumerManager, pool: TaskPool)
      ensures this.host == host && this.consumers == consumers && this.pool == pool
    {
      this.host, this.consumers, this.pool := host, consumers, pool;
    }

    /** The task behind a push. */
    method Consume(qname: Bytes) returns (sent: Option<Delivery>)
      requires Valid() && consumers.Valid() && {consumers} + consumers.queues.Values !! host.messages.repr
      modifies host.messages, host.messages.repr, host.fs, consumers.queues.Values
      ensures Valid() && consumers.Valid() && host.messages.repr == old(host.messages.repr)
      ensures (host.View(), consumers.View(), sent) == ConsumeStep(old(host.View()), old(consumers.View()), qname)
    {
      hide *;
      ghost var h, view := host.View(), consumers.View();
      ValidIs();
      ConsumeStepIs(h, view, qname);
      TakeLegal(h, qname, []);
      StepKeepsHost(h, HostOp.Consume(qname));
      var m := host.BasicConsume(qname);
      PayloadOfIs(m);
      if m.None? {
        ValidIs();
        return None;
      }
      ghost var h1, p := host.View(), m.value.payload;
      var c := consumers.Choose(qname);
      if c.None? {
        ValidIs();
        return None;
      }
      var id := Id(m.value.payload);
      sent := Some(Delivery(c.value, m.value.payload));
      if c.value.autoAck {
        TakeLegal(h1, qname, id);
        StepKeepsHost(h1, HostOp.Ack(qname, id));
        host.BasicAck(qname, id);
      }
      ValidIs();
    }

    /** Routes a message to the queues of an exchange; one copy and one consume task for each. The ids are
        the ones drawn for the copies of a message without properties. A stopped pool throws at the first
        push, after one queue has its copy. The channel stays valid exactly when each store reached could take its
        copy; a store that could not does not keep the others from theirs. */
    method BasicPublish(ename: Bytes, bp: Option<Properties>, body: Bytes, ids: Bytes -> Bytes)
      returns (ok: bool, thrown: bool, ghost order: seq<Bytes>)
      requires Valid()
      modifies pool, host.messages, host.messages.repr, host.fs
      ensures fresh(host.messages.repr - old(host.messages.repr))
      ensures ok <==> ename in old(host.View()).exchanges && !thrown
      ensures thrown <==> old(pool.stop) && Routed(old(host.View()), ename, RoutingKey(bp)) != {}
      ensures !thrown ==> Lists(order, Routed(old(host.View()), ename, RoutingKey(bp)))
      ensures thrown ==> |order| == 1 && order[0] in Routed(old(host.View()), ename, RoutingKey(bp))
      ensures host.View() == Published(old(host.View()), Names(order), bp, body, ids)
      ensures pool.tasks == old(pool.tasks) + if thrown then [] else order
      ensures var h := old(host.View());
              && Names(order) <= h.stores.Keys && ValidBut(Refusing(h, Names(order), bp, body, ids))
              && (Valid() <==> forall n | n in Names(order) :: Insertable(h.stores[n], Copy(h, n, bp, body, ids)))
    {
      hide *;
      ghost var h := host.View();
      ValidIs();
      host.ValidIs();
      host.ViewIs();
      var e := host.exchanges.SelectExchange(ename);
      if e.None? {
        RoutedNone(h, ename, RoutingKey(bp));
        PublishedNone(h, bp, body, ids);
        EmptyNames(h);
        RefusingNone(h, Names([]), bp, body, ids);
        ValidButNone({});
        return false, false, [];
      }
      RoutedExist(h, ename, RoutingKey(bp));
      var bound := host.bindings.GetExchangeBindings(ename);
      RoutedAre(h, ename, RoutingKey(bp), bound);
      thrown, order := FanOut(e.value.kind, RoutingKey(bp), bound, bp, body, ids);
      ok := !thrown;
    }

    /** The loop over the bindings, in any order. */
    method FanOut(kind: int, key: Bytes, bound: map<Bytes, Binding>, bp: Option<Properties>, body: Bytes,
        ids: Bytes -> Bytes)
      returns (thrown: bool, ghost order: seq<Bytes>)
      requires Valid()
      requires forall n | n in Routing(kind, key, bound) :: n in host.View().queues && n in host.View().stores
      modifies pool, host.messages, host.messages.repr, host.fs
      ensures fresh(host.messages.repr - old(host.messages.repr))
      ensures thrown <==> old(pool.stop) && Routing(kind, key, bound) != {}
      ensures !thrown ==> Lists(order, Routing(kind, key, bound))
      ensures thrown ==> |order| == 1 && order[0] in Routing(kind, key, bound)
      ensures host.View() == Published(old(host.View()), Names(order), bp, body, ids)
      ensures pool.tasks == old(pool.tasks) + if thrown then [] else order
      ensures var h := old(host.View());
              && Names(order) <= h.stores.Keys && ValidBut(Refusing(h, Names(order), bp, body, ids))
              && (Valid() <==> forall n | n in Names(order) :: Insertable(h.stores[n], Copy(h, n, bp, body, ids)))
    {
      hide *;
      thrown, order := false, [];
      var todo := bound.Keys;
      ghost var start := host.View();
      PublishedNone(start, bp, body, ids);
      EmptyNames(start);
      RefusingNone(start, Names([]), bp, body, ids);
      ValidButNone({});
      RoutingStart(kind, key, bound);
      while todo != {}
        invariant ValidBut(Refusing(start, Names(order), bp, body, ids)) && Names(order) <= start.stores.Keys
        invariant fresh(host.messages.repr - old(host.messages.repr)) && todo <= bound.Keys
        invariant pool.stop == old(pool.stop) && (pool.stop ==> order == [])
        invariant Lists(order, Routing(kind, key, bound) - todo)
        invariant host.View() == Published(start, Names(order), bp, body, ids)
        invariant pool.tasks == old(pool.tasks) + order
      {
        var n :| n in todo;
        var routed := Router.Route(kind, key, bound[n].key);
        RoutingIs(kind, key, bound, n);
        NamesOf(order, Routing(kind, key, bound) - todo, n);
        if routed {
          PublishedNext(start, Names(order), bp, body, ids, n);
          RefusingNext(start, Names(order), bp, body, ids, n);
          CopyIs(start, Published(start, Names(order), bp, body, ids), n, bp, body, ids);
          ghost var broken := Refusing(start, Names(order), bp, body, ids);
          var pushed := PublishOne(n, bp, body, ids(n), broken);
          order := order + [n];
          if !pushed {
            ValidButNone(Refusing(start, Names(order), bp, body, ids));
            RefusingNone(start, Names(order), bp, body, ids);
            return true, order;
          }
        }
        RoutingNext(kind, key, bound, todo, n);
        todo := todo - {n};
      }
      assert Routing(kind, key, bound) - todo == Routing(kind, key, bound);
      EmptyOrder(order, Routing(kind, key, bound));
      ValidButNone(Refusing(start, Names(order), bp, body, ids));
      RefusingNone(start, Names(order), bp, body, ids);
    }

    /** One turn of the loop: the queue is always found, and a consume task follows each message. Its store loses
        its invariant exactly when it cannot take the message. */
    method PublishOne(n: Bytes, bp: Option<Properties>, body: Bytes, id: Bytes, ghost broken: set<Bytes>)
      returns (pushed: bool)
      requires ValidBut(broken) && n !in broken && n in host.View().queues && n in host.View().stores
      modifies pool, host.messages, host.messages.repr, host.fs
      ensures fresh(host.messages.repr - old(host.messages.repr))
      ensures host.View() == HostStep(old(host.View()), HostOp.Publish(n, bp, body, id))
      ensures var h := old(host.View());
              var can := Insertable(h.stores[n], NewPayload(bp, id, body, DurableOf(h, n)));
              ValidBut(if can then broken else broken + {n})
      ensures (pushed <==> !old(pool.stop)) && pool.stop == old(pool.stop)
      ensures pool.tasks == old(pool.tasks) + if pushed then [n] else []
    {
      hide *;
      ghost var h, op := host.View(), HostOp.Publish(n, bp, body, id);
      ValidButNone(broken);
      PublishLegal(h, n, bp, body, id);
      var ok := host.BasicPublish(n, bp, body, id, broken);
      assert ok;
      if broken == {} && LegalOp(h, op) {
        StepKeepsHost(h, op);
      }
      pushed := pool.Push(n);
      ghost var can := Insertable(h.stores[n], NewPayload(bp, id, body, DurableOf(h, n)));
      ValidButNone(if can then broken else broken + {n});
    }
  }

  // ---- what a consume task does ----

  datatype Delivery = Delivery(to: Consumer, p: Payload)

  /** The host, the consumer lists and what is sent: a message is taken first, then whose turn it is; a
      message nobody is there for stays among the waiting; an automatic ack follows the delivery. */
  function ConsumeStep(h: HostState, view: map<Bytes, Ring>,
      qname: Bytes): (HostState, map<Bytes, Ring>, Option<Delivery>) {
    var front := Oldest(h.stores, qname);
    if front.None? then (h, view, None)
    else
      var h1 := HostStep(h, HostOp.Consume(qname));
      var (c, view') := ChosenAt(view, qname);
      if c.None? then (h1, view', None)
      else (if c.value.autoAck then HostStep(h1, HostOp.Ack(qname, Id(front.value))) else h1,
            view', Some(Delivery(c.value, front.value)))
  }

  /** A delivery acknowledged at once leaves the queue as if the message had never been there: the rest of
      the list, the messages waiting before, and the kept messages less this one. */
  lemma {:induction false} AutoAckForgets(q: QState)
    requires WellFormed(q) && q.getable != []
    ensures var q2 := Step(Step(q, Op.Front), Op.Ack(Id(q.getable[0])));
            && q2.getable == q.getable[1..] && q2.waiting == q.waiting
            && q2.Kept() == if IsDurable(q.getable[0]) then QueueModel.Without(q.Kept(), Id(q.getable[0])) else q.Kept()
  {
    LegalFree(q, Op.Front);
    StepRefines(q, Op.Front);
    StepKeeps(q, Op.Front);
    var q1, id := Step(q, Op.Front), Id(q.getable[0]);
    LegalFree(q1, Op.Ack(id));
    StepRefines(q1, Op.Ack(id));
    FrontNotWaiting(q);
    hide WellFormed, Step, QState.Kept, QueueModel.Without, Id, IsDurable;
    assert Abstract(q1).waiting == Abstract(q).waiting[id := q.getable[0]];
    assert q.waiting[id := q.getable[0]] - {id} == q.waiting;
  }

  lemma {:induction false} LegalFree(q: QState, op: Op)
    requires !op.Insert?
    ensures Legal(q, op)
  {
  }

  lemma {:induction false} FrontNotWaiting(q: QState)
    requires WellFormed(q) && q.getable != []
    ensures Id(q.getable[0]) !in q.waiting
  {
    hide Id, Healthy, KeptMatches;
    assert q.getable[0] in q.getable;
  }

  // ---- proof helpers ----

  ghost function Routing(kind: int, key: Bytes, bound: map<Bytes, Binding>): set<Bytes> {
    set n | n in bound && Routes(kind, key, bound[n].key)
  }

  lemma {:induction false} RoutingStart(kind: int, key: Bytes, bound: map<Bytes, Binding>)
    ensures Routing(kind, key, bound) - bound.Keys == {} && Lists([], {})
  {
  }

  lemma {:induction false} RoutingIs(kind: int, key: Bytes, bound: map<Bytes, Binding>, n: Bytes)
    ensures n in Routing(kind, key, bound) <==> n in bound && Routes(kind, key, bound[n].key)
  {
    hide Routes;
  }

  /** The queues reached so far, and one more. */
  lemma {:induction false} NamesOf(order: seq<Bytes>, qs: set<Bytes>, n: Bytes)
    requires Lists(order, qs)
    ensures Names(order) == qs && Names(order + [n]) == qs + {n}
    ensures n !in qs ==> Lists(order + [n], qs + {n})
    ensures order == [] ==> Names([n]) == {n}
  {
  }

  lemma {:induction false} RoutingNext(kind: int, key: Bytes, bound: map<Bytes, Binding>, todo: set<Bytes>, n: Bytes)
    requires n in todo
    ensures var all := Routing(kind, key, bound);
            all - (todo - {n}) == if n in all then all - todo + {n} else all - todo
  {
    hide Routing;
  }

  lemma {:induction false} EmptyOrder(order: seq<Bytes>, qs: set<Bytes>)
    requires Lists(order, qs)
    ensures order == [] <==> qs == {}
  {
    if order != [] {
      assert order[0] in order;
    }
    if n :| n in qs {
      assert n in order;
    }
  }

  lemma {:induction false} CopyIs(start: HostState, h: HostState, n: Bytes, bp: Option<Properties>, body: Bytes,
      ids: Bytes -> Bytes)
    requires h.queues == start.queues
    ensures Copy(start, n, bp, body, ids) == NewPayload(bp, ids(n), body, DurableOf(h, n))
  {
    hide NewPayload;
  }

  lemma {:induction false} PublishLegal(h: HostState, n: Bytes, bp: Option<Properties>, body: Bytes, id: Bytes)
    requires n in h.queues && n in h.stores
    ensures Insertable(h.stores[n], NewPayload(bp, id, body, DurableOf(h, n))) ==>
      LegalOp(h, HostOp.Publish(n, bp, body, id))
    ensures !HostOp.Publish(n, bp, body, id).Restart?
    ensures NewPayload(bp, id, body, DurableOf(h, n)) == NewPayload(bp, id, body, h.queues[n].durable)
  {
    hide NewPayload, Legal;
  }

  lemma {:induction false} RoutedNone(h: HostState, ename: Bytes, key: Bytes)
    requires ename !in h.exchanges
    ensures Routed(h, ename, key) == {} && Lists([], {})
  {
    hide Routes;
  }

  lemma {:induction false} RoutedAre(h: HostState, ename: Bytes, key: Bytes, bound: map<Bytes, Binding>)
    requires ename in h.exchanges
    requires forall q :: q in bound <==> (ename, q) in h.bindings
    requires forall q | q in bound :: bound[q] == Binding(ename, q, h.bindings[(ename, q)])
    ensures Routing(h.exchanges[ename].kind, key, bound) == Routed(h, ename, key)
  {
    hide Routes;
    var qs := Routed(h, ename, key);
    forall n ensures n in Routing(h.exchanges[ename].kind, key, bound) <==> n in qs {
      if n in qs {
        var p :| p in h.bindings && p.0 == ename && Routes(h.exchanges[ename].kind, key, h.bindings[p]) && p.1 == n;
        assert p == (ename, n);
      }
    }
  }

  lemma {:induction false} TakeLegal(h: HostState, qname: Bytes, id: Bytes)
    ensures LegalOp(h, HostOp.Consume(qname)) && LegalOp(h, HostOp.Ack(qname, id))
    ensures !HostOp.Consume(qname).Restart? && !HostOp.Ack(qname, id).Restart?
  {
  }

  lemma {:induction false} ConsumeStepIs(h: HostState, view: map<Bytes, Ring>, qname: Bytes)
    ensures var front := Oldest(h.stores, qname);
            var h1 := HostStep(h, HostOp.Consume(qname));
            var (c, view') := ChosenAt(view, qname);
            && (front.None? ==> ConsumeStep(h, view, qname) == (h, view, None) && h1 == h)
            && (front.Some? && c.None? ==> ConsumeStep(h, view, qname) == (h1, view', None))
            && (front.Some? && c.Some? ==>
                  var h2 := if c.value.autoAck then HostStep(h1, HostOp.Ack(qname, Id(front.value))) else h1;
                  ConsumeStep(h, view, qname) == (h2, view', Some(Delivery(c.value, front.value))))
  {
    hide Id, ChosenAt;
    assert qname in h.stores ==> h.stores[qname := h.stores[qname]] == h.stores;
  }
}
