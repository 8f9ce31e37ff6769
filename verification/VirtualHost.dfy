/** `VirtualHost`: the four managers behind one interface. Every method takes the step of the host model. */
module VirtualHost {
  import opened Basics
  import opened PayloadCodec
  import opened ArgsCodec
  import opened QueueModel
  import opened Files
  import opened MessageMapper
  import opened MessageManager
  import opened HostModel
  import opened HostSafety
  import opened Database
  import opened BindingManager
  import opened MetadataManagers

  class VirtualHost {
    const db: Database
    const fs: FileSystem
    const exchanges: ExchangeManager
    const queues: MsgQueueManager
    const bindings: BindingManager
    const messages: MessageManager

    ghost function View(): HostState
      reads db, exchanges, queues, bindings, messages
    {
      HostState(exchanges.exchanges, queues.queues, Flat(bindings.bindings),
                db.exchangeTable, db.queueTable, db.bindingTable, messages.view, messages.stale)
    }

    ghost predicate Valid()
      reads bindings, messages, messages.repr, messages.queues.Values, fs
    {
      && exchanges.db == queues.db == bindings.db == db && messages.fs == fs
      && {db, exchanges, queues, bindings, fs} !! messages.repr
      && bindings.Valid() && messages.Valid()
    }

    lemma {:induction false} ViewIs()
      ensures View() == HostState(exchanges.exchanges, queues.queues, Flat(bindings.bindings),
                                  db.exchangeTable, db.queueTable, db.bindingTable, messages.view, messages.stale)
    {
      hide Flat;
    }

    lemma {:induction false} ValidIs()
      ensures Valid() <==>
        && exchanges.db == queues.db == bindings.db == db && messages.fs == fs
        && {db, exchanges, queues, bindings, fs} !! messages.repr
        && bindings.Valid() && messages.Valid()
    {
      hide BindingManager.Valid, MessageManager.Valid;
    }

    // ---- restart ----

    /** A new process over the database and files an earlier host left. */
    constructor (db: Database, fs: FileSystem, basedir: Bytes, ghost past: HostState)
      requires db.exchangeTable == past.exchangeTable && db.queueTable == past.queueTable
        && db.bindingTable == past.bindingTable
      requires DiskHolds(fs.files, basedir, {}, AllLogs(past))
      modifies db, fs
      ensures Valid() && View() == StepRestart(past)
      ensures this.db == db && this.fs == fs && messages.basedir == basedir
      ensures fresh(exchanges) && fresh(queues) && fresh(bindings) && fresh(messages) && fresh(messages.repr)
    {
      hide *;
      this.db, this.fs := db, fs;
      exchanges := new ExchangeManager(db);
      queues := new MsgQueueManager(db);
      bindings := new BindingManager(db);
      messages := new MessageManager(fs, basedir, AllLogs(past));
      new;
      Recover(AllLogs(past));
      ViewIs();
      ValidIs();
      RestartIs(past, View());
    }

    /** Whatever a host did, a new process can start from the database and files it leaves. */
    lemma {:induction false} CanRestart()
      requires Valid()
      ensures db.exchangeTable == View().exchangeTable && db.queueTable == View().queueTable
        && db.bindingTable == View().bindingTable
      ensures DiskHolds(fs.files, messages.basedir, {}, AllLogs(View()))
    {
      hide *;
      ValidIs();
      ViewIs();
      messages.Reopens();
      AllLogsAre(View());
    }

    /** Opens and recovers the message store of every queue, in whatever order the map gives them. */
    method Recover(ghost logs: map<Bytes, seq<Payload>>)
      requires messages.Valid() && messages.view == map[] && messages.repr == {} && messages.stale == logs
        && messages.fs == fs
      modifies messages, fs
      ensures messages.Valid() && fresh(messages.repr)
      ensures messages.view == map n | n in queues.queues :: Recovered(PastLog(logs, n))
      ensures messages.stale == logs - queues.queues.Keys
    {
      hide *;
      var all := queues.AllQueues();
      var todo := all.Keys;
      while todo != {}
        invariant messages.Valid() && fresh(messages.repr) && todo <= all.Keys
        invariant messages.view.Keys == all.Keys - todo && messages.stale == logs - (all.Keys - todo)
        invariant forall n | n in messages.view :: messages.view[n] == Recovered(PastLog(logs, n))
      {
        var n :| n in todo;
        PastLogLess(logs, all.Keys - todo, n);
        messages.InitQueueMessage(n);
        todo := todo - {n};
        assert all.Keys - todo == all.Keys - (todo + {n}) + {n};
      }
    }

    // ---- exchanges ----

    method DeclareExchange(name: Bytes, kind: Int32, durable: bool, autoDelete: bool, args: Args, dbOk: bool)
      returns (ok: bool, ghost column: Bytes)
      requires Valid()
      modifies exchanges, db`exchangeTable
      ensures Valid()
      ensures var op := HostOp.DeclareExchange(Exchange(name, kind, durable, autoDelete, args), column, dbOk);
              && LegalOp(old(View()), op) && View() == HostStep(old(View()), op)
              && ok == StepDeclareExchange(old(View()), op.e, column, dbOk).1
    {
      hide Flat, ArgsOf, BindingManager.Valid, MessageManager.Valid;
      ok, column := exchanges.DeclareExchange(name, kind, durable, autoDelete, args, dbOk);
    }

    /** The bindings go before the exchange does. */
    method DeleteExchange(name: Bytes)
      requires Valid()
      modifies exchanges, bindings, db`exchangeTable, db`bindingTable
      ensures Valid() && View() == HostStep(old(View()), HostOp.DeleteExchange(name))
    {
      hide Flat, Keeping, NotExchange, DeleteBindings, BindingManager.Valid, MessageManager.Valid;
      bindings.RemoveExchangeBindings(name);
      exchanges.DeleteExchange(name);
      assert name !in exchanges.exchanges;
      assert name !in old(exchanges.exchanges) ==> exchanges.exchanges == old(exchanges.exchanges);
    }

    // ---- queues ----

    /** The message handle is opened first, even when the declare is then refused. */
    method DeclareQueue(name: Bytes, durable: bool, exclusive: bool, autoDelete: bool, args: Args, dbOk: bool)
      returns (ok: bool, ghost column: Bytes)
      requires Valid()
      modifies queues, messages, fs, db`queueTable
      ensures Valid() && fresh(messages.repr - old(messages.repr))
      ensures var op := HostOp.DeclareQueue(MsgQueue(name, durable, exclusive, autoDelete, args), column, dbOk);
              && LegalOp(old(View()), op) && View() == HostStep(old(View()), op)
              && ok == StepDeclareQueue(old(View()), op.q, column, dbOk).1
    {
      hide Flat, ArgsOf, Recovered, PastLog, BindingManager.Valid, MessageManager.Valid;
      messages.InitQueueMessage(name);
      ok, column := queues.DeclareQueue(name, durable, exclusive, autoDelete, args, dbOk);
    }

    /** The messages go first, then the bindings, then the queue. */
    method DeleteQueue(name: Bytes)
      requires Valid()
      modifies queues, bindings, messages, messages.repr, fs, db`queueTable, db`bindingTable
      ensures Valid() && messages.repr == old(messages.repr)
      ensures View() == HostStep(old(View()), HostOp.DeleteQueue(name))
    {
      hide Flat, Keeping, NotQueue, DeleteBindings, BindingManager.Valid, MessageManager.Valid;
      messages.DestroyQueueMessage(name);
      bindings.RemoveMsgQueueBindings(name);
      queues.DeleteQueue(name);
      assert name !in old(queues.queues) ==> queues.queues == old(queues.queues);
    }

    // ---- bindings ----

    /** Durable only when both ends are. */
    method Bind(ename: Bytes, qname: Bytes, key: Bytes, dbOk: bool) returns (ok: bool)
      requires Valid()
      modifies bindings, db`bindingTable
      ensures Valid() && View() == HostStep(old(View()), HostOp.Bind(ename, qname, key, dbOk))
      ensures ok == StepBind(old(View()), ename, qname, key, dbOk).1
      ensures ok && (ename, qname) !in old(View()).bindings ==>
        View().bindings == old(View()).bindings[(ename, qname) := key]
    {
      hide Flat, BindingManager.Valid, MessageManager.Valid;
      var e := exchanges.SelectExchange(ename);
      if e.None? {
        return false;
      }
      var q := queues.SelectQueue(qname);
      if q.None? {
        return false;
      }
      ok := bindings.Bind(ename, qname, key, e.value.durable && q.value.durable, dbOk);
    }

    method UnBind(ename: Bytes, qname: Bytes)
      requires Valid()
      modifies bindings, db`bindingTable
      ensures Valid() && View() == HostStep(old(View()), HostOp.UnBind(ename, qname))
      ensures View().bindings == old(View()).bindings - {(ename, qname)}
    {
      hide Flat, Keeping, NotPair, DeleteBindings, BindingManager.Valid, MessageManager.Valid;
      KeepingRest(Flat(bindings.bindings), ename, qname);
      bindings.UnBind(ename, qname);
    }

    // ---- messages ----

    /** Validity, but for the invariants of the stores of these queues, which are the ones to have lost theirs. */
    ghost predicate ValidBut(broken: set<Bytes>)
      reads bindings, messages, messages.repr, messages.queues.Values, fs
    {
      && exchanges.db == queues.db == bindings.db == db && messages.fs == fs
      && {db, exchanges, queues, bindings, fs} !! messages.repr
      && bindings.Valid() && messages.ValidBut(broken)
    }

    lemma {:induction false} ValidButNone(broken: set<Bytes>)
      ensures Valid() <==> ValidBut({})
      ensures ValidBut(broken) ==> (Valid() <==> broken == {})
    {
      hide BindingManager.Valid, MessageManager.Valid, MessageManager.ValidBut;
      messages.ValidButNone(broken);
    }

    /** The named queue takes the message; its store loses its invariant exactly when it could not. */
    method BasicPublish(qname: Bytes, bp: Option<Properties>, body: Bytes, serverId: Bytes, ghost broken: set<Bytes>)
      returns (ok: bool)
      requires ValidBut(broken) && qname !in broken
      modifies messages, messages.repr, fs
      ensures fresh(messages.repr - old(messages.repr)) && messages.queues == old(messages.queues)
      ensures ok <==> qname in old(View()).queues && qname in old(View()).stores
      ensures View() == HostStep(old(View()), HostOp.Publish(qname, bp, body, serverId))
      ensures var h := old(View());
              ValidBut(if ok && !Insertable(h.stores[qname], NewPayload(bp, serverId, body, h.queues[qname].durable))
                       then broken + {qname} else broken)
    {
      hide Flat, NewPayload, QueueModel.Step, BindingManager.Valid, MessageManager.ValidBut, Insertable;
      var q := queues.SelectQueue(qname);
      if q.None? {
        return false;
      }
      ok := messages.Insert(qname, bp, body, q.value.durable, serverId, broken);
    }

    method BasicConsume(qname: Bytes) returns (msg: Option<Message>)
      requires Valid()
      modifies messages, messages.repr
      ensures Valid() && messages.repr == old(messages.repr) && messages.queues == old(messages.queues)
      ensures View() == HostStep(old(View()), HostOp.Consume(qname))
      ensures PayloadOf(msg) == Oldest(old(View()).stores, qname)
    {
      hide Flat, QueueModel.Step, PayloadOf, Oldest, BindingManager.Valid, MessageManager.Valid;
      msg := messages.Front(qname);
    }

    method BasicAck(qname: Bytes, id: Bytes)
      requires Valid()
      modifies messages, messages.repr, fs
      ensures Valid() && messages.repr == old(messages.repr) && messages.queues == old(messages.queues)
      ensures View() == HostStep(old(View()), HostOp.Ack(qname, id))
      ensures forall n | n in old(View()).stores ::
        && n in View().stores && View().stores[n].getable == old(View()).stores[n].getable
        && View().stores[n].waiting
           == if n == qname then old(View()).stores[n].waiting - {id} else old(View()).stores[n].waiting
    {
      hide Flat, QueueModel.Step, BindingManager.Valid, MessageManager.Valid;
      if qname in View().stores {
        AckOnly(View().stores[qname], id);
      }
      messages.Ack(qname, id);
    }

    method Clear()
      requires Valid()
      modifies exchanges, queues, bindings, messages, messages.repr, fs, db
      ensures Valid() && View() == HostStep(old(View()), HostOp.Clear)
    {
      hide Flat, BindingManager.Valid, MessageManager.Valid;
      exchanges.Clear();
      queues.Clear();
      bindings.Clear();
      messages.Clear();
    }
  }

  lemma {:induction false} AckOnly(q: QState, id: Bytes)
    ensures QueueModel.Step(q, QueueModel.Ack(id)).waiting == q.waiting - {id}
    ensures QueueModel.Step(q, QueueModel.Ack(id)).getable == q.getable
  {
    hide AfterGcCheck, Kill, IsDurable;
    assert id !in q.waiting ==> q.waiting - {id} == q.waiting;
  }

  lemma {:induction false} AllLogsAre(h: HostState)
    ensures AllLogs(h) == h.stale + map n | n in h.stores :: h.stores[n].log
  {
  }

  lemma {:induction false} PastLogLess(logs: map<Bytes, seq<Payload>>, done: set<Bytes>, n: Bytes)
    ensures n !in done ==> PastLog(logs - done, n) == PastLog(logs, n)
    ensures logs - done - {n} == logs - (done + {n})
  {
  }

  lemma {:induction false} RestartIs(past: HostState, h: HostState)
    requires h.exchanges == FromExchangeRows(Rows(past.exchangeTable))
      && h.exchangeTable == Some(Rows(past.exchangeTable))
    requires h.queues == FromQueueRows(Rows(past.queueTable)) && h.queueTable == Some(Rows(past.queueTable))
    requires h.bindings == FromRows(BindingRows(past.bindingTable))
      && h.bindingTable == Some(BindingRows(past.bindingTable))
    requires h.stores == map n | n in h.queues :: Recovered(PastLog(AllLogs(past), n))
    requires h.stale == AllLogs(past) - h.queues.Keys
    ensures h == StepRestart(past)
  {
    hide FromExchangeRows, FromQueueRows, FromRows, Recovered, PastLog, AllLogs;
  }
}
