/** `ExchangeManager` and `MsgQueueManager`: a map in memory and the table that holds its durable part. */
module MetadataManagers {
  import opened Basics
  import opened PayloadCodec
  import opened ArgsCodec
  import opened HostModel
  import opened Database

  class ExchangeManager {
    const db: Database
    var exchanges: map<Bytes, Exchange>

    /** Creates the table unless it is there and reads it back. */
    constructor (db: Database)
      modifies db`exchangeTable
      ensures this.db == db && exchanges == FromExchangeRows(Rows(old(db.exchangeTable)))
      ensures db.exchangeTable == Some(Rows(old(db.exchangeTable)))
    {
      this.db := db;
      exchanges := map[];
      new;
      db.CreateExchangeTable();
      Recovery(db.exchangeTable.value);
    }

    /** `recovery` with `selectCallback` for each row: a row with an unknown type is skipped. */
    method Recovery(rows: map<Bytes, ExchangeRow>)
      requires exchanges == map[]
      modifies this
      ensures exchanges == FromExchangeRows(rows)
    {
      hide ArgsOf;
      var todo := rows.Keys;
      while todo != {}
        invariant todo <= rows.Keys
        invariant exchanges == FromExchangeRows(rows - todo)
      {
        var n :| n in todo;
        var row := rows[n];
        todo := todo - {n};
        if 0 <= row.kind <= 3 {
          var args := SetArgs(row.column);
          exchanges := exchanges[n := Exchange(row.name, row.kind, row.durable, row.autoDelete, args)];
        }
      }
      assert rows - todo == rows;
    }

    /** True without an effect when the name is taken, whatever the arguments; false when the row is refused. */
    method DeclareExchange(name: Bytes, kind: Int32, durable: bool, autoDelete: bool, args: Args, dbOk: bool)
      returns (ok: bool, ghost column: Bytes)
      modifies this, db`exchangeTable
      ensures durable && name !in old(exchanges) ==> ArgsOf(column) == args - {[]}
      ensures var e := Exchange(name, kind, durable, autoDelete, args);
              if name in old(exchanges)
              then ok && exchanges == old(exchanges) && db.exchangeTable == old(db.exchangeTable)
              else
                && (ok <==> (durable ==> CanInsert(old(db.exchangeTable), name, dbOk)))
                && exchanges == (if ok then old(exchanges)[name := e] else old(exchanges))
                && db.exchangeTable == if ok && durable
                     then InsertRow(old(db.exchangeTable), name, ExchangeRowOf(e, column)) else old(db.exchangeTable)
    {
      hide ArgsOf, Render, Enumerates;
      column := [];
      if name in exchanges {
        return true, [];
      }
      var e := Exchange(name, kind, durable, autoDelete, args);
      if durable {
        var text := GetArgs(args);
        column := text;
        ok := db.InsertExchange(ExchangeRowOf(e, text), dbOk);
        if !ok {
          return;
        }
      }
      exchanges := exchanges[name := e];
      ok := true;
    }

    method DeleteExchange(name: Bytes)
      modifies this, db`exchangeTable
      ensures exchanges == old(exchanges) - {name}
      ensures db.exchangeTable == if name in old(exchanges) && old(exchanges)[name].durable
        then DeleteRow(old(db.exchangeTable), name) else old(db.exchangeTable)
    {
      if name in exchanges {
        if exchanges[name].durable {
          db.RemoveExchange(name);
        }
        exchanges := exchanges - {name};
      }
    }

    method SelectExchange(name: Bytes) returns (e: Option<Exchange>)
      ensures e == if name in exchanges then Some(exchanges[name]) else None
    {
      return if name in exchanges then Some(exchanges[name]) else None;
    }

    method Clear()
      modifies this, db`exchangeTable
      ensures exchanges == map[] && db.exchangeTable == None
    {
      db.DropExchangeTable();
      exchanges := map[];
    }
  }

  class MsgQueueManager {
    const db: Database
    var queues: map<Bytes, MsgQueue>

    constructor (db: Database)
      modifies db`queueTable
      ensures this.db == db && queues == FromQueueRows(Rows(old(db.queueTable)))
      ensures db.queueTable == Some(Rows(old(db.queueTable)))
    {
      this.db := db;
      queues := map[];
      new;
      db.CreateQueueTable();
      Recovery(db.queueTable.value);
    }

    method Recovery(rows: map<Bytes, QueueRow>)
      requires queues == map[]
      modifies this
      ensures queues == FromQueueRows(rows)
    {
      hide ArgsOf;
      var todo := rows.Keys;
      while todo != {}
        invariant todo <= rows.Keys
        invariant queues == FromQueueRows(rows - todo)
      {
        var n :| n in todo;
        var row := rows[n];
        todo := todo - {n};
        var args := SetArgs(row.column);
        queues := queues[n := MsgQueue(row.name, row.durable, row.exclusive, row.autoDelete, args)];
      }
      assert rows - todo == rows;
    }

    method DeclareQueue(name: Bytes, durable: bool, exclusive: bool, autoDelete: bool, args: Args, dbOk: bool)
      returns (ok: bool, ghost column: Bytes)
      modifies this, db`queueTable
      ensures durable && name !in old(queues) ==> ArgsOf(column) == args - {[]}
      ensures var q := MsgQueue(name, durable, exclusive, autoDelete, args);
              if name in old(queues) then ok && queues == old(queues) && db.queueTable == old(db.queueTable)
              else
                && (ok <==> (durable ==> CanInsert(old(db.queueTable), name, dbOk)))
                && queues == (if ok then old(queues)[name := q] else old(queues))
                && db.queueTable == if ok && durable
                     then InsertRow(old(db.queueTable), name, QueueRowOf(q, column)) else old(db.queueTable)
    {
      hide ArgsOf, Render, Enumerates;
      column := [];
      if name in queues {
        return true, [];
      }
      var q := MsgQueue(name, durable, exclusive, autoDelete, args);
      if durable {
        var text := GetArgs(args);
        column := text;
        ok := db.InsertQueue(QueueRowOf(q, text), dbOk);
        if !ok {
          return;
        }
      }
      queues := queues[name := q];
      ok := true;
    }

    method DeleteQueue(name: Bytes)
      modifies this, db`queueTable
      ensures queues == old(queues) - {name}
      ensures db.queueTable == if name in old(queues) && old(queues)[name].durable
        then DeleteRow(old(db.queueTable), name) else old(db.queueTable)
    {
      if name !in queues {
        return;
      }
      if queues[name].durable {
        db.RemoveQueue(name);
      }
      queues := queues - {name};
    }

    method SelectQueue(name: Bytes) returns (q: Option<MsgQueue>)
      ensures q == if name in queues then Some(queues[name]) else None
    {
      return if name in queues then Some(queues[name]) else None;
    }

    method AllQueues() returns (all: map<Bytes, MsgQueue>)
      ensures all == queues
    {
      return queues;
    }

    method Clear()
      modifies this, db`queueTable
      ensures queues == map[] && db.queueTable == None
    {
      db.DropQueueTable();
      queues := map[];
    }
  }
}
