/** The three tables the metadata managers keep in one database file. A dropped table is None. An
    insert can fail for reasons outside the model (dbOk is false), and then has no effect. */
module Database {
  import opened Basics
  import opened HostModel

  class Database {
    var exchangeTable: Option<map<Bytes, ExchangeRow>>
    var queueTable: Option<map<Bytes, QueueRow>>
    var bindingTable: Option<seq<Binding>>

    constructor ()
      ensures exchangeTable == None && queueTable == None && bindingTable == None
    {
      exchangeTable, queueTable, bindingTable := None, None, None;
    }

    // "create table if not exists"

    method CreateExchangeTable()
      modifies `exchangeTable
      ensures exchangeTable == Some(Rows(old(exchangeTable)))
    {
      if exchangeTable.None? {
        exchangeTable := Some(map[]);
      }
    }

    method CreateQueueTable()
      modifies `queueTable
      ensures queueTable == Some(Rows(old(queueTable)))
    {
      if queueTable.None? {
        queueTable := Some(map[]);
      }
    }

    method CreateBindingTable()
      modifies `bindingTable
      ensures bindingTable == Some(BindingRows(old(bindingTable)))
    {
      if bindingTable.None? {
        bindingTable := Some([]);
      }
    }

    // "insert": the name is the primary key of the first two tables, the third has none

    method InsertExchange(row: ExchangeRow, dbOk: bool) returns (ok: bool)
      modifies `exchangeTable
      ensures ok <==> CanInsert(old(exchangeTable), row.name, dbOk)
      ensures exchangeTable == if ok then InsertRow(old(exchangeTable), row.name, row) else old(exchangeTable)
    {
      ok := dbOk && exchangeTable.Some? && row.name !in exchangeTable.value;
      if ok {
        exchangeTable := Some(exchangeTable.value[row.name := row]);
      }
    }

    method InsertQueue(row: QueueRow, dbOk: bool) returns (ok: bool)
      modifies `queueTable
      ensures ok <==> CanInsert(old(queueTable), row.name, dbOk)
      ensures queueTable == if ok then InsertRow(old(queueTable), row.name, row) else old(queueTable)
    {
      ok := dbOk && queueTable.Some? && row.name !in queueTable.value;
      if ok {
        queueTable := Some(queueTable.value[row.name := row]);
      }
    }

    method InsertBinding(b: Binding, dbOk: bool) returns (ok: bool)
      modifies `bindingTable
      ensures ok <==> dbOk && old(bindingTable).Some?
      ensures bindingTable == if ok then Some(old(bindingTable).value + [b]) else old(bindingTable)
    {
      ok := dbOk && bindingTable.Some?;
      if ok {
        bindingTable := Some(bindingTable.value + [b]);
      }
    }

    // "delete ... where"

    method RemoveExchange(name: Bytes)
      modifies `exchangeTable
      ensures exchangeTable == DeleteRow(old(exchangeTable), name)
    {
      exchangeTable := DeleteRow(exchangeTable, name);
    }

    method RemoveQueue(name: Bytes)
      modifies `queueTable
      ensures queueTable == DeleteRow(old(queueTable), name)
    {
      queueTable := DeleteRow(queueTable, name);
    }

    method RemoveBindings(keep: Binding -> bool)
      modifies `bindingTable
      ensures bindingTable == DeleteBindings(old(bindingTable), keep)
    {
      bindingTable := DeleteBindings(bindingTable, keep);
    }

    // "drop table if exists"

    method DropExchangeTable()
      modifies `exchangeTable
      ensures exchangeTable == None
    {
      exchangeTable := None;
    }

    method DropQueueTable()
      modifies `queueTable
      ensures queueTable == None
    {
      queueTable := None;
    }

    method DropBindingTable()
      modifies `bindingTable
      ensures bindingTable == None
    {
      bindingTable := None;
    }
  }
}
