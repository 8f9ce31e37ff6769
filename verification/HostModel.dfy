/** The virtual host as a state machine: metadata in memory, the rows that persist it, the message
    stores, and restart. Bindings are kept flat here; `BindingManager` shows the nested map refines this. */
module HostModel {
  import opened Basics
  import opened PayloadCodec
  import opened RecordLog
  import opened QueueModel
  import opened ArgsCodec

  datatype Exchange = Exchange(name: Bytes, kind: Int32, durable: bool, autoDelete: bool, args: Args)
  datatype MsgQueue = MsgQueue(name: Bytes, durable: bool, exclusive: bool, autoDelete: bool, args: Args)
  datatype Binding = Binding(exchange: Bytes, queue: Bytes, key: Bytes)

  // Table rows: the args column holds the encoded args.
  datatype ExchangeRow = ExchangeRow(name: Bytes, kind: Int32, durable: bool, autoDelete: bool, column: Bytes)
  datatype QueueRow = QueueRow(name: Bytes, durable: bool, exclusive: bool, autoDelete: bool, column: Bytes)

  type Pair = (Bytes, Bytes)

  /** A dropped table is None: inserting into it fails, deleting from it has no effect. */
  datatype HostState = HostState(
    exchanges: map<Bytes, Exchange>,
    queues: map<Bytes, MsgQueue>,
    bindings: map<Pair, Bytes>,
    exchangeTable: Option<map<Bytes, ExchangeRow>>,
    queueTable: Option<map<Bytes, QueueRow>>,
    bindingTable: Option<seq<Binding>>,
    stores: map<Bytes, QState>,
    stale: map<Bytes, seq<Payload>>)  // logs of data files that no message handle is open on

  // ---- tables ----

  function ExchangeRowOf(e: Exchange, column: Bytes): ExchangeRow {
    ExchangeRow(e.name, e.kind, e.durable, e.autoDelete, column)
  }

  function QueueRowOf(q: MsgQueue, column: Bytes): QueueRow {
    QueueRow(q.name, q.durable, q.exclusive, q.autoDelete, column)
  }

  /** Name is the primary key; dbOk is false when the insert fails for an outside reason. */
  predicate CanInsert<R>(table: Option<map<Bytes, R>>, name: Bytes, dbOk: bool) {
    dbOk && table.Some? && name !in table.value
  }

  function InsertRow<R>(table: Option<map<Bytes, R>>, name: Bytes, row: R): Option<map<Bytes, R>> {
    if table.Some? then Some(table.value[name := row]) else None
  }

  function DeleteRow<R>(table: Option<map<Bytes, R>>, name: Bytes): Option<map<Bytes, R>> {
    if table.Some? then Some(table.value - {name}) else None
  }

  function Matching(rows: seq<Binding>, keep: Binding -> bool): seq<Binding> {
    if rows == [] then [] else (if keep(rows[0]) then [rows[0]] else []) + Matching(rows[1..], keep)
  }

  function DeleteBindings(table: Option<seq<Binding>>, keep: Binding -> bool): Option<seq<Binding>> {
    if table.Some? then Some(Matching(table.value, keep)) else None
  }

  /** `BindingMapper::recovery`: the first row of a pair wins. */
  function FromRows(rows: seq<Binding>): map<Pair, Bytes> {
    if rows == [] then map[]
    else FromRows(rows[1..])[(rows[0].exchange, rows[0].queue) := rows[0].key]
  }

  /** `selectCallback` of the exchange table: a row with an unknown type is skipped. */
  function FromExchangeRows(rows: map<Bytes, ExchangeRow>): map<Bytes, Exchange> {
    map n | n in rows && 0 <= rows[n].kind <= 3 ::
      Exchange(rows[n].name, rows[n].kind, rows[n].durable, rows[n].autoDelete, ArgsOf(rows[n].column))
  }

  function FromQueueRows(rows: map<Bytes, QueueRow>): map<Bytes, MsgQueue> {
    map n | n in rows ::
      MsgQueue(rows[n].name, rows[n].durable, rows[n].exclusive, rows[n].autoDelete, ArgsOf(rows[n].column))
  }

  // ---- operations: the new state and what is answered ----

  datatype HostOp =
    | DeclareExchange(e: Exchange, column: Bytes, dbOk: bool)
    | DeleteExchange(ename: Bytes)
    | DeclareQueue(q: MsgQueue, column: Bytes, dbOk: bool)
    | DeleteQueue(qname: Bytes)
    | Bind(ename: Bytes, qname: Bytes, key: Bytes, dbOk: bool)
    | UnBind(ename: Bytes, qname: Bytes)
    | Publish(qname: Bytes, bp: Option<Properties>, body: Bytes, serverId: Bytes)
    | Consume(qname: Bytes)
    | Ack(qname: Bytes, id: Bytes)
    | Clear
    | Restart

  function PastLog(stale: map<Bytes, seq<Payload>>, name: Bytes): seq<Payload> {
    if name in stale then stale[name] else []
  }

  function Recovered(log: seq<Payload>): QState {
    QState(Live(log), map[], Live(log))
  }

  lemma {:induction false} RecoveredIs(log: seq<Payload>)
    ensures Recovered(log) == QState(Live(log), map[], Live(log))
  {
    hide Live;
  }

  /** `initQueueMessage`: opens and recovers a handle unless there is one. */
  function OpenStore(h: HostState, name: Bytes): HostState {
    if name in h.stores then h
    else h.(stores := h.stores[name := Recovered(PastLog(h.stale, name))], stale := h.stale - {name})
  }

  function NotExchange(name: Bytes): Binding -> bool {
    (b: Binding) => b.exchange != name
  }

  function NotQueue(name: Bytes): Binding -> bool {
    (b: Binding) => b.queue != name
  }

  function NotPair(ename: Bytes, qname: Bytes): Binding -> bool {
    (b: Binding) => !(b.exchange == ename && b.queue == qname)
  }

  /** The bindings a predicate keeps. */
  function Keeping(bindings: map<Pair, Bytes>, keep: Binding -> bool): map<Pair, Bytes> {
    map p | p in bindings && keep(Binding(p.0, p.1, bindings[p])) :: bindings[p]
  }

  function DropBindings(h: HostState, keep: Binding -> bool): HostState {
    h.(bindings := Keeping(h.bindings, keep), bindingTable := DeleteBindings(h.bindingTable, keep))
  }

  function StepDeclareExchange(h: HostState, e: Exchange, column: Bytes, dbOk: bool): (HostState, bool) {
    if e.name in h.exchanges then (h, true)
    else if !e.durable then (h.(exchanges := h.exchanges[e.name := e]), true)
    else if !CanInsert(h.exchangeTable, e.name, dbOk) then (h, false)
    else (h.(exchanges := h.exchanges[e.name := e],
             exchangeTable := InsertRow(h.exchangeTable, e.name, ExchangeRowOf(e, column))), true)
  }

  function StepDeleteExchange(h: HostState, name: Bytes): HostState {
    var h1 := DropBindings(h, NotExchange(name));
    if name !in h.exchanges then h1
    else h1.(exchanges := h.exchanges - {name},
             exchangeTable := if h.exchanges[name].durable then DeleteRow(h.exchangeTable, name) else h.exchangeTable)
  }

  /** The message handle is opened before the queue is known to be accepted. */
  function StepDeclareQueue(h: HostState, q: MsgQueue, column: Bytes, dbOk: bool): (HostState, bool) {
    var h1 := OpenStore(h, q.name);
    if q.name in h.queues then (h1, true)
    else if !q.durable then (h1.(queues := h.queues[q.name := q]), true)
    else if !CanInsert(h.queueTable, q.name, dbOk) then (h1, false)
    else (h1.(queues := h.queues[q.name := q],
              queueTable := InsertRow(h.queueTable, q.name, QueueRowOf(q, column))), true)
  }

  function StepDeleteQueue(h: HostState, name: Bytes): HostState {
    var h1 := DropBindings(h.(stores := h.stores - {name}), NotQueue(name));
    if name !in h.queues then h1
    else h1.(queues := h.queues - {name},
             queueTable := if h.queues[name].durable then DeleteRow(h.queueTable, name) else h.queueTable)
  }

  function StepBind(h: HostState, ename: Bytes, qname: Bytes, key: Bytes, dbOk: bool): (HostState, bool) {
    if ename !in h.exchanges || qname !in h.queues then (h, false)
    else if (ename, qname) in h.bindings then (h, true)
    else
      var h1 := h.(bindings := h.bindings[(ename, qname) := key]);
      if !(h.exchanges[ename].durable && h.queues[qname].durable) then (h1, true)
      else if !(dbOk && h.bindingTable.Some?) then (h, false)
      else (h1.(bindingTable := Some(h.bindingTable.value + [Binding(ename, qname, key)])), true)
  }

  function StepUnBind(h: HostState, ename: Bytes, qname: Bytes): HostState {
    if (ename, qname) !in h.bindings then h
    else DropBindings(h, NotPair(ename, qname))
  }

  function StepPublish(h: HostState, name: Bytes, p: Payload): (HostState, bool) {
    if name !in h.queues || name !in h.stores then (h, false)
    else (h.(stores := h.stores[name := QueueModel.Step(h.stores[name], Insert(p))]), true)
  }

  function StepStore(h: HostState, name: Bytes, op: QueueModel.Op): HostState {
    if name !in h.stores then h else h.(stores := h.stores[name := QueueModel.Step(h.stores[name], op)])
  }

  /** `clear`: drops every table and empties every handle, but keeps the handles. */
  function StepClear(h: HostState): HostState {
    HostState(map[], map[], map[], None, None, None, map n | n in h.stores :: EMPTY_QUEUE, h.stale)
  }

  function AllLogs(h: HostState): map<Bytes, seq<Payload>> {
    h.stale + map n | n in h.stores :: h.stores[n].log
  }

  function Rows<R>(table: Option<map<Bytes, R>>): map<Bytes, R> {
    if table.Some? then table.value else map[]
  }

  function BindingRows(table: Option<seq<Binding>>): seq<Binding> {
    if table.Some? then table.value else []
  }

  /** A new process over the same database and files; dropped tables are created again. */
  function StepRestart(h: HostState): HostState {
    var queues := FromQueueRows(Rows(h.queueTable));
    HostState(FromExchangeRows(Rows(h.exchangeTable)), queues, FromRows(BindingRows(h.bindingTable)),
              Some(Rows(h.exchangeTable)), Some(Rows(h.queueTable)), Some(BindingRows(h.bindingTable)),
              map n | n in queues :: Recovered(PastLog(AllLogs(h), n)),
              AllLogs(h) - queues.Keys)
  }

  function DurableOf(h: HostState, name: Bytes): bool {
    name in h.queues && h.queues[name].durable
  }

  function HostStep(h: HostState, op: HostOp): HostState {
    match op
    case DeclareExchange(e, column, dbOk) => StepDeclareExchange(h, e, column, dbOk).0
    case DeleteExchange(name) => StepDeleteExchange(h, name)
    case DeclareQueue(q, column, dbOk) => StepDeclareQueue(h, q, column, dbOk).0
    case DeleteQueue(name) => StepDeleteQueue(h, name)
    case Bind(e, q, key, dbOk) => StepBind(h, e, q, key, dbOk).0
    case UnBind(e, q) => StepUnBind(h, e, q)
    case Publish(q, bp, body, id) => StepPublish(h, q, NewPayload(bp, id, body, DurableOf(h, q))).0
    case Consume(q) => StepStore(h, q, Front)
    case Ack(q, id) => StepStore(h, q, QueueModel.Ack(id))
    case Clear => StepClear(h)
    case Restart => StepRestart(h)
  }

  // ---- the invariant ----

  ghost predicate NoDangling(h: HostState) {
    forall p | p in h.bindings :: p.0 in h.exchanges && p.1 in h.queues
  }

  predicate BothDurable(exchanges: map<Bytes, Exchange>, queues: map<Bytes, MsgQueue>, p: Pair) {
    p.0 in exchanges && exchanges[p.0].durable && p.1 in queues && queues[p.1].durable
  }

  /** The bindings with both ends durable. */
  function DurablePart(exchanges: map<Bytes, Exchange>, queues: map<Bytes, MsgQueue>,
      bindings: map<Pair, Bytes>): map<Pair, Bytes> {
    map p | p in bindings && BothDurable(exchanges, queues, p) :: bindings[p]
  }

  /** The row persists the entity: its columns, and args that decode to the entity's less the empty key. */
  ghost predicate ExchangePersisted(row: ExchangeRow, e: Exchange) {
    row == ExchangeRowOf(e, row.column) && ArgsOf(row.column) == e.args - {[]}
  }

  ghost predicate QueuePersisted(row: QueueRow, q: MsgQueue) {
    row == QueueRowOf(q, row.column) && ArgsOf(row.column) == q.args - {[]}
  }

  ghost predicate ExchangesPersisted(exchanges: map<Bytes, Exchange>, rows: map<Bytes, ExchangeRow>) {
    && (forall n | n in exchanges :: exchanges[n].name == n)
    && (forall n | n in rows :: n in exchanges && exchanges[n].durable && ExchangePersisted(rows[n], exchanges[n]))
    && (forall n | n in exchanges && exchanges[n].durable :: n in rows)
  }

  ghost predicate QueuesPersisted(queues: map<Bytes, MsgQueue>, rows: map<Bytes, QueueRow>) {
    && (forall n | n in queues :: queues[n].name == n)
    && (forall n | n in rows :: n in queues && queues[n].durable && QueuePersisted(rows[n], queues[n]))
    && (forall n | n in queues && queues[n].durable :: n in rows)
  }

  function PairOf(b: Binding): Pair {
    (b.exchange, b.queue)
  }

  ghost predicate DistinctPairs(rows: seq<Binding>) {
    forall i, j {:trigger PairOf(rows[i]), PairOf(rows[j])} | 0 <= i < j < |rows| :: PairOf(rows[i]) != PairOf(rows[j])
  }

  /** Tables hold exactly the durable part of memory; no row twice. */
  ghost predicate TablesMatch(h: HostState) {
    && ExchangesPersisted(h.exchanges, Rows(h.exchangeTable))
    && QueuesPersisted(h.queues, Rows(h.queueTable))
    && DistinctPairs(BindingRows(h.bindingTable))
    && FromRows(BindingRows(h.bindingTable)) == DurablePart(h.exchanges, h.queues, h.bindings)
  }

  /** Every queue has its message handle; every log is healthy, and only durable queues keep messages in it. */
  ghost predicate StoresMatch(h: HostState) {
    && (forall n | n in h.queues :: n in h.stores)
    && (forall n | n in h.stores :: n !in h.stale && WellFormed(h.stores[n]))
    && (forall n | n in h.stores && !DurableOf(h, n) :: h.stores[n].Kept() == [])
    && (forall n | n in h.stale :: Healthy(h.stale[n]) && Live(h.stale[n]) == [] && n !in h.queues)
  }

  ghost predicate HostInvariant(h: HostState) {
    NoDangling(h) && TablesMatch(h) && StoresMatch(h)
  }
}
