/** `QueueMessage`: the message store of one queue, its list and maps sharing message objects. */
module MessageStore {
  import opened Basics
  import opened PayloadCodec
  import opened RecordLog
  import opened QueueModel
  import opened StoreIndex
  import opened Files
  import opened MessageMapper

  ghost function PayloadMap(ms: map<Bytes, Message>): map<Bytes, Payload>
    reads ms.Values`payload
  {
    map id | id in ms :: ms[id].payload
  }

  ghost function Places(ms: map<Bytes, Message>): map<Bytes, Place>
    reads ms.Values`offset, ms.Values`length
  {
    map id | id in ms :: Place(ms[id].offset, ms[id].length)
  }

  lemma {:induction false} MapsPut(ms: map<Bytes, Message>, id: Bytes, m: Message)
    ensures PayloadMap(ms[id := m]) == PayloadMap(ms)[id := m.payload]
    ensures Places(ms[id := m]) == Places(ms)[id := Place(m.offset, m.length)]
  {
  }

  lemma {:induction false} MapsDrop(ms: map<Bytes, Message>, id: Bytes)
    ensures PayloadMap(ms - {id}) == PayloadMap(ms) - {id}
    ensures Places(ms - {id}) == Places(ms) - {id}
  {
  }

  lemma {:induction false} MapsAre(ms: map<Bytes, Message>)
    ensures PayloadMap(ms) == map id | id in ms :: ms[id].payload
    ensures Places(ms) == map id | id in ms :: Place(ms[id].offset, ms[id].length)
  {
  }

  /** A durable message in the list or among the waiting is the object the index holds for its id. */
  ghost predicate SharedIn(ms: seq<Message>, index: map<Bytes, Message>, waiting: map<Bytes, Message>)
    reads ms`payload, waiting.Values`payload
  {
    && (forall m | m in ms && IsDurable(m.payload) :: Id(m.payload) in index && index[Id(m.payload)] == m)
    && (forall id | id in waiting && IsDurable(waiting[id].payload) :: id in index && index[id] == waiting[id])
  }

  class QueueMessage {
    const mapper: MessageMapper
    var validCount: nat
    var totalCount: nat
    var msgs: seq<Message>
    var durable: map<Bytes, Message>
    var waitack: map<Bytes, Message>
    ghost var log: seq<Payload>  // the records of the data file
    ghost var repr: set<Message>  // the message objects the store may refer to

    ghost predicate Contained()
      reads this
    {
      (forall m | m in msgs :: m in repr) && durable.Values <= repr && waitack.Values <= repr
    }

    /** The store as the queue model sees it. */
    ghost function View(): QState
      reads `msgs, `waitack, `log, msgs`payload, waitack.Values`payload
    {
      QState(Payloads(msgs), PayloadMap(waitack), log)
    }

    /** File, log, index of durable messages and counters agree. */
    ghost predicate StoreAgrees()
      reads `durable, `log, `validCount, `totalCount, durable.Values, mapper.fs
    {
      && mapper.dataFile != mapper.tmpFile
      && Healthy(log)
      && mapper.fs.Content(mapper.dataFile) == Image(log)
      && (log != [] ==> mapper.dataFile in mapper.fs.files)
      && IndexMatches(log, PayloadMap(durable), Places(durable))
      && totalCount == |log|
      && validCount == |Live(log)|
    }

    ghost predicate Valid()
      reads this, repr, mapper.fs
    {
      Contained() && StoreAgrees() && SharedIn(msgs, durable, waitack) && WellFormed(View())
    }

    /** A new handle: nothing in memory yet, the file as an earlier life left it. */
    constructor (fs: FileSystem, basedir: Bytes, qname: Bytes)
      modifies fs
      ensures fresh(mapper) && mapper.fs == fs
      ensures mapper.dataFile == DataFile(basedir, qname) && mapper.tmpFile == TmpFile(basedir, qname)
      ensures mapper.dataFile != mapper.tmpFile
      ensures fs.files == if mapper.dataFile in old(fs.files)
        then old(fs.files) else old(fs.files)[mapper.dataFile := []]
      ensures msgs == [] && durable == map[] && waitack == map[]
    {
      validCount, totalCount := 0, 0;
      msgs, durable, waitack := [], map[], map[];
      log := [];
      mapper := new MessageMapper(fs, basedir, qname);
    }

    // ---- recovery ----

    /** `recovery`, over whatever the data file holds: list and index start from the payloads load could read, the
        first of an id entering the index, and unless a record is cut short the file is rewritten to them. The
        store is then in its invariant exactly when no record was cut short and what was read is what a store
        keeps: durable messages with an id each, at offsets of 32 bits. */
    method Recovery()
      requires durable == map[] && waitack == map[]
      requires mapper.dataFile != mapper.tmpFile && mapper.dataFile in mapper.fs.files
      modifies this, mapper.fs
      ensures var f := old(mapper.fs.Content(mapper.dataFile));
              var live := Scan(f).1;
              && View() == QState(live, map[], live) && FirstIndexed(msgs, durable, |msgs|)
              && (Valid() <==> Scan(f).0 && Healthy(live) && OffsetsFit(live))
              && mapper.fs.files == if Scan(f).0
                 then old(mapper.fs.files)[mapper.dataFile := Image(AsStored(live))] - {mapper.tmpFile}
                 else old(mapper.fs.files)
      ensures fresh(repr)
    {
      hide *;
      ghost var f := mapper.fs.Content(mapper.dataFile);
      mapper.fs.ContentIs(mapper.dataFile);
      var list := mapper.Gc();
      mapper.fs.ContentIs(mapper.dataFile);
      Adopt(list, f);
    }

    /** The rest of `recovery`: list, index and counters start from the messages just loaded. */
    method Adopt(list: seq<Message>, ghost f: Bytes)
      requires durable == map[] && waitack == map[]
      requires mapper.dataFile != mapper.tmpFile && mapper.dataFile in mapper.fs.files
      requires Payloads(list) == Scan(f).1
      requires var kept := AsStored(Payloads(list));
               && mapper.fs.Content(mapper.dataFile) == (if Scan(f).0 then Image(kept) else f)
               && (Scan(f).0 ==> Placed(list, kept))
      modifies this
      ensures var live := Scan(f).1;
              && View() == QState(live, map[], live) && FirstIndexed(msgs, durable, |msgs|)
              && (Valid() <==> Scan(f).0 && Healthy(live) && OffsetsFit(live))
      ensures repr == set m | m in list
    {
      hide *;
      msgs, totalCount, validCount, log := list, |list|, |list|, Payloads(list);
      repr := set m | m in list;
      Reindex(list);
      ViewIs();
      if !Scan(f).0 {
        CutShort(f);
      } else if Healthy(log) && OffsetsFit(log) {
        ScanIsLive(f);
        Recovered();
      } else {
        NoRoom();
      }
    }

    /** The loop of `recovery`: every message of the list enters the index, unless its id is there. */
    method Reindex(list: seq<Message>)
      requires durable == map[]
      modifies this`durable
      ensures FirstIndexed(list, durable, |list|)
    {
      hide *;
      IndexedNone(list);
      for k := 0 to |list|
        invariant FirstIndexed(list, durable, k)
      {
        var msg := list[k];
        var id := Id(msg.payload);
        IndexedNext(list, durable, k);
        if id !in durable {
          durable := durable[id := msg];
        }
      }
    }

    /** A file with a record cut short is no image of a log. */
    lemma {:induction false} CutShort(f: Bytes)
      requires mapper.fs.Content(mapper.dataFile) == f && !Scan(f).0
      ensures !Valid()
    {
      hide *;
      if Valid() {
        OnDisk();
        HealthyStorable(View().log);
        ScanImage(View().log);
      }
    }

    lemma {:induction false} Recovered()
      requires mapper.dataFile != mapper.tmpFile && mapper.dataFile in mapper.fs.files
      requires Payloads(msgs) == log && Placed(msgs, AsStored(log))
      requires mapper.fs.Content(mapper.dataFile) == Image(AsStored(log))
      requires Healthy(log) && OffsetsFit(log) && Live(log) == log
      requires waitack == map[] && FirstIndexed(msgs, durable, |msgs|)
      requires totalCount == validCount == |msgs| && repr == set m | m in msgs
      ensures Valid()
    {
      hide *;
      HealthyStorable(log);
      AsStoredSame(log);
      HealthyDistinct(log);
      FirstIndexedDistinct(msgs, durable);
      RecoveredIndex(msgs, durable, log);
      RecoveryWellFormed(log);
      ViewIs();
      StoreAgreesIf();
      RecoveredShared();
      ValidIf();
    }

    lemma {:induction false} RecoveredShared()
      requires waitack == map[] && IndexedUpTo(msgs, durable, |msgs|) && repr == set m | m in msgs
      ensures SharedIn(msgs, durable, waitack)
      ensures Contained()
    {
      hide Id, IsDurable;
      assert msgs[..|msgs|] == msgs;
    }

    lemma {:induction false} ContainedIs()
      ensures Contained() <==>
        (forall m | m in msgs :: m in repr) && durable.Values <= repr && waitack.Values <= repr
    {
    }

    lemma {:induction false} ValidIf()
      requires Contained() && StoreAgrees() && SharedIn(msgs, durable, waitack) && WellFormed(View())
      ensures Valid()
    {
      hide Contained, StoreAgrees, SharedIn, WellFormed, View;
    }

    lemma {:induction false} StoreAgreesParts()
      requires StoreAgrees()
      ensures mapper.dataFile != mapper.tmpFile && Healthy(log)
      ensures mapper.fs.Content(mapper.dataFile) == Image(log) && (log != [] ==> mapper.dataFile in mapper.fs.files)
      ensures IndexMatches(log, PayloadMap(durable), Places(durable))
      ensures Indexes(PayloadMap(durable), Live(log))
      ensures totalCount == |log| && validCount == |Live(log)|
    {
      hide Healthy, Image, PayloadMap, Places, Live, Indexes, PlacedAt;
    }

    lemma {:induction false} StoreAgreesIf()
      requires mapper.dataFile != mapper.tmpFile && Healthy(log)
      requires mapper.fs.Content(mapper.dataFile) == Image(log) && (log != [] ==> mapper.dataFile in mapper.fs.files)
      requires IndexMatches(log, PayloadMap(durable), Places(durable))
      requires totalCount == |log| && validCount == |Live(log)|
      ensures StoreAgrees()
    {
      hide Healthy, Image, IndexMatches, PayloadMap, Places, Live;
    }

    // ---- insert ----

    ghost function Elsewhere(files: map<Bytes, Bytes>): map<Bytes, Bytes> {
      files - {mapper.dataFile, mapper.tmpFile}
    }

    /** `insert`: what becomes of the publisher's properties is `NewPayload`. The invariant survives exactly
        when no live message has the new message's id and, for a durable one, protobuf can serialize it and
        its offset fits in 32 bits. */
    method Insert(bp: Option<Properties>, body: Bytes, queueDurable: bool, serverId: Bytes) returns (ok: bool)
      requires Valid()
      modifies this, mapper.fs
      ensures ok
      ensures var p := NewPayload(bp, serverId, body, queueDurable);
              && View() == Step(old(View()), Op.Insert(p)) && Contained()
              && (Valid() <==> old(Insertable(View(), p)))
              && View().getable == old(View()).getable + [p] && p.body == body
              && Id(p) == (if bp.Some? then bp.value.id else serverId)
              && View().log == old(View()).log
                 + (if queueDurable && (bp.None? || bp.value.deliveryMode == 2) then [p] else [])
      ensures Elsewhere(mapper.fs.files) == old(Elsewhere(mapper.fs.files))
      ensures fresh(repr - old(repr))
    {
      hide *;
      ghost var q, index, p := View(), durable, NewPayload(bp, serverId, body, queueDurable);
      ValidParts();
      ContainedIs();
      InsertStart(p);
      DurableAlive(bp, serverId, body, queueDurable);
      InsertableParts(q, p);
      NewPayloadCarries(bp, serverId, body, queueDurable);
      StepParts(q, [], p);
      ConcatNothing(q.log);
      var msg := NewMessage(bp, body, queueDurable, serverId);
      repr := repr + {msg};
      DurableIs(p);
      if msg.payload.properties.Some? && msg.payload.properties.value.deliveryMode == DURABLE {
        Persist(msg);
      }
      ContainedIs();
      Enlist(q, index, msg);
      return true;
    }

    /** The last step of `insert`: the message joins the list. */
    method Enlist(ghost q: QState, ghost index: map<Bytes, Message>, msg: Message)
      requires Payloads(msgs) == q.getable && PayloadMap(waitack) == q.waiting && WellFormed(q)
      requires Contained() && msg in repr && SharedIn(msgs, index, waitack)
      requires var p := msg.payload;
               && (IsDurable(p) ==> p.valid == ALIVE)
               && log == (if IsDurable(p) then q.log + [p] else q.log)
               && durable == (if IsDurable(p) && Id(p) !in index then index[Id(p) := msg] else index)
               && (Insertable(q, p) ==> StoreAgrees() && Id(p) !in index)
      modifies `msgs
      ensures View() == Step(q, Op.Insert(msg.payload)) && Contained()
      ensures Valid() <==> Insertable(q, msg.payload)
    {
      hide *;
      ContainedIs();
      SharedSnoc(msgs, index, waitack, msg);
      PayloadsSnoc(msgs, msg);
      msgs := msgs + [msg];
      ContainedIs();
      InsertEnd(q, msg.payload);
    }

    lemma {:induction false} ValidParts()
      requires Valid()
      ensures Contained() && StoreAgrees() && SharedIn(msgs, durable, waitack) && WellFormed(View())
      ensures View() == QState(Payloads(msgs), PayloadMap(waitack), log)
    {
      hide StoreAgrees, SharedIn, WellFormed, Payloads, PayloadMap;
    }

    lemma {:induction false} InsertStart(p: Payload)
      requires StoreAgrees() && WellFormed(View())
      ensures IdFree(View(), Id(p)) ==> Id(p) !in durable
    {
      StoreAgreesParts();
      hide Id, IsDurable, Live, PayloadMap, Places, WellFormed;
      if IdFree(View(), Id(p)) {
        FreeNotIndexed(View(), PayloadMap(durable), Id(p));
      }
    }

    /** Where the new message leaves the store, whether or not it could be taken. */
    lemma {:induction false} InsertEnd(q: QState, p: Payload)
      requires Payloads(msgs) == q.getable + [p] && PayloadMap(waitack) == q.waiting
      requires WellFormed(q) && log == if IsDurable(p) then q.log + [p] else q.log
      requires Contained() && (IsDurable(p) ==> p.valid == ALIVE)
      requires Insertable(q, p) ==> StoreAgrees() && SharedIn(msgs, durable, waitack)
      ensures View() == Step(q, Op.Insert(p))
      ensures Valid() <==> Insertable(q, p)
    {
      hide *;
      ViewIs();
      StepParts(q, [], p);
      InsertableParts(q, p);
      if Insertable(q, p) {
        StepKeeps(q, Op.Insert(p));
        ValidIf();
      } else if !IdFree(q, Id(p)) {
        TakenBreaks(q, p, log);
        NotValidIf();
      } else {
        UnstorableBreaks(q.log, p);
        NoRoom();
      }
    }

    lemma {:induction false} NotValidIf()
      requires !WellFormed(View())
      ensures !Valid()
    {
      hide WellFormed, View;
    }

    lemma {:induction false} NoRoom()
      requires !Healthy(log) || !OffsetsFit(log)
      ensures !Valid()
    {
      hide *;
      if Valid() {
        OnDisk();
        ViewIs();
      }
    }

    /** The durable half of `insert`: append a record, count it, index the message unless its id is taken. */
    method Persist(msg: Message)
      requires StoreAgrees() && msg !in durable.Values && msg in repr && durable.Values <= repr
      requires IsDurable(msg.payload) && msg.payload.valid == ALIVE
      modifies this`validCount, this`totalCount, this`durable, this`log, mapper.fs, msg`offset, msg`length
      ensures log == old(log) + [msg.payload]
      ensures durable == if Id(msg.payload) in old(durable) then old(durable) else old(durable)[Id(msg.payload) := msg]
      ensures durable.Values <= repr
      ensures Id(msg.payload) !in old(durable) && Storable(msg.payload) && |Image(old(log))| + 8 < TWO_32 ==>
        StoreAgrees()
      ensures Elsewhere(mapper.fs.files) == old(Elsewhere(mapper.fs.files))
    {
      hide *;
      ghost var p, was, index, places := msg.payload, log, PayloadMap(durable), Places(durable);
      var id := Id(msg.payload);
      StoreAgreesParts();
      MapsAre(durable);
      Append(msg);
      if id !in durable {
        MapsPut(durable, id, msg);
        durable := durable[id := msg];
        if Storable(p) && |Image(was)| + 8 < TWO_32 {
          Persisted(was, index, places, msg);
        }
      }
    }

    /** The record itself: file and counters. */
    method Append(msg: Message)
      requires msg !in durable.Values
      modifies this`validCount, this`totalCount, this`log, mapper.fs, msg`offset, msg`length
      ensures log == old(log) + [msg.payload] && validCount == old(validCount) + 1 && totalCount == old(totalCount) + 1
      ensures PayloadMap(durable) == old(PayloadMap(durable)) && Places(durable) == old(Places(durable))
      ensures mapper.dataFile in mapper.fs.files
      ensures var body := SerializedString(msg.payload);
              && mapper.fs.Content(mapper.dataFile)
                 == old(mapper.fs.Content(mapper.dataFile)) + (LittleEndian(|body|, 8) + body)
              && msg.offset == ToUInt32(|old(mapper.fs.Content(mapper.dataFile))| + 8) && msg.length == ToUInt32(|body|)
      ensures Elsewhere(mapper.fs.files) == old(Elsewhere(mapper.fs.files))
    {
      hide *;
      ghost var files := mapper.fs.files;
      mapper.Insert(msg);
      ElsewhereKept(files, mapper.fs.files[mapper.dataFile]);
      mapper.fs.ContentIs(mapper.dataFile);
      log, validCount, totalCount := log + [msg.payload], validCount + 1, totalCount + 1;
    }

    /** A record that fits, appended and indexed, keeps file and index in agreement. */
    lemma {:induction false} Persisted(was: seq<Payload>, index: map<Bytes, Payload>, places: map<Bytes, Place>,
        msg: Message)
      requires mapper.dataFile != mapper.tmpFile && mapper.dataFile in mapper.fs.files
      requires Healthy(was) && IndexMatches(was, index, places) && Indexes(index, Live(was))
        && Id(msg.payload) !in index
      requires IsDurable(msg.payload) && msg.payload.valid == ALIVE && Storable(msg.payload)
        && |Image(was)| + 8 < TWO_32
      requires var body := SerializedString(msg.payload);
               && mapper.fs.Content(mapper.dataFile) == Image(was) + (LittleEndian(|body|, 8) + body)
               && msg.offset == ToUInt32(|Image(was)| + 8) && msg.length == ToUInt32(|body|)
      requires log == was + [msg.payload] && PayloadMap(durable) == index[Id(msg.payload) := msg.payload]
      requires Places(durable) == places[Id(msg.payload) := Place(msg.offset, msg.length)]
      requires totalCount == |was| + 1 && validCount == |Live(was)| + 1
      ensures StoreAgrees()
    {
      hide *;
      var p := msg.payload;
      Narrow(|Image(was)| + 8);
      NarrowLength(p);
      SerializedWhole(p);
      FrameIs(p);
      IndexInsert(was, index, places, p);
      AppendHealthy(was, index, p);
      StoreAgreesIf();
    }

    lemma {:induction false} ElsewhereKept(files: map<Bytes, Bytes>, content: Bytes)
      ensures Elsewhere(files[mapper.dataFile := content]) == Elsewhere(files)
    {
    }

    // ---- front ----

    /** `front`: moves the oldest getable message among the waiting; None when there is none. */
    method Front() returns (msg: Option<Message>)
      requires Valid()
      modifies this`msgs, this`waitack
      ensures Valid() && View() == Step(old(View()), Op.Front)
      ensures msg.None? <==> old(View()).getable == []
      ensures msg.Some? ==> msg.value == old(msgs)[0] && msg.value.payload == old(View()).getable[0]
      ensures repr == old(repr)
    {
      hide *;
      ghost var q := View();
      ValidParts();
      ContainedIs();
      StepKeeps(q, Op.Front);
      StepFront(q);
      MapsAre(waitack);
      if |msgs| == 0 {
        return None;
      }
      var m := msgs[0];
      var id := Id(m.payload);
      SharedFront(msgs, durable, waitack);
      MapsPut(waitack, id, m);
      assert q.getable[1..] == Payloads(msgs[1..]);
      msgs := msgs[1..];
      if id !in waitack {
        waitack := waitack[id := m];
      }
      ContainedIs();
      ViewIs();
      ValidIf();
      return Some(m);
    }

    // ---- ack ----

    /** `remove`, the ack: forgets a waiting message and, when it is durable, invalidates its record in
        place and compacts the file when that is due. An unknown id changes nothing. */
    method Remove(id: Bytes) returns (ok: bool)
      requires Valid()
      modifies this, mapper.fs, durable.Values, waitack.Values`payload
      ensures ok
      ensures Valid() && View() == Step(old(View()), Op.Ack(id))
      ensures Elsewhere(mapper.fs.files) == old(Elsewhere(mapper.fs.files))
      ensures repr == old(repr)
    {
      hide *;
      ValidParts();
      ContainedIs();
      StepParts(View(), id, NO_PAYLOAD);
      MapsAre(waitack);
      if id in waitack {
        RemoveWaiting(id);
      }
      return true;
    }

    method RemoveWaiting(id: Bytes)
      requires Contained() && StoreAgrees() && SharedIn(msgs, durable, waitack) && WellFormed(View()) && id in waitack
      modifies this, mapper.fs, durable.Values, waitack.Values`payload
      ensures Valid() && View() == Step(old(View()), Op.Ack(id)) && repr == old(repr)
      ensures Elsewhere(mapper.fs.files) == old(Elsewhere(mapper.fs.files))
    {
      hide *;
      ghost var q := View();
      ViewIs();
      ContainedIs();
      StepKeeps(q, Op.Ack(id));
      MapsAre(waitack);
      AckStart(id);
      Forget(id, waitack[id]);
      waitack := waitack - {id};
      ContainedIs();
      AckEnd(q, id);
    }

    /** Takes a waiting message off the file and the index when it is durable. */
    method Forget(id: Bytes, msg: Message)
      requires StoreAgrees() && (IsDurable(msg.payload) ==> id in durable && durable[id] == msg)
      requires msg !in msgs && msg !in (waitack - {id}).Values
      requires SharedIn(msgs, durable, waitack - {id}) && SharedIn(msgs, durable - {id}, waitack - {id})
      modifies this`durable, this`validCount, this`totalCount, this`log, mapper.fs, durable.Values`offset,
        durable.Values`length
      modifies msg`payload
      ensures StoreAgrees() && SharedIn(msgs, durable, waitack - {id})
      ensures log == if old(IsDurable(msg.payload)) then AfterGcCheck(Kill(old(log), id)) else old(log)
      ensures Payloads(msgs) == old(Payloads(msgs)) && PayloadMap(waitack - {id}) == old(PayloadMap(waitack - {id}))
      ensures durable.Values <= old(durable.Values)
      ensures Elsewhere(mapper.fs.files) == old(Elsewhere(mapper.fs.files))
    {
      hide *;
      DurableIs(msg.payload);
      if msg.payload.properties.Some? && msg.payload.properties.value.deliveryMode == DURABLE {
        Invalidate(id, msg);
        Gc();
      }
    }

    /** What an ack relies on: the waiting object is the indexed one, and nothing else refers to it. */
    lemma {:induction false} AckStart(id: Bytes)
      requires SharedIn(msgs, durable, waitack) && WellFormed(View()) && id in waitack
      ensures IsDurable(waitack[id].payload) ==> id in durable && durable[id] == waitack[id]
      ensures waitack[id] !in msgs && waitack[id] !in (waitack - {id}).Values
      ensures SharedIn(msgs, durable - {id}, waitack - {id}) && SharedIn(msgs, durable, waitack - {id})
      ensures PayloadMap(waitack - {id}) == PayloadMap(waitack) - {id}
    {
      hide Healthy, KeptMatches, Payloads, IsDurable;
      var q := View();
      assert forall m | m in msgs :: m.payload in q.getable;
      assert forall i | i in waitack :: i in q.waiting && q.waiting[i] == waitack[i].payload;
    }

    lemma {:induction false} AckEnd(q: QState, id: Bytes)
      requires Contained() && id in q.waiting && Payloads(msgs) == q.getable && PayloadMap(waitack) == q.waiting - {id}
      requires log == if IsDurable(q.waiting[id]) then AfterGcCheck(Kill(q.log, id)) else q.log
      requires StoreAgrees() && SharedIn(msgs, durable, waitack) && WellFormed(Step(q, Op.Ack(id)))
      ensures Valid() && View() == Step(q, Op.Ack(id))
    {
      hide *;
      ViewIs();
      StepParts(q, id, NO_PAYLOAD);
      ValidIf();
    }

    /** The durable half of an ack: the record dies in place, the index forgets the message. */
    method Invalidate(id: Bytes, msg: Message)
      requires StoreAgrees() && id in durable && durable[id] == msg
      modifies this`durable, this`validCount, this`log, mapper.fs, msg`payload
      ensures StoreAgrees() && log == Kill(old(log), id)
      ensures durable == old(durable) - {id}
      ensures Elsewhere(mapper.fs.files) == old(Elsewhere(mapper.fs.files))
    {
      hide *;
      ghost var files := mapper.fs.files;
      StoreAgreesParts();
      MapsAre(durable);
      KillRecord(log, PayloadMap(durable), Places(durable), id);
      IndexKill(log, PayloadMap(durable), Places(durable), id);
      HealthyKill(log, id);
      SerializedWhole(RecordLog.Dead(msg.payload));
      IndexedApart(durable, Live(log), id);
      MapsDrop(durable, id);
      var ok := mapper.Remove(msg);
      ElsewhereKept(files, mapper.fs.files[mapper.dataFile]);
      mapper.fs.ContentIs(mapper.dataFile);
      log := Kill(log, id);
      durable := durable - {id};
      validCount := validCount - 1;
      StoreAgreesIf();
    }

    /** `GCCheck`. */
    predicate GcCheck()
      reads this`totalCount, this`validCount
    {
      GcDue(totalCount, validCount)
    }

    /** `gc`: compacts when due and moves every indexed message to its new place. */
    method Gc()
      requires StoreAgrees()
      modifies this`validCount, this`totalCount, this`log, mapper.fs, durable.Values`offset, durable.Values`length
      ensures StoreAgrees() && log == AfterGcCheck(old(log))
      ensures Elsewhere(mapper.fs.files) == old(Elsewhere(mapper.fs.files))
    {
      hide *;
      StoreAgreesParts();
      GcChecked();
      if !GcCheck() {
        return;
      }
      var list := Compact();
      Relocate(list);
    }

    /** The rest of `gc`: every indexed message moves to the place of its copy, and the counters start anew. */
    method Relocate(list: seq<Message>)
      requires mapper.dataFile != mapper.tmpFile && Healthy(log)
      requires mapper.fs.Content(mapper.dataFile) == Image(Live(log)) && mapper.dataFile in mapper.fs.files
      requires IndexMatches(log, PayloadMap(durable), Places(durable)) && Indexes(PayloadMap(durable), Live(log))
      requires Payloads(list) == Live(log) && Placed(list, Live(log)) && forall m | m in list :: m !in durable.Values
      requires DistinctIds(Live(log)) && AllStorable(Live(log)) && OffsetsFit(Live(log))
      requires forall i | 0 <= i < |Live(log)| :: Live(log)[i].valid != DEAD
      modifies this`validCount, this`totalCount, this`log, durable.Values`offset, durable.Values`length
      ensures StoreAgrees() && log == Live(old(log))
    {
      hide *;
      ghost var live, places := Live(log), Places(durable);
      HealthyLive(log);
      LiveOfLive(log);
      ListIndexed(list, durable, live);
      MoveAll(list);
      RecoveredPlaces(list, durable, live);
      MapsAre(durable);
      IndexCompact(log, PayloadMap(durable), places, Places(durable));
      totalCount, validCount, log := |list|, |list|, live;
      StoreAgreesIf();
    }

    /** The mapper's compaction: the file holds the live records, and their copies carry their places. */
    method Compact() returns (list: seq<Message>)
      requires StoreAgrees() && log != []
      modifies mapper.fs
      ensures fresh(list) && Payloads(list) == Live(log) && Placed(list, Live(log))
      ensures DistinctIds(Live(log)) && AllStorable(Live(log)) && OffsetsFit(Live(log))
      ensures forall i | 0 <= i < |Live(log)| :: Live(log)[i].valid != DEAD
      ensures mapper.fs.Content(mapper.dataFile) == Image(Live(log)) && mapper.dataFile in mapper.fs.files
      ensures Elsewhere(mapper.fs.files) == old(Elsewhere(mapper.fs.files))
    {
      hide *;
      StoreAgreesParts();
      IndexFits();
      RecoverableLog(log);
      AsStoredSame(Live(log));
      ghost var files := mapper.fs.files;
      list := mapper.Gc();
      CompactedElsewhere(files, Image(Live(log)));
      mapper.fs.ContentIs(mapper.dataFile);
    }

    lemma {:induction false} GcChecked()
      requires totalCount == |log| && validCount == |Live(log)|
      ensures GcCheck() ==> AfterGcCheck(log) == Live(log) && log != []
      ensures !GcCheck() ==> AfterGcCheck(log) == log
    {
      hide Live;
    }

    /** The 32-bit offsets of the message objects are the whole offsets. */
    lemma {:induction false} IndexFits()
      requires IndexMatches(log, PayloadMap(durable), Places(durable))
      ensures OffsetsFit(log)
    {
      hide Id, Live, Start, Serialize, Indexes;
      forall i | 0 <= i < |log| && log[i].valid != DEAD ensures Start(log, i) < TWO_32 {
        assert PlacedAt(log, i, Places(durable));
      }
    }

    lemma {:induction false} CompactedElsewhere(files: map<Bytes, Bytes>, content: Bytes)
      ensures Elsewhere(files[mapper.dataFile := content] - {mapper.tmpFile}) == Elsewhere(files)
    {
    }

    /** The loop of `gc`: each indexed message takes the place of its copy; every copy has one. */
    method MoveAll(list: seq<Message>)
      requires IndexedAs(durable, list)
      modifies durable.Values`offset, durable.Values`length
      ensures forall j | 0 <= j < |list| :: SamePlace(list[j], durable)
    {
      hide *;
      for k := 0 to |list|
        invariant forall j | 0 <= j < k :: SamePlace(list[j], durable)
      {
        IndexedAsParts(durable, list, k);
        var id := Id(list[k].payload);
        if id !in durable {
          assert false;
        } else {
          MoveOne(durable[id], list, k);
        }
      }
    }

    method MoveOne(m: Message, list: seq<Message>, k: nat)
      requires k < |list| && m !in list
      requires Id(list[k].payload) in durable && durable[Id(list[k].payload)] == m
      requires forall j | 0 <= j < k :: SamePlace(list[j], durable) && durable[Id(list[j].payload)] != m
      modifies m`offset, m`length
      ensures forall j | 0 <= j <= k :: SamePlace(list[j], durable)
    {
      hide Id;
      m.offset := list[k].offset;
      m.length := list[k].length;
    }

    // ---- the rest ----

    /** `clear`: removes the files and forgets everything. */
    method Clear()
      requires Valid()
      modifies this, mapper.fs
      ensures Valid() && View() == EMPTY_QUEUE
      ensures mapper.fs.files == old(mapper.fs.files) - {mapper.dataFile, mapper.tmpFile}
      ensures repr == {}
    {
      hide *;
      ValidParts();
      StoreAgreesParts();
      mapper.RemoveMsgFile();
      msgs, durable, waitack := [], map[], map[];
      validCount, totalCount := 0, 0;
      log, repr := [], {};
      mapper.fs.ContentIs(mapper.dataFile);
      EmptyStore();
    }

    lemma {:induction false} EmptyStore()
      requires mapper.dataFile != mapper.tmpFile && mapper.fs.Content(mapper.dataFile) == []
      requires msgs == [] && durable == map[] && waitack == map[] && log == [] && validCount == totalCount == 0
      requires repr == {}
      ensures Valid() && View() == EMPTY_QUEUE
    {
      hide *;
      IndexEmpty();
      MapsAre(durable);
      MapsAre(waitack);
      StoreAgreesIf();
      ViewIs();
      EmptyWellFormed();
      EmptyShared();
      ContainedIs();
      ValidIf();
    }

    method GetableCount() returns (n: nat)
      requires Valid()
      ensures n == |View().getable|
    {
      return |msgs|;
    }

    method TotalCount() returns (n: nat)
      requires Valid()
      ensures n == |View().log|
    {
      return totalCount;
    }

    method DurableCount() returns (n: nat)
      requires Valid()
      ensures n == |View().Kept()|
    {
      StoreAgreesParts();
      IndexCount(PayloadMap(durable), log);
      assert PayloadMap(durable).Keys == durable.Keys;
      return |durable|;
    }

    method WaitackCount() returns (n: nat)
      requires Valid()
      ensures n == |View().waiting|
    {
      assert PayloadMap(waitack).Keys == waitack.Keys;
      return |waitack|;
    }

    /** What the next process finds in the data file. */
    lemma {:induction false} OnDisk()
      requires Valid()
      ensures Healthy(View().log) && OffsetsFit(View().log)
      ensures mapper.fs.Content(mapper.dataFile) == Image(View().log)
    {
      hide *;
      ValidParts();
      StoreAgreesParts();
      IndexFits();
      ViewIs();
    }

    lemma {:induction false} ViewIs()
      ensures View() == QState(Payloads(msgs), PayloadMap(waitack), log)
      ensures waitack == map[] ==> PayloadMap(waitack) == map[]
    {
      hide Payloads;
    }
  }

  lemma {:induction false} SharedSnoc(ms: seq<Message>, index: map<Bytes, Message>, waiting: map<Bytes, Message>,
      m: Message)
    requires SharedIn(ms, index, waiting)
    ensures !IsDurable(m.payload) ==> SharedIn(ms + [m], index, waiting)
    ensures Id(m.payload) !in index ==> SharedIn(ms + [m], index[Id(m.payload) := m], waiting)
  {
    hide Id, IsDurable;
  }

  lemma {:induction false} SharedFront(ms: seq<Message>, index: map<Bytes, Message>, waiting: map<Bytes, Message>)
    requires ms != [] && SharedIn(ms, index, waiting)
    ensures SharedIn(ms[1..], index, waiting)
    ensures SharedIn(ms[1..], index, waiting[Id(ms[0].payload) := ms[0]])
  {
    hide Id, IsDurable;
  }

  lemma {:induction false} StepFront(q: QState)
    requires WellFormed(q)
    ensures q.getable != [] ==>
      && Id(q.getable[0]) !in q.waiting
      && Step(q, Op.Front) == QState(q.getable[1..], q.waiting[Id(q.getable[0]) := q.getable[0]], q.log)
    ensures q.getable == [] ==> Step(q, Op.Front) == q
  {
    hide Id, Healthy, KeptMatches;
    assert q.getable != [] ==> q.getable[0] in q.getable;
  }

  /** The message object `insert` builds: the publisher's properties or the server's own, a durable mode only
      in a durable queue, and the valid mark on a durable message. */
  method NewMessage(bp: Option<Properties>, body: Bytes, queueDurable: bool, serverId: Bytes) returns (msg: Message)
    ensures fresh(msg) && msg.payload == NewPayload(bp, serverId, body, queueDurable)
    ensures msg.payload.body == body && Id(msg.payload) == if bp.Some? then bp.value.id else serverId
    ensures IsDurable(msg.payload) <==> queueDurable && (bp.None? || bp.value.deliveryMode == 2)
  {
    var properties := if bp.Some?
      then Properties(bp.value.id, if queueDurable then bp.value.deliveryMode else UNDURABLE, bp.value.routingKey)
      else Properties(serverId, if queueDurable then DURABLE else UNDURABLE, []);
    msg := new Message(Payload(Some(properties), body, []));
    if properties.deliveryMode == DURABLE {
      msg.payload := msg.payload.(valid := ALIVE);
    }
  }

  lemma {:induction false} DurableAlive(bp: Option<Properties>, serverId: Bytes, body: Bytes, queueDurable: bool)
    ensures var p := NewPayload(bp, serverId, body, queueDurable); IsDurable(p) ==> p.valid == ALIVE
  {
  }

  /** A durable record that protobuf refuses, or past the 32-bit offsets, breaks the invariant. */
  lemma {:induction false} UnstorableBreaks(log: seq<Payload>, p: Payload)
    requires p.valid == ALIVE
    ensures !Storable(p) ==> !Healthy(log + [p])
    ensures |Image(log)| + 8 >= TWO_32 ==> !OffsetsFit(log + [p])
  {
    hide Storable, Image, Live;
    var log' := log + [p];
    assert log'[|log|] == p && log'[..|log|] == log;
  }

  /** A message with a taken id breaks the invariant. */
  lemma {:induction false} TakenBreaks(q: QState, p: Payload, log: seq<Payload>)
    requires !IdFree(q, Id(p))
    ensures !WellFormed(QState(q.getable + [p], q.waiting, log))
  {
    hide Id, Healthy, KeptMatches;
    var getable := q.getable + [p];
    if Id(p) in q.waiting {
      assert p in getable;
    } else {
      var i :| 0 <= i < |q.getable| && Id(q.getable[i]) == Id(p);
      assert Id(getable[i]) == Id(getable[|q.getable|]);
    }
  }

  lemma {:induction false} FreeNotIndexed(q: QState, index: map<Bytes, Payload>, id: Bytes)
    requires WellFormed(q) && Indexes(index, Live(q.log)) && IdFree(q, id)
    ensures id !in index
  {
    hide Id, Live, Healthy, IdsApart;
  }

  lemma {:induction false} AppendHealthy(log: seq<Payload>, index: map<Bytes, Payload>, p: Payload)
    requires Healthy(log) && Indexes(index, Live(log)) && Id(p) !in index
    requires IsDurable(p) && p.valid == ALIVE && Storable(p)
    ensures Healthy(log + [p]) && Live(log + [p]) == Live(log) + [p]
  {
    hide Id, Live, Storable, IsDurable;
    LiveAppend(log, [p]);
    LiveOne(p);
    DistinctSnoc(Live(log), p);
  }

  lemma {:induction false} PayloadsSnoc(ms: seq<Message>, m: Message)
    ensures Payloads(ms + [m]) == Payloads(ms) + [m.payload]
  {
    hide Payloads;
  }

  lemma {:induction false} EmptyShared()
    ensures SharedIn([], map[], map[])
  {
  }

  lemma {:induction false} DurableIs(p: Payload)
    ensures IsDurable(p) <==> p.properties.Some? && p.properties.value.deliveryMode == DURABLE
  {
  }

  lemma {:induction false} SerializedWhole(p: Payload)
    requires Storable(p)
    ensures SerializedString(p) == Serialize(p)
  {
    hide Serialize;
  }

  lemma {:induction false} IndexedApart(index: map<Bytes, Message>, live: seq<Payload>, id: Bytes)
    requires Indexes(PayloadMap(index), live) && id in index
    ensures forall i | i in index && i != id :: index[i] != index[id]
    ensures index[id] !in (index - {id}).Values
  {
    hide Id;
    forall i | i in index ensures Id(index[i].payload) == i {
      assert PayloadMap(index)[i] == index[i].payload;
    }
  }

  /** The list holds copies of indexed messages, apart from the index's own objects. */
  ghost predicate IndexedAs(index: map<Bytes, Message>, ms: seq<Message>)
    reads index.Values`payload, ms`payload
  {
    && (forall m | m in ms :: Id(m.payload) in index && m !in index.Values)
    && (forall id | id in index :: Id(index[id].payload) == id)
    && DistinctIds(Payloads(ms))
  }

  lemma {:induction false} IndexedAsParts(index: map<Bytes, Message>, ms: seq<Message>, k: nat)
    requires IndexedAs(index, ms) && k < |ms|
    ensures forall j | 0 <= j < |ms| :: Id(ms[j].payload) in index
    ensures index[Id(ms[k].payload)] !in ms
    ensures forall j | 0 <= j < k :: index[Id(ms[j].payload)] != index[Id(ms[k].payload)]
  {
    hide Id, Payloads;
    forall j | 0 <= j < k ensures Id(ms[j].payload) != Id(ms[k].payload) {
      assert Payloads(ms)[j] == ms[j].payload && Payloads(ms)[k] == ms[k].payload;
    }
  }

  lemma {:induction false} ListIndexed(ms: seq<Message>, index: map<Bytes, Message>, live: seq<Payload>)
    requires Payloads(ms) == live && DistinctIds(live) && Indexes(PayloadMap(index), live)
    requires forall m | m in ms :: m !in index.Values
    ensures IndexedAs(index, ms)
  {
    hide Id, Payloads;
    forall id | id in index ensures Id(index[id].payload) == id {
      assert PayloadMap(index)[id] == index[id].payload;
    }
    forall m | m in ms ensures Id(m.payload) in index {
      var j :| 0 <= j < |ms| && ms[j] == m;
      assert live[j] == m.payload;
    }
  }

  /** The index holds the first k messages of the list under their ids. */
  ghost predicate IndexedUpTo(ms: seq<Message>, index: map<Bytes, Message>, k: nat)
    requires k <= |ms|
    reads ms`payload, index.Values`payload
  {
    && (forall j | 0 <= j < k :: Id(ms[j].payload) in index && index[Id(ms[j].payload)] == ms[j])
    && (forall id | id in index :: index[id] in ms[..k] && Id(index[id].payload) == id)
  }

  /** Of the first k messages of the list the index holds the first of each id, and nothing else. */
  ghost predicate FirstIndexed(ms: seq<Message>, index: map<Bytes, Message>, k: nat)
    requires k <= |ms|
    reads ms`payload, index.Values`payload
  {
    && (forall j | 0 <= j < k :: Id(ms[j].payload) in index)
    && (forall id | id in index :: Id(index[id].payload) == id && FirstOf(ms, k, id, index[id]))
  }

  ghost predicate FirstOf(ms: seq<Message>, k: nat, id: Bytes, m: Message)
    requires k <= |ms|
    reads ms`payload
  {
    exists j :: 0 <= j < k && ms[j] == m && forall i | 0 <= i < j :: Id(ms[i].payload) != id
  }

  lemma {:induction false} IndexedNone(ms: seq<Message>)
    ensures FirstIndexed(ms, map[], 0)
  {
  }

  lemma {:induction false} IndexedNext(ms: seq<Message>, index: map<Bytes, Message>, k: nat)
    requires k < |ms| && FirstIndexed(ms, index, k)
    ensures var id := Id(ms[k].payload);
            FirstIndexed(ms, if id in index then index else index[id := ms[k]], k + 1)
  {
    hide Id;
    var id := Id(ms[k].payload);
    var index' := if id in index then index else index[id := ms[k]];
    forall i | i in index' ensures FirstOf(ms, k + 1, i, index'[i]) {
      if i in index {
        var j :| 0 <= j < k && ms[j] == index[i] && forall h | 0 <= h < j :: Id(ms[h].payload) != i;
        assert 0 <= j < k + 1;
      }
    }
  }

  /** With distinct ids every message is the first of its id. */
  lemma {:induction false} FirstIndexedDistinct(ms: seq<Message>, index: map<Bytes, Message>)
    requires FirstIndexed(ms, index, |ms|) && DistinctIds(Payloads(ms))
    ensures IndexedUpTo(ms, index, |ms|)
  {
    hide Id, Payloads;
    forall j | 0 <= j < |ms| ensures index[Id(ms[j].payload)] == ms[j] {
      var id := Id(ms[j].payload);
      assert FirstOf(ms, |ms|, id, index[id]);
      var i :| 0 <= i < |ms| && ms[i] == index[id];
      assert Id(Payloads(ms)[i]) == Id(Payloads(ms)[j]);
    }
    forall id | id in index ensures index[id] in ms[..|ms|] {
      assert FirstOf(ms, |ms|, id, index[id]);
    }
  }

  lemma {:induction false} HealthyStorable(log: seq<Payload>)
    requires Healthy(log)
    ensures AllStorable(log)
  {
    hide AllStorable, Live, DistinctIds, IsDurable;
  }

  /** What recovery finds in the file of a store that was in its invariant. */
  lemma {:induction false} RecoverableFile(past: seq<Payload>)
    requires Healthy(past) && OffsetsFit(past)
    ensures Scan(Image(past)) == (true, Live(past)) && Healthy(Live(past)) && OffsetsFit(Live(past))
    ensures AsStored(Live(past)) == Live(past)
  {
    hide *;
    RecoverableLog(past);
    HealthyLive(past);
    AsStoredSame(Live(past));
  }

  lemma {:induction false} RecoverableLog(past: seq<Payload>)
    requires Healthy(past) && OffsetsFit(past)
    ensures Scan(Image(past)) == (true, Live(past)) && Compacted(Image(past)) == Image(Live(past))
    ensures AllStorable(Live(past)) && DistinctIds(Live(past)) && OffsetsFit(Live(past))
    ensures Live(Live(past)) == Live(past) && forall i | 0 <= i < |Live(past)| :: Live(past)[i].valid != DEAD
  {
    HealthyLive(past);
    CompactionPreservesMeaning(past);
    ScanImage(past);
    CompactionFits(past);
    LiveOfLive(past);
    hide Live, Image, Scan, OffsetsFit, Compacted, AllStorable, Id, IsDurable;
  }

  lemma {:induction false} RecoveredMembers(ms: seq<Message>, index: map<Bytes, Message>, log: seq<Payload>)
    requires Payloads(ms) == log && IndexedUpTo(ms, index, |ms|)
    ensures Indexes(PayloadMap(index), log)
  {
    hide Id, Payloads;
    forall p | p in log ensures Id(p) in index && index[Id(p)].payload == p {
      var j :| 0 <= j < |log| && log[j] == p;
      assert ms[j].payload == p;
    }
    forall id | id in index ensures index[id].payload in log {
      var j :| 0 <= j < |ms| && ms[j] == index[id];
      assert log[j] == ms[j].payload;
    }
  }

  /** The index holds, under the message's id, a message at the same place. */
  ghost predicate SamePlace(m: Message, index: map<Bytes, Message>)
    reads m, index.Values`offset, index.Values`length
  {
    var id := Id(m.payload);
    id in index && index[id].offset == m.offset && index[id].length == m.length
  }

  lemma {:induction false} RecoveredPlaces(ms: seq<Message>, index: map<Bytes, Message>, log: seq<Payload>)
    requires Payloads(ms) == log && AllStorable(log) && OffsetsFit(log)
    requires forall i | 0 <= i < |log| :: log[i].valid != DEAD
    requires forall i | 0 <= i < |ms| :: SamePlace(ms[i], index)
    requires Placed(ms, log)
    ensures forall i | 0 <= i < |log| :: PlacedAt(log, i, Places(index))
  {
    hide Id, Serialize, Start, Payloads;
    forall i | 0 <= i < |log| ensures PlacedAt(log, i, Places(index)) {
      assert Storable(log[i]) && ms[i].payload == log[i];
    }
  }

  lemma {:induction false} RecoveredIndex(ms: seq<Message>, index: map<Bytes, Message>, log: seq<Payload>)
    requires Payloads(ms) == log && Live(log) == log && AllStorable(log) && OffsetsFit(log)
    requires IndexedUpTo(ms, index, |ms|) && Placed(ms, log)
    ensures IndexMatches(log, PayloadMap(index), Places(index))
  {
    hide *;
    LiveOfLive(log);
    NoneDead(log);
    RecoveredMembers(ms, index, log);
    SamePlaces(ms, index);
    RecoveredPlaces(ms, index, log);
    MapsAre(index);
    IndexMatchesIf(log, PayloadMap(index), Places(index));
  }

  lemma {:induction false} NoneDead(log: seq<Payload>)
    requires Live(log) == log
    ensures forall i | 0 <= i < |log| :: log[i].valid != DEAD
  {
    LiveOfLive(log);
    hide Live;
    assert forall i | 0 <= i < |log| :: log[i] in log;
  }

  lemma {:induction false} SamePlaces(ms: seq<Message>, index: map<Bytes, Message>)
    requires IndexedUpTo(ms, index, |ms|)
    ensures forall i | 0 <= i < |ms| :: SamePlace(ms[i], index)
  {
    hide Id;
  }

  lemma {:induction false} IndexMatchesIf(log: seq<Payload>, index: map<Bytes, Payload>, places: map<Bytes, Place>)
    requires places.Keys == index.Keys && Indexes(index, Live(log))
    requires forall i | 0 <= i < |log| :: PlacedAt(log, i, places)
    ensures IndexMatches(log, index, places)
  {
    hide Indexes, Live, PlacedAt;
  }
}
