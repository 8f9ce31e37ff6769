/** `MessageManager`: one message store per queue name, all over one directory. */
module MessageManager {
  import opened Basics
  import opened PayloadCodec
  import opened RecordLog
  import opened QueueModel
  import opened StoreIndex
  import HostModel
  import opened Files
  import opened MessageMapper
  import opened MessageStore

  function Stored(files: map<Bytes, Bytes>, path: Bytes): Bytes {
    if path in files then files[path] else []
  }

  /** A store that nobody touched, in memory or on disk, is as it was, in its invariant or not. */
  twostate lemma {:induction false} UntouchedShape(q: QueueMessage)
    requires old(q.Contained())
    requires unchanged(q) && forall m | m in old(q.repr) :: unchanged(m)
    requires Stored(q.mapper.fs.files, q.mapper.dataFile) == old(Stored(q.mapper.fs.files, q.mapper.dataFile))
    requires q.mapper.dataFile in q.mapper.fs.files <==> q.mapper.dataFile in old(q.mapper.fs.files)
    ensures q.Contained() && q.View() == old(q.View()) && q.repr == old(q.repr)
    ensures q.Valid() <==> old(q.Valid())
  {
    hide Healthy, Image, IndexMatches, WellFormed, Live, Payloads, IsDurable, Id;
    forall i | 0 <= i < |q.msgs| ensures q.msgs[i] in old(q.repr) && unchanged(q.msgs[i]) {
      assert q.msgs[i] in q.msgs;
    }
    assert forall id | id in q.durable :: q.durable[id] in old(q.repr);
    assert forall id | id in q.waitack :: q.waitack[id] in old(q.repr);
    assert Payloads(q.msgs) == old(Payloads(q.msgs));
    assert PayloadMap(q.durable) == old(PayloadMap(q.durable));
  }

  twostate lemma {:induction false} Untouched(q: QueueMessage)
    requires old(q.Valid())
    requires unchanged(q) && forall m | m in old(q.repr) :: unchanged(m)
    requires Stored(q.mapper.fs.files, q.mapper.dataFile) == old(Stored(q.mapper.fs.files, q.mapper.dataFile))
    requires q.mapper.dataFile in q.mapper.fs.files <==> q.mapper.dataFile in old(q.mapper.fs.files)
    ensures q.Valid() && q.View() == old(q.View()) && q.repr == old(q.repr)
  {
    hide Stored, QueueMessage.View, QueueMessage.Contained, QueueMessage.StoreAgrees, SharedIn, WellFormed;
    UntouchedShape(q);
  }

  /** Only the files of one queue differ. */
  ghost predicate OnlyFilesOf(was: map<Bytes, Bytes>, files: map<Bytes, Bytes>, basedir: Bytes, n: Bytes) {
    var own := {DataFile(basedir, n), TmpFile(basedir, n)};
    files - own == was - own
  }

  lemma {:induction false} PathKept(was: map<Bytes, Bytes>, files: map<Bytes, Bytes>, basedir: Bytes, n: Bytes,
      path: Bytes)
    requires OnlyFilesOf(was, files, basedir, n) && path != DataFile(basedir, n) && path != TmpFile(basedir, n)
    ensures path in files <==> path in was
    ensures Stored(files, path) == Stored(was, path)
  {
    hide DataFile, TmpFile;
    var own := {DataFile(basedir, n), TmpFile(basedir, n)};
    assert path in files - own <==> path in was - own;
    assert path in files ==> (files - own)[path] == (was - own)[path];
  }

  lemma {:induction false} DataFileKept(was: map<Bytes, Bytes>, files: map<Bytes, Bytes>, basedir: Bytes, n: Bytes,
      k: Bytes)
    requires OnlyFilesOf(was, files, basedir, n) && k != n
    ensures DataFile(basedir, k) in files <==> DataFile(basedir, k) in was
    ensures Stored(files, DataFile(basedir, k)) == Stored(was, DataFile(basedir, k))
  {
    hide *;
    FilesApart(basedir, n, k);
    FilesApart(basedir, k, n);
    PathKept(was, files, basedir, n, DataFile(basedir, k));
  }

  /** Every data file without a handle holds the log it is said to hold. */
  ghost predicate DiskHolds(files: map<Bytes, Bytes>, basedir: Bytes, names: set<Bytes>,
      stale: map<Bytes, seq<Payload>>) {
    && (forall n | n in stale :: n !in names && Healthy(stale[n]) && OffsetsFit(stale[n]))
    && (forall n: Bytes | n !in names :: Stored(files, DataFile(basedir, n)) == Image(HostModel.PastLog(stale, n)))
  }

  lemma {:induction false} DiskKept(was: map<Bytes, Bytes>, files: map<Bytes, Bytes>, basedir: Bytes, n: Bytes,
                                    names: set<Bytes>, stale: map<Bytes, seq<Payload>>)
    requires OnlyFilesOf(was, files, basedir, n) && DiskHolds(was, basedir, names, stale)
    ensures n in names ==> DiskHolds(files, basedir, names, stale)
    ensures DiskHolds(files, basedir, names + {n}, stale - {n})
  {
    hide Healthy, OffsetsFit, Image, OnlyFilesOf, DataFile, TmpFile, Stored;
    forall k: Bytes | k != n ensures Stored(files, DataFile(basedir, k)) == Stored(was, DataFile(basedir, k)) {
      DataFileKept(was, files, basedir, n, k);
    }
  }

  lemma {:induction false} DiskDropped(files: map<Bytes, Bytes>, basedir: Bytes, n: Bytes, names: set<Bytes>,
      stale: map<Bytes, seq<Payload>>)
    requires DiskHolds(files, basedir, names, stale) && n in names && Stored(files, DataFile(basedir, n)) == Image([])
    ensures DiskHolds(files, basedir, names - {n}, stale)
  {
    hide Healthy, OffsetsFit, Image, DataFile, Stored;
  }

  lemma {:induction false} PastIsStored(fs: FileSystem, basedir: Bytes, names: set<Bytes>,
      stale: map<Bytes, seq<Payload>>, n: Bytes)
    requires DiskHolds(fs.files, basedir, names, stale) && n !in names
    ensures var past := HostModel.PastLog(stale, n);
            Healthy(past) && OffsetsFit(past) && Stored(fs.files, DataFile(basedir, n)) == Image(past)
  {
    hide DataFile, Image, Stored;
    assert Healthy([]) && OffsetsFit([]);
  }

  lemma {:induction false} StoredIs(fs: FileSystem, path: Bytes)
    ensures fs.Content(path) == Stored(fs.files, path)
  {
  }

  lemma {:induction false} LogsOnDisk(files: map<Bytes, Bytes>, basedir: Bytes, names: set<Bytes>,
                                      stale: map<Bytes, seq<Payload>>, logs: map<Bytes, seq<Payload>>)
    requires DiskHolds(files, basedir, names, stale) && logs.Keys == stale.Keys + names
    requires forall n | n in stale && n !in names :: logs[n] == stale[n]
    requires forall n | n in names ::
      Healthy(logs[n]) && OffsetsFit(logs[n]) && Stored(files, DataFile(basedir, n)) == Image(logs[n])
    ensures DiskHolds(files, basedir, {}, logs)
  {
    hide Healthy, OffsetsFit, DataFile, Image, Stored;
  }

  lemma {:induction false} StoredOpened(was: map<Bytes, Bytes>, fs: FileSystem, path: Bytes)
    requires fs.files == if path in was then was else was[path := []]
    ensures fs.Content(path) == Stored(was, path)
  {
  }

  lemma {:induction false} RecoveredFiles(was: map<Bytes, Bytes>, basedir: Bytes, n: Bytes, content: Bytes)
    ensures var data := DataFile(basedir, n);
            var start := if data in was then was else was[data := []];
            OnlyFilesOf(was, start[data := content] - {TmpFile(basedir, n)}, basedir, n)
  {
    hide DataFile, TmpFile;
  }

  lemma {:induction false} RemovedFiles(was: map<Bytes, Bytes>, basedir: Bytes, n: Bytes)
    ensures var files := was - {DataFile(basedir, n), TmpFile(basedir, n)};
            OnlyFilesOf(was, files, basedir, n) && Stored(files, DataFile(basedir, n)) == Image([])
  {
    hide DataFile, TmpFile;
  }

  ghost predicate DistinctHandles(qs: map<Bytes, QueueMessage>) {
    forall n, k | n in qs && k in qs && n != k :: qs[n] != qs[k]
  }

  /** Disjoint sets of objects within one. */
  ghost predicate ApartIn(reprs: map<Bytes, set<Message>>, base: set<object>) {
    && (forall n | n in reprs :: reprs[n] <= base)
    && (forall n, k | n in reprs && k in reprs && n != k :: reprs[n] !! reprs[k])
  }

  ghost function Reprs(qs: map<Bytes, QueueMessage>): map<Bytes, set<Message>>
    reads qs.Values
  {
    map n | n in qs :: qs[n].repr
  }

  lemma {:induction false} HandlesPut(qs: map<Bytes, QueueMessage>, n: Bytes, q: QueueMessage)
    requires DistinctHandles(qs) && q !in qs.Values
    ensures DistinctHandles(qs[n := q]) && qs[n := q].Values <= qs.Values + {q}
  {
  }

  lemma {:induction false} HandlesDrop(qs: map<Bytes, QueueMessage>, n: Bytes)
    requires DistinctHandles(qs)
    ensures DistinctHandles(qs - {n}) && (qs - {n}).Values <= qs.Values
  {
  }

  lemma {:induction false} StaleApart(files: map<Bytes, Bytes>, basedir: Bytes, names: set<Bytes>,
      stale: map<Bytes, seq<Payload>>, n: Bytes)
    requires DiskHolds(files, basedir, names, stale)
    ensures n in names ==> stale - {n} == stale
  {
    hide Healthy, OffsetsFit, DataFile, Image, Stored;
  }

  /** The oldest getable message of a queue. */
  function Oldest(states: map<Bytes, QState>, n: Bytes): Option<Payload> {
    if n in states && states[n].getable != [] then Some(states[n].getable[0]) else None
  }

  function PayloadOf(msg: Option<Message>): Option<Payload>
    reads match msg case Some(m) => {m} case None => {}
  {
    match msg case Some(m) => Some(m.payload) case None => None
  }

  /** The states while clearing: the handles still to do are as they were. */
  ghost function Cleared(states: map<Bytes, QState>, todo: set<Bytes>): map<Bytes, QState> {
    map n | n in states :: if n in todo then states[n] else EMPTY_QUEUE
  }

  lemma {:induction false} ClearedEnds(states: map<Bytes, QState>)
    ensures Cleared(states, states.Keys) == states
    ensures Cleared(states, {}) == map n | n in states :: EMPTY_QUEUE
  {
  }

  lemma {:induction false} ClearedNext(states: map<Bytes, QState>, todo: set<Bytes>, n: Bytes)
    ensures n in states ==> Cleared(states, todo)[n := EMPTY_QUEUE] == Cleared(states, todo - {n})
    ensures n in states <==> n in Cleared(states, todo)
  {
  }

  lemma {:induction false} OldestIs(states: map<Bytes, QState>, n: Bytes)
    ensures Oldest(states, n) == if n in states && states[n].getable != [] then Some(states[n].getable[0]) else None
  {
  }

  lemma {:induction false} PayloadOfIs(msg: Option<Message>)
    ensures PayloadOf(msg) == if msg.Some? then Some(msg.value.payload) else None
  {
  }

  class MessageManager {
    const fs: FileSystem
    const basedir: Bytes
    var queues: map<Bytes, QueueMessage>
    ghost var view: map<Bytes, QState>          // what each handle holds, as the queue model sees it
    ghost var stale: map<Bytes, seq<Payload>>   // logs of data files no handle is open on
    ghost var repr: set<object>                 // every handle and message object

    /** A valid handle on the queue's own files, in the given state. */
    ghost predicate Handle(n: Bytes, q: QueueMessage, state: QState)
      reads q, q.repr, fs
    {
      && q.mapper.fs == fs
      && q.mapper.dataFile == DataFile(basedir, n) && q.mapper.tmpFile == TmpFile(basedir, n)
      && q.Valid() && q.View() == state
    }

    lemma {:induction false} HandleIs(n: Bytes, q: QueueMessage, state: QState)
      ensures Handle(n, q, state) <==>
        && q.mapper.fs == fs
        && q.mapper.dataFile == DataFile(basedir, n) && q.mapper.tmpFile == TmpFile(basedir, n)
        && q.Valid() && q.View() == state
    {
    }

    ghost predicate Holds(qs: map<Bytes, QueueMessage>, states: map<Bytes, QState>, past: map<Bytes, seq<Payload>>,
        base: set<object>)
      reads qs.Values, base, fs
    {
      && this !in base && fs !in base && qs.Values <= base && states.Keys == qs.Keys
      && DistinctHandles(qs) && ApartIn(Reprs(qs), base)
      && (forall n | n in qs :: qs[n].repr <= base && Handle(n, qs[n], states[n]))
      && DiskHolds(fs.files, basedir, qs.Keys, past)
    }

    ghost predicate Valid()
      reads this, queues.Values, repr, fs
    {
      Holds(queues, view, stale, repr)
    }

    lemma {:induction false} ValidIs()
      ensures Valid() <==> Holds(queues, view, stale, repr)
    {
      hide Holds;
    }

    /** A handle on the queue's own files, in the given state, whether or not it is in its invariant. */
    ghost predicate Tracked(n: Bytes, q: QueueMessage, state: QState)
      reads q, q.repr
    {
      && q.mapper.fs == fs
      && q.mapper.dataFile == DataFile(basedir, n) && q.mapper.tmpFile == TmpFile(basedir, n)
      && q.Contained() && q.View() == state
    }

    lemma {:induction false} TrackedIs(n: Bytes, q: QueueMessage, state: QState)
      ensures Tracked(n, q, state) <==>
        && q.mapper.fs == fs
        && q.mapper.dataFile == DataFile(basedir, n) && q.mapper.tmpFile == TmpFile(basedir, n)
        && q.Contained() && q.View() == state
    {
      hide DataFile, TmpFile, QueueMessage.Contained, QueueMessage.View;
    }

    ghost predicate HoldsShape(qs: map<Bytes, QueueMessage>, states: map<Bytes, QState>,
        past: map<Bytes, seq<Payload>>, base: set<object>)
      reads qs.Values, base, fs
    {
      && this !in base && fs !in base && qs.Values <= base && states.Keys == qs.Keys
      && DistinctHandles(qs) && ApartIn(Reprs(qs), base)
      && (forall n | n in qs :: qs[n].repr <= base && Tracked(n, qs[n], states[n]))
      && DiskHolds(fs.files, basedir, qs.Keys, past)
    }

    ghost predicate BrokenAre(qs: map<Bytes, QueueMessage>, states: map<Bytes, QState>,
        past: map<Bytes, seq<Payload>>, base: set<object>, broken: set<Bytes>)
      reads qs.Values, base, fs
    {
      && HoldsShape(qs, states, past, base)
      && broken <= qs.Keys && forall n | n in qs :: n in broken <==> !qs[n].Valid()
    }

    /** Validity, but for the invariants of the stores of these queues, which are the ones to have lost theirs. */
    ghost predicate ValidBut(broken: set<Bytes>)
      reads this, queues.Values, repr, fs
    {
      BrokenAre(queues, view, stale, repr, broken)
    }

    lemma {:induction false} ValidButIs(broken: set<Bytes>)
      ensures ValidBut(broken) <==> BrokenAre(queues, view, stale, repr, broken)
    {
      hide BrokenAre;
    }

    lemma {:induction false} ValidButNone(broken: set<Bytes>)
      ensures Valid() <==> ValidBut({})
      ensures ValidBut(broken) ==> (Valid() <==> broken == {})
    {
      hide DataFile, TmpFile, QueueMessage.View, DiskHolds, QueueMessage.StoreAgrees, SharedIn, WellFormed,
        QueueMessage.Contained;
      forall n | n in queues ensures queues[n].Valid() ==> queues[n].Contained() {
      }
    }

    constructor (fs: FileSystem, basedir: Bytes, ghost stale: map<Bytes, seq<Payload>>)
      requires DiskHolds(fs.files, basedir, {}, stale)
      ensures Valid() && view == map[] && this.stale == stale
      ensures this.fs == fs && this.basedir == basedir && repr == {} && queues == map[]
    {
      this.fs, this.basedir, this.stale := fs, basedir, stale;
      queues, view, repr := map[], map[], {};
    }

    // ---- proof helpers: before and after a call on one handle ----

    /** What validity says of the handles. */
    lemma {:induction false} Opening()
      requires Valid()
      ensures forall k | k in queues ::
        && k in view && Handle(k, queues[k], view[k])
        && queues[k] in repr && queues[k].repr <= repr && queues[k].Valid() && queues[k].mapper.fs == fs
        && queues[k].mapper.dataFile == DataFile(basedir, k) && queues[k].mapper.tmpFile == TmpFile(basedir, k)
        && queues[k].View() == view[k] && k in Reprs(queues) && Reprs(queues)[k] == queues[k].repr
      ensures forall k, l | k in queues && l in queues && k != l ::
        queues[k] != queues[l] && queues[k].repr !! queues[l].repr
      ensures DistinctHandles(queues) && ApartIn(Reprs(queues), repr) && queues.Values <= repr
      ensures DiskHolds(fs.files, basedir, queues.Keys, stale) && this !in repr && fs !in repr
        && view.Keys == queues.Keys
    {
      hide DataFile, TmpFile, QueueMessage.Valid, QueueMessage.View, DiskHolds;
      forall k, l | k in queues && l in queues && k != l ensures queues[k].repr !! queues[l].repr {
        assert Reprs(queues)[k] == queues[k].repr && Reprs(queues)[l] == queues[l].repr;
      }
    }

    /** Handle n is new, changed or gone, the others are as they were. */
    lemma {:induction false} Closing(n: Bytes, qs: map<Bytes, QueueMessage>, states: map<Bytes, QState>,
        past: map<Bytes, seq<Payload>>,
                                     base: set<object>, reprs: map<Bytes, set<Message>>, before: set<object>)
      requires this !in base && fs !in base && qs.Values <= base && states.Keys == qs.Keys
      requires DistinctHandles(qs) && ApartIn(reprs, before) && before <= base
      requires forall k | k in qs && k != n :: k in reprs && qs[k].repr == reprs[k] && Handle(k, qs[k], states[k])
      requires n in qs ==> qs[n].repr <= base && Handle(n, qs[n], states[n])
      requires n in qs ==> forall k | k in qs && k != n :: qs[k].repr !! qs[n].repr
      requires DiskHolds(fs.files, basedir, qs.Keys, past)
      ensures Holds(qs, states, past, base)
    {
      hide DataFile, TmpFile, QueueMessage.Valid, QueueMessage.View, DiskHolds, Handle;
    }

    /** The directory as a next process finds it: every log of a handle, and every log left before. */
    lemma {:induction false} Reopens()
      requires Valid()
      ensures DiskHolds(fs.files, basedir, {}, stale + map n | n in view :: view[n].log)
    {
      hide *;
      Opening();
      var logs := stale + map n | n in view :: view[n].log;
      forall n | n in view
        ensures Healthy(logs[n]) && OffsetsFit(logs[n]) && Stored(fs.files, DataFile(basedir, n)) == Image(logs[n])
      {
        queues[n].OnDisk();
        StoredIs(fs, DataFile(basedir, n));
      }
      LogsOnDisk(fs.files, basedir, view.Keys, stale, logs);
    }

    lemma {:induction false} ElsewhereIs(q: QueueMessage, was: map<Bytes, Bytes>, n: Bytes)
      requires q.mapper.dataFile == DataFile(basedir, n) && q.mapper.tmpFile == TmpFile(basedir, n)
      ensures q.Elsewhere(was) == q.Elsewhere(fs.files) ==> OnlyFilesOf(was, fs.files, basedir, n)
    {
      hide DataFile, TmpFile;
    }

    // ---- operations ----

    /** The named queue takes the message; its store loses its invariant exactly when it could not. */
    method Insert(qname: Bytes, bp: Option<Properties>, body: Bytes, queueDurable: bool, serverId: Bytes,
        ghost broken: set<Bytes>)
      returns (ok: bool)
      requires ValidBut(broken) && qname !in broken
      modifies `view, `repr, fs, repr
      ensures queues == old(queues) && stale == old(stale) && fresh(repr - old(repr))
      ensures ok <==> qname in old(view)
      ensures var p := NewPayload(bp, serverId, body, queueDurable);
              && view == (if ok then old(view)[qname := Step(old(view)[qname], Op.Insert(p))] else old(view))
              && ValidBut(if ok && !Insertable(old(view)[qname], p) then broken + {qname} else broken)
    {
      hide *;
      OpeningBut(qname, broken);
      ok := qname in queues;
      if ok {
        ghost var can := Insertable(view[qname], NewPayload(bp, serverId, body, queueDurable));
        ghost var wider := InsertAt(qname, bp, body, queueDurable, serverId, broken);
        view := view[qname := Step(view[qname], Op.Insert(NewPayload(bp, serverId, body, queueDurable)))];
        repr := wider;
        ValidButIs(if can then broken else broken + {qname});
      }
    }

    method InsertAt(qname: Bytes, bp: Option<Properties>, body: Bytes, queueDurable: bool, serverId: Bytes,
        ghost broken: set<Bytes>)
      returns (ghost wider: set<object>)
      requires ValidBut(broken) && qname in queues && qname in view && qname !in broken
      modifies fs, queues[qname]
      ensures repr <= wider && fresh(wider - repr) && this !in wider
      ensures var p := NewPayload(bp, serverId, body, queueDurable);
              BrokenAre(queues, view[qname := Step(view[qname], Op.Insert(p))], stale, wider,
                        if Insertable(view[qname], p) then broken else broken + {qname})
    {
      hide *;
      OpeningBut(qname, broken);
      ghost var was, reprs := fs.files, Reprs(queues);
      ghost var p := NewPayload(bp, serverId, body, queueDurable);
      ghost var states := view[qname := Step(view[qname], Op.Insert(p))];
      var q := queues[qname];
      var ok := q.Insert(bp, body, queueDurable, serverId);
      ElsewhereIs(q, was, qname);
      forall k | k in queues && k != qname
        ensures Tracked(k, queues[k], states[k]) && queues[k].repr == reprs[k] && queues[k].repr !! q.repr
        ensures queues[k].Valid() <==> k !in broken
      {
        DataFileKept(was, fs.files, basedir, qname, k);
        UntouchedShape(queues[k]);
        TrackedIs(k, queues[k], states[k]);
      }
      TrackedIs(qname, q, states[qname]);
      DiskKept(was, fs.files, basedir, qname, queues.Keys, stale);
      wider := repr + q.repr;
      ClosingBut(qname, states, wider, reprs, broken, Insertable(view[qname], p));
    }

    /** What validity but for some stores says of the handles, before a call on handle n. */
    lemma {:induction false} OpeningBut(n: Bytes, broken: set<Bytes>)
      requires ValidBut(broken)
      ensures view.Keys == queues.Keys && broken <= queues.Keys
      ensures forall k | k in queues ::
        && Tracked(k, queues[k], view[k]) && queues[k] in repr && queues[k].repr <= repr && queues[k].mapper.fs == fs
        && queues[k].mapper.dataFile == DataFile(basedir, k) && queues[k].mapper.tmpFile == TmpFile(basedir, k)
        && queues[k].Contained() && queues[k].View() == view[k]
        && k in Reprs(queues) && Reprs(queues)[k] == queues[k].repr && (queues[k].Valid() <==> k !in broken)
      ensures n in queues ==>
        forall k | k in queues && k != n :: queues[k] != queues[n] && queues[k].repr !! queues[n].repr
      ensures DistinctHandles(queues) && ApartIn(Reprs(queues), repr) && queues.Values <= repr
      ensures DiskHolds(fs.files, basedir, queues.Keys, stale) && this !in repr && fs !in repr
    {
      hide DataFile, TmpFile, QueueMessage.Valid, QueueMessage.View, QueueMessage.Contained, DiskHolds;
      forall k | k in queues && n in queues && k != n ensures queues[k].repr !! queues[n].repr {
        assert Reprs(queues)[k] == queues[k].repr && Reprs(queues)[n] == queues[n].repr;
      }
    }

    /** Handle n has changed, the others are as they were. */
    lemma {:induction false} ClosingBut(n: Bytes, states: map<Bytes, QState>, base: set<object>,
        reprs: map<Bytes, set<Message>>, broken: set<Bytes>, can: bool)
      requires this !in base && fs !in base && queues.Values <= repr <= base && states.Keys == queues.Keys
      requires DistinctHandles(queues) && ApartIn(reprs, repr) && n in queues
      requires queues[n].repr <= base && Tracked(n, queues[n], states[n])
      requires forall k | k in queues && k != n ::
        && k in reprs && queues[k].repr == reprs[k] && queues[k].repr !! queues[n].repr
        && Tracked(k, queues[k], states[k]) && (queues[k].Valid() <==> k !in broken)
      requires DiskHolds(fs.files, basedir, queues.Keys, stale)
      requires broken <= queues.Keys && n !in broken && (queues[n].Valid() <==> can)
      ensures BrokenAre(queues, states, stale, base, if can then broken else broken + {n})
    {
      hide DataFile, TmpFile, QueueMessage.Valid, DiskHolds, Tracked;
    }

    method Front(qname: Bytes) returns (msg: Option<Message>)
      requires Valid()
      modifies `view, repr
      ensures Valid() && queues == old(queues) && stale == old(stale) && repr == old(repr)
      ensures PayloadOf(msg) == Oldest(old(view), qname)
      ensures view == if qname in old(view) then old(view)[qname := Step(old(view)[qname], Op.Front)] else old(view)
    {
      hide *;
      OldestIs(view, qname);
      Opening();
      if qname !in queues {
        PayloadOfIs(None);
        return None;
      }
      ghost var reprs := Reprs(queues);
      var q := queues[qname];
      msg := q.Front();
      forall k | k in queues && k != qname ensures Handle(k, queues[k], view[k]) && queues[k].repr == reprs[k] {
        Untouched(queues[k]);
        HandleIs(k, queues[k], view[k]);
      }
      ghost var state := Step(view[qname], Op.Front);
      HandleIs(qname, q, state);
      Closing(qname, queues, view[qname := state], stale, repr, reprs, repr);
      view := view[qname := state];
      PayloadOfIs(msg);
      ValidIs();
    }

    method Ack(qname: Bytes, id: Bytes)
      requires Valid()
      modifies `view, fs, repr
      ensures Valid() && queues == old(queues) && stale == old(stale) && repr == old(repr)
      ensures view == if qname in old(view) then old(view)[qname := Step(old(view)[qname], Op.Ack(id))] else old(view)
    {
      hide *;
      Opening();
      if qname !in queues {
        return;
      }
      ghost var was, reprs := fs.files, Reprs(queues);
      var q := queues[qname];
      q.ValidParts();
      q.ContainedIs();
      var ok := q.Remove(id);
      ElsewhereIs(q, was, qname);
      forall k | k in queues && k != qname ensures Handle(k, queues[k], view[k]) && queues[k].repr == reprs[k] {
        DataFileKept(was, fs.files, basedir, qname, k);
        Untouched(queues[k]);
        HandleIs(k, queues[k], view[k]);
      }
      ghost var state := Step(view[qname], Op.Ack(id));
      HandleIs(qname, q, state);
      DiskKept(was, fs.files, basedir, qname, queues.Keys, stale);
      Closing(qname, queues, view[qname := state], stale, repr, reprs, repr);
      view := view[qname := state];
      ValidIs();
    }

    /** Opens a handle and recovers it in one step; an open handle stays as it is. */
    method InitQueueMessage(qname: Bytes)
      requires Valid()
      modifies this, fs
      ensures Valid() && fresh(repr - old(repr))
      ensures queues.Keys == old(queues).Keys + {qname}
      ensures view == if qname in old(view) then old(view)
        else old(view)[qname := HostModel.Recovered(HostModel.PastLog(old(stale), qname))]
      ensures stale == old(stale) - {qname} && (qname in old(view) ==> stale == old(stale))
    {
      hide *;
      Opening();
      StaleApart(fs.files, basedir, queues.Keys, stale, qname);
      if qname in queues {
        return;
      }
      ghost var was, reprs, past := fs.files, Reprs(queues), HostModel.PastLog(stale, qname);
      PastIsStored(fs, basedir, queues.Keys, stale, qname);
      var q := OpenHandle(qname, past);
      forall k | k in queues
        ensures Handle(k, queues[k], view[k]) && queues[k].repr == reprs[k] && queues[k] != q
          && queues[k].repr !! q.repr
      {
        DataFileKept(was, fs.files, basedir, qname, k);
        Untouched(queues[k]);
        HandleIs(k, queues[k], view[k]);
      }
      ghost var state, base := HostModel.Recovered(past), repr + {q} + q.repr;
      HandleIs(qname, q, state);
      DiskKept(was, fs.files, basedir, qname, queues.Keys, stale);
      HandlesPut(queues, qname, q);
      assert queues[qname := q].Keys == queues.Keys + {qname};
      Closing(qname, queues[qname := q], view[qname := state], stale - {qname}, base, reprs, repr);
      queues, view, stale, repr := queues[qname := q], view[qname := state], stale - {qname}, base;
      ValidIs();
    }

    method OpenHandle(qname: Bytes, ghost past: seq<Payload>) returns (q: QueueMessage)
      requires Healthy(past) && OffsetsFit(past) && Stored(fs.files, DataFile(basedir, qname)) == Image(past)
      modifies fs
      ensures fresh(q) && fresh(q.repr) && q.Valid() && q.mapper.fs == fs
      ensures q.mapper.dataFile == DataFile(basedir, qname) && q.mapper.tmpFile == TmpFile(basedir, qname)
      ensures q.View() == HostModel.Recovered(past)
      ensures OnlyFilesOf(old(fs.files), fs.files, basedir, qname)
    {
      hide *;
      ghost var was := fs.files;
      q := new QueueMessage(fs, basedir, qname);
      StoredOpened(was, fs, q.mapper.dataFile);
      RecoverableFile(past);
      q.Recovery();
      RecoveredFiles(was, basedir, qname, Image(Live(past)));
      HostModel.RecoveredIs(past);
    }

    method ClearOne(qname: Bytes)
      requires Valid() && qname in queues
      modifies `view, fs, repr
      ensures Valid() && queues == old(queues) && stale == old(stale) && repr == old(repr)
      ensures view == old(view)[qname := EMPTY_QUEUE]
      ensures Stored(fs.files, DataFile(basedir, qname)) == Image([])
    {
      hide *;
      Opening();
      ghost var was, reprs := fs.files, Reprs(queues);
      var q := queues[qname];
      q.Clear();
      RemovedFiles(was, basedir, qname);
      forall k | k in queues && k != qname ensures Handle(k, queues[k], view[k]) && queues[k].repr == reprs[k] {
        DataFileKept(was, fs.files, basedir, qname, k);
        Untouched(queues[k]);
        HandleIs(k, queues[k], view[k]);
      }
      HandleIs(qname, q, EMPTY_QUEUE);
      DiskKept(was, fs.files, basedir, qname, queues.Keys, stale);
      Closing(qname, queues, view[qname := EMPTY_QUEUE], stale, repr, reprs, repr);
      view := view[qname := EMPTY_QUEUE];
      ValidIs();
    }

    /** Forgets a handle and removes its files. */
    method DestroyQueueMessage(qname: Bytes)
      requires Valid()
      modifies this, fs, repr
      ensures Valid() && queues.Keys == old(queues).Keys - {qname}
      ensures view == old(view) - {qname} && stale == old(stale) && repr == old(repr)
    {
      hide *;
      Opening();
      if qname !in queues {
        assert view - {qname} == view;
        return;
      }
      ghost var states := view - {qname};
      ClearOne(qname);
      assert view - {qname} == states;
      Dropping(qname);
      queues, view := queues - {qname}, states;
      ValidIs();
    }

    /** A handle whose file is gone can go. */
    lemma {:induction false} Dropping(n: Bytes)
      requires Valid() && n in queues && Stored(fs.files, DataFile(basedir, n)) == Image([])
      ensures Holds(queues - {n}, view - {n}, stale, repr)
    {
      hide *;
      Opening();
      HandlesDrop(queues, n);
      DiskDropped(fs.files, basedir, n, queues.Keys, stale);
      assert (queues - {n}).Keys == queues.Keys - {n};
      Closing(n, queues - {n}, view - {n}, stale, repr, Reprs(queues), repr);
    }

    /** Empties every handle, in whatever order the map gives them; the handles stay. */
    method Clear()
      requires Valid()
      modifies `view, fs, repr
      ensures Valid() && queues == old(queues) && stale == old(stale) && repr == old(repr)
      ensures view == map n | n in old(view) :: EMPTY_QUEUE
    {
      hide *;
      ghost var start := view;
      Opening();
      ClearedEnds(start);
      var todo := queues.Keys;
      while todo != {}
        invariant Valid() && todo <= queues.Keys && view == Cleared(start, todo)
        invariant queues == old(queues) && stale == old(stale) && repr == old(repr)
      {
        var n :| n in todo;
        ClearOne(n);
        ClearedNext(start, todo, n);
        todo := todo - {n};
      }
    }
  }
}
