/** A message inserted under an id a live message of its queue already has, followed to the end: what stays of
    it in memory and in the file, when it is handed out a second time, and when it is lost. */
module TakenIds {
  import opened Basics
  import opened PayloadCodec
  import opened RecordLog
  import opened QueueModel
  import opened QueueRuns

  // ---- an ack, with the index of durable messages ----

  /** The records compaction found that the index does not know: each is put back on the list and indexed. */
  function Relisted(live: seq<Payload>, index: set<Bytes>): seq<Payload> {
    if live == [] then []
    else if Id(live[0]) in index then Relisted(live[1..], index)
    else [live[0]] + Relisted(live[1..], index + {Id(live[0])})
  }

  /** An ack of the message whose record is the first live one of its id, in a store whose index knows these
      ids. Only a compaction looks at the index. */
  function AckStep(q: QState, index: set<Bytes>, id: Bytes): QState {
    if id !in q.waiting || !IsDurable(q.waiting[id]) then Step(q, Ack(id))
    else
      var log := Kill(q.log, id);
      var back := if GcDue(|log|, |Live(log)|) then Relisted(Live(log), index - {id}) else [];
      QState(q.getable + back, q.waiting - {id}, AfterGcCheck(log))
  }

  lemma {:induction false} NothingRelisted(live: seq<Payload>, index: set<Bytes>)
    requires forall p | p in live :: Id(p) in index
    ensures Relisted(live, index) == []
  {
    hide Id;
    if live != [] {
      NothingRelisted(live[1..], index);
    }
  }

  lemma {:induction false} KnownPass(known: seq<Payload>, p: Payload, index: set<Bytes>)
    requires (forall x | x in known :: Id(x) in index) && Id(p) !in index
    ensures Relisted(known + [p], index) == [p]
  {
    hide Id;
    if known == [] {
      assert known + [p] == [p] && [p][1..] == [];
    } else {
      assert (known + [p])[1..] == known[1..] + [p];
      KnownPass(known[1..], p, index);
    }
  }

  /** While the store is in its invariant the index knows every kept message, and nothing is put back. */
  lemma {:induction false} AckStepIsStep(q: QState, id: Bytes)
    requires WellFormed(q)
    ensures AckStep(q, IdSet(q.Kept()), id) == Step(q, Ack(id))
  {
    hide Id, IsDurable, Kill, GcDue, AfterGcCheck, IdsApart, KeptMatches, AllStorable, DistinctIds;
    if id in q.waiting && IsDurable(q.waiting[id]) {
      LiveOfKill(q.log, id);
      WithoutMembers(q.Kept(), id);
      hide Live, Healthy;
      NothingRelisted(Live(Kill(q.log, id)), IdSet(q.Kept()) - {id});
      ConcatNothing(q.getable);
    }
  }

  // ---- an id taken twice ----

  function Fronts(n: nat): seq<Op> {
    if n == 0 then [] else [Front] + Fronts(n - 1)
  }

  function FirstWith(ps: seq<Payload>, id: Bytes): Option<Payload> {
    if ps == [] then None else if Id(ps[0]) == id then Some(ps[0]) else FirstWith(ps[1..], id)
  }

  function WaitingAs(q: QState, id: Bytes): Option<Payload> {
    if id in q.waiting then Some(q.waiting[id]) else None
  }

  /** Taking every message: the first of an id to be taken is the one that waits. */
  lemma {:induction false} FrontAll(q: QState, id: Bytes, n: nat)
    requires n == |q.getable|
    ensures var r := Run(q, Fronts(n));
            && r.getable == [] && r.log == q.log
            && WaitingAs(r, id) == if id in q.waiting then WaitingAs(q, id) else FirstWith(q.getable, id)
    decreases n
  {
    hide Id;
    if n > 0 {
      assert Fronts(n)[0] == Front && Fronts(n)[1..] == Fronts(n - 1);
      FrontAll(Step(q, Front), id, n - 1);
    }
  }

  lemma {:induction false} KillBefore(log: seq<Payload>, p: Payload, id: Bytes)
    requires exists x :: x in Live(log) && Id(x) == id
    ensures Live(Kill(log + [p], id)) == Live(Kill(log, id)) + Live([p])
    ensures |Kill(log + [p], id)| == |log| + 1
  {
    hide Id;
    assert log != [];
    assert (log + [p])[1..] == log[1..] + [p];
    if log[0].valid != DEAD && Id(log[0]) == id {
      LiveAppend([RecordLog.Dead(log[0])] + log[1..], [p]);
      assert [RecordLog.Dead(log[0])] + (log[1..] + [p]) == ([RecordLog.Dead(log[0])] + log[1..]) + [p];
    } else {
      KillBefore(log[1..], p, id);
    }
  }

  lemma {:induction false} FirstWithAppend(ps: seq<Payload>, p: Payload, id: Bytes)
    requires exists k :: 0 <= k < |ps| && Id(ps[k]) == id
    ensures FirstWith(ps + [p], id) == FirstWith(ps, id) && FirstWith(ps, id).Some?
    ensures FirstWith(ps, id).value in ps && Id(FirstWith(ps, id).value) == id
  {
    hide Id;
    if Id(ps[0]) != id {
      assert (ps + [p])[1..] == ps[1..] + [p];
      var k :| 0 <= k < |ps| && Id(ps[k]) == id;
      assert ps[1..][k - 1] == ps[k];
      FirstWithAppend(ps[1..], p, id);
    }
  }

  lemma {:induction false} DurableIsKept(q: QState, p: Payload)
    requires WellFormed(q) && IsDurable(p) && (p in q.getable || p in q.waiting.Values)
    ensures p in q.Kept()
  {
    hide Id, Healthy, IdsApart, Live;
    if p in q.getable {
      DurablesMembers(q.getable);
      var t := Durables(q.getable);
      assert p in t;
      assert q.Kept()[|q.Kept()| - |t|..] == t;
    }
  }

  /** The record of the message acked dies; what was inserted under its id after it stays. */
  lemma {:induction false} KilledFirst(q: QState, p: Payload, first: Payload)
    requires WellFormed(q) && IsDurable(first) && Id(first) == Id(p)
    requires first in q.getable || (Id(p) in q.waiting && q.waiting[Id(p)] == first)
    ensures Live(Kill(q.log + [p], Id(p))) == Without(q.Kept(), Id(p)) + Live([p])
    ensures Live(Kill(q.log, Id(p))) == Without(q.Kept(), Id(p))
    ensures |Kill(q.log + [p], Id(p))| == |q.log| + 1
    ensures |Without(q.Kept(), Id(p))| == |q.Kept()| - 1
  {
    hide Kill, Without, IsDurable, Live, KeptMatches, IdsApart;
    DurableIsKept(q, first);
    KillBefore(q.log, p, Id(p));
    LiveOfKill(q.log, Id(p));
    WithoutOne(q.Kept(), Id(p));
  }

  /** Every message taken, the one that waits under the id is the earlier one. */
  lemma {:induction false} EarlierWaits(q: QState, p: Payload)
    requires IdsApart(q.getable, q.waiting) && !IdFree(q, Id(p))
    ensures var taken := Run(Step(q, Insert(p)), Fronts(|q.getable| + 1));
            && taken.getable == [] && taken.log == Step(q, Insert(p)).log && Id(p) in taken.waiting
            && Id(taken.waiting[Id(p)]) == Id(p)
            && (taken.waiting[Id(p)] in q.getable || (Id(p) in q.waiting && q.waiting[Id(p)] == taken.waiting[Id(p)]))
  {
    hide IsDurable, Id, DistinctIds, FirstWith, Run;
    FrontAll(Step(q, Insert(p)), Id(p), |q.getable| + 1);
    if Id(p) !in q.waiting {
      FirstWithAppend(q.getable, p, Id(p));
    }
  }

  /** What the index knows once p is in: a taken id is not entered twice. */
  function IndexWith(q: QState, p: Payload): set<Bytes> {
    IdSet(q.Kept()) + if IsDurable(p) then {Id(p)} else {}
  }

  /** Two durable messages of one id, and a compaction due when the earlier is acked. */
  predicate ComesBack(q: QState, p: Payload, first: Payload) {
    IsDurable(p) && IsDurable(first) && GcDue(|q.log| + 1, |q.Kept()|)
  }

  lemma {:induction false} IdSetWithout(q: QState, p: Payload)
    requires DistinctIds(q.Kept())
    ensures forall x | x in Without(q.Kept(), Id(p)) :: Id(x) in IndexWith(q, p) - {Id(p)}
  {
    hide Id, Live, IsDurable;
    WithoutMembers(q.Kept(), Id(p));
  }

  /** The ack of the earlier message, when the later one is durable. */
  lemma {:induction false} AckBeforeDurable(q: QState, p: Payload, taken: QState)
    requires WellFormed(q) && IsDurable(p) && p.valid == ALIVE
    requires taken.getable == [] && taken.log == q.log + [p] && Id(p) in taken.waiting
    requires var first := taken.waiting[Id(p)];
             Id(first) == Id(p) && (first in q.getable || (Id(p) in q.waiting && q.waiting[Id(p)] == first))
    ensures var acked := AckStep(taken, IndexWith(q, p), Id(p));
            && acked.getable == (if ComesBack(q, p, taken.waiting[Id(p)]) then [p] else [])
            && acked.waiting == taken.waiting - {Id(p)} && p in acked.Kept()
  {
    hide Live, Id, IsDurable, Kill, GcDue, Healthy, IdsApart, KeptMatches, Relisted, AfterGcCheck;
    var first := taken.waiting[Id(p)];
    LiveOne(p);
    LiveAppend(q.log, [p]);
    if IsDurable(first) {
      KilledFirst(q, p, first);
      AfterGcCheckLive(Kill(taken.log, Id(p)));
      HealthyDistinct(q.log);
      IdSetWithout(q, p);
      KnownPass(Without(q.Kept(), Id(p)), p, IndexWith(q, p) - {Id(p)});
      ConcatNothing([p]);
    }
  }

  /** The ack of the earlier message, when the later one is transient. */
  lemma {:induction false} AckBeforeTransient(q: QState, p: Payload, taken: QState)
    requires WellFormed(q) && !IsDurable(p)
    requires taken.getable == [] && taken.log == q.log && Id(p) in taken.waiting
    requires var first := taken.waiting[Id(p)];
             Id(first) == Id(p) && (first in q.getable || (Id(p) in q.waiting && q.waiting[Id(p)] == first))
    ensures var acked := AckStep(taken, IndexWith(q, p), Id(p));
            && acked.getable == [] && acked.waiting == taken.waiting - {Id(p)} && p !in acked.Kept()
    ensures !ComesBack(q, p, taken.waiting[Id(p)])
  {
    var first := taken.waiting[Id(p)];
    if IsDurable(first) {
      KilledFirst(q, p, first);
      HealthyDistinct(q.log);
      IdSetWithout(q, p);
      hide Live, Without, Id, Kill, GcDue, IdsApart, KeptMatches, Relisted, AllStorable, DistinctIds;
      AfterGcCheckLive(Kill(q.log, Id(p)));
      WithoutMembers(q.Kept(), Id(p));
      hide Healthy;
      NothingRelisted(Without(q.Kept(), Id(p)), IndexWith(q, p) - {Id(p)});
      ConcatNothing<Payload>([]);
    }
  }

  /** A message inserted under an id a live one already has, both taken before an ack. The ack reaches the earlier
      one. When both are durable and a compaction is due then, the later one goes back on the list, to be handed
      out a second time; otherwise it is in neither list and no ack can reach it. A durable one comes back at
      restart in any case; a transient one never does. */
  lemma {:induction false} TakenIdStrands(q: QState, p: Payload)
    requires WellFormed(q) && !IdFree(q, Id(p)) && (IsDurable(p) ==> p.valid == ALIVE)
    ensures var taken := Run(Step(q, Insert(p)), Fronts(|q.getable| + 1));
            && Id(p) in taken.waiting && (taken.waiting[Id(p)] in q.getable || taken.waiting[Id(p)] in q.waiting.Values)
            && var acked := AckStep(taken, IndexWith(q, p), Id(p));
            && Id(p) !in acked.waiting && Step(acked, Ack(Id(p))) == acked
            && acked.getable == (if ComesBack(q, p, taken.waiting[Id(p)]) then [p] else [])
            && (acked.getable != [] ==> Step(acked, Front).waiting == acked.waiting[Id(p) := p])
            && (p in Step(acked, Restart).getable <==> IsDurable(p))
  {
    hide Kill, GcDue, WellFormed, Live, IsDurable, AckStep, Id, IdFree, ComesBack, IndexWith;
    WellFormedParts(q);
    EarlierWaits(q, p);
    var taken := Run(Step(q, Insert(p)), Fronts(|q.getable| + 1));
    hide Run;
    if IsDurable(p) {
      AckBeforeDurable(q, p, taken);
    } else {
      AckBeforeTransient(q, p, taken);
    }
  }
}
