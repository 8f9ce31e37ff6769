/** `BindingManager`: bindings nested by exchange, then by queue, and the rows that persist them. */
module BindingManager {
  import opened Basics
  import opened HostModel
  import opened HostSafety
  import opened Database

  type BindingMap = map<Bytes, map<Bytes, Binding>>

  /** No empty inner map, and every binding sits under its own names. */
  ghost predicate WellNested(bs: BindingMap) {
    forall e | e in bs :: bs[e] != map[] && InnerOf(e, bs[e])
  }

  ghost predicate InnerOf(e: Bytes, inner: map<Bytes, Binding>) {
    forall q | q in inner :: inner[q].exchange == e && inner[q].queue == q
  }

  /** The partial map from pairs of names to keys that the nested map stands for. */
  ghost function Flat(bs: BindingMap): map<Pair, Bytes> {
    map e, q | e in bs && q in bs[e] :: (e, q) := bs[e][q].key
  }

  // ---- the nested map against the flat one ----

  lemma {:induction false} FlatHas(bs: BindingMap, e: Bytes, q: Bytes)
    ensures (e, q) in Flat(bs) <==> e in bs && q in bs[e]
    ensures (e, q) in Flat(bs) ==> Flat(bs)[(e, q)] == bs[e][q].key
  {
  }

  lemma {:induction false} KeepingHas(m: map<Pair, Bytes>, keep: Binding -> bool, e: Bytes, q: Bytes)
    ensures (e, q) in Keeping(m, keep) <==> (e, q) in m && keep(Binding(e, q, m[(e, q)]))
    ensures (e, q) in Keeping(m, keep) ==> Keeping(m, keep)[(e, q)] == m[(e, q)]
  {
  }

  /** Equal at every pair of names. */
  ghost predicate Alike(m: map<Pair, Bytes>, m': map<Pair, Bytes>) {
    forall e, q :: ((e, q) in m <==> (e, q) in m') && ((e, q) in m ==> m[(e, q)] == m'[(e, q)])
  }

  lemma {:induction false} AlikeEqual(m: map<Pair, Bytes>, m': map<Pair, Bytes>)
    requires Alike(m, m')
    ensures m == m'
  {
    forall p | p in m ensures p in m' && m[p] == m'[p] {
      assert p == (p.0, p.1);
    }
    forall p | p in m' ensures p in m {
      assert p == (p.0, p.1);
    }
  }

  lemma {:induction false} FlatPut(bs: BindingMap, b: Binding)
    requires WellNested(bs)
    ensures var inner := if b.exchange in bs then bs[b.exchange] else map[];
            var bs' := bs[b.exchange := inner[b.queue := b]];
            WellNested(bs') && Flat(bs') == Flat(bs)[PairOf(b) := b.key]
  {
    hide Flat;
    var inner := if b.exchange in bs then bs[b.exchange] else map[];
    var bs' := bs[b.exchange := inner[b.queue := b]];
    assert b.queue in inner[b.queue := b];
    var m := Flat(bs)[PairOf(b) := b.key];
    forall e, q ensures ((e, q) in Flat(bs') <==> (e, q) in m) && ((e, q) in m ==> Flat(bs')[(e, q)] == m[(e, q)]) {
      FlatHas(bs, e, q);
      FlatHas(bs', e, q);
    }
    AlikeEqual(Flat(bs'), m);
  }

  /** The inner map of e loses q, and goes when that empties it. */
  function Erased(bs: BindingMap, e: Bytes, q: Bytes): BindingMap
    requires e in bs
  {
    if bs[e] - {q} == map[] then bs - {e} else bs[e := bs[e] - {q}]
  }

  lemma {:induction false} FlatErased(bs: BindingMap, e: Bytes, q: Bytes)
    requires WellNested(bs) && e in bs
    ensures WellNested(Erased(bs, e, q)) && Flat(Erased(bs, e, q)) == Keeping(Flat(bs), NotPair(e, q))
  {
    hide Flat, Keeping;
    var bs', m := Erased(bs, e, q), Keeping(Flat(bs), NotPair(e, q));
    forall x, y ensures ((x, y) in Flat(bs') <==> (x, y) in m) && ((x, y) in m ==> Flat(bs')[(x, y)] == m[(x, y)]) {
      FlatHas(bs, x, y);
      FlatHas(bs', x, y);
      KeepingHas(Flat(bs), NotPair(e, q), x, y);
      assert y in bs[e] && y != q ==> y in bs[e] - {q};
    }
    AlikeEqual(Flat(bs'), m);
  }

  lemma {:induction false} FlatLessExchange(bs: BindingMap, e: Bytes)
    requires WellNested(bs)
    ensures WellNested(bs - {e}) && Flat(bs - {e}) == Keeping(Flat(bs), NotExchange(e))
  {
    hide Flat, Keeping;
    var m := Keeping(Flat(bs), NotExchange(e));
    forall x, y ensures ((x, y) in Flat(bs - {e}) <==> (x, y) in m)
      && ((x, y) in m ==> Flat(bs - {e})[(x, y)] == m[(x, y)]) {
      FlatHas(bs, x, y);
      FlatHas(bs - {e}, x, y);
      KeepingHas(Flat(bs), NotExchange(e), x, y);
    }
    AlikeEqual(Flat(bs - {e}), m);
  }

  lemma {:induction false} PairIs(b: Binding)
    ensures PairOf(b) == (b.exchange, b.queue)
  {
  }

  lemma {:induction false} KeepingRest(m: map<Pair, Bytes>, e: Bytes, q: Bytes)
    ensures Keeping(m, NotPair(e, q)) == m - {(e, q)}
    ensures (e, q) !in m ==> Keeping(m, NotPair(e, q)) == m
  {
  }

  class BindingManager {
    const db: Database
    var bindings: BindingMap

    ghost predicate Valid()
      reads this
    {
      WellNested(bindings)
    }

    /** Creates the table unless it is there and reads its rows back; the first row of a pair wins. */
    constructor (db: Database)
      modifies db`bindingTable
      ensures Valid() && this.db == db
      ensures Flat(bindings) == FromRows(BindingRows(old(db.bindingTable)))
      ensures db.bindingTable == Some(BindingRows(old(db.bindingTable)))
    {
      this.db := db;
      bindings := map[];
      new;
      db.CreateBindingTable();
      Recovery(db.bindingTable.value);
    }

    method Recovery(rows: seq<Binding>)
      requires bindings == map[]
      modifies this
      ensures Valid() && Flat(bindings) == FromRows(rows)
    {
      hide *;
      NothingRecovered();
      ValidIs();
      assert rows[..0] == [];
      for k := 0 to |rows|
        invariant Valid() && Flat(bindings) == FromRows(rows[..k])
      {
        var b := rows[k];
        PairIs(b);
        assert rows[..k + 1] == rows[..k] + [b];
        ValidIs();
        FlatHas(bindings, b.exchange, b.queue);
        FromRowsSnoc(rows[..k], b);
        FlatPut(bindings, b);
        var inner := if b.exchange in bindings then bindings[b.exchange] else map[];
        if b.queue !in inner {
          bindings := bindings[b.exchange := inner[b.queue := b]];
        }
        ValidIs();
      }
      assert rows[..|rows|] == rows;
    }

    /** Does nothing when the pair is bound already, even with another key. */
    method Bind(ename: Bytes, qname: Bytes, key: Bytes, durable: bool, dbOk: bool) returns (ok: bool)
      requires Valid()
      modifies this, db`bindingTable
      ensures Valid()
      ensures (ename, qname) in old(Flat(bindings)) ==>
        ok && bindings == old(bindings) && db.bindingTable == old(db.bindingTable)
      ensures (ename, qname) !in old(Flat(bindings)) ==>
        && (ok <==> (durable ==> dbOk && old(db.bindingTable).Some?))
        && Flat(bindings) == (if ok then old(Flat(bindings))[(ename, qname) := key] else old(Flat(bindings)))
        && db.bindingTable == if ok && durable
             then Some(old(db.bindingTable).value + [Binding(ename, qname, key)]) else old(db.bindingTable)
    {
      hide *;
      ValidIs();
      FlatHas(bindings, ename, qname);
      if ename in bindings && qname in bindings[ename] {
        return true;
      }
      var b := Binding(ename, qname, key);
      if durable {
        ok := db.InsertBinding(b, dbOk);
        if !ok {
          return;
        }
      }
      FlatPut(bindings, b);
      PairIs(b);
      var inner := if ename in bindings then bindings[ename] else map[];
      bindings := bindings[ename := inner[qname := b]];
      ValidIs();
      return true;
    }

    method UnBind(ename: Bytes, qname: Bytes)
      requires Valid()
      modifies this, db`bindingTable
      ensures Valid() && Flat(bindings) == Keeping(old(Flat(bindings)), NotPair(ename, qname))
      ensures db.bindingTable == if (ename, qname) in old(Flat(bindings))
        then DeleteBindings(old(db.bindingTable), NotPair(ename, qname)) else old(db.bindingTable)
    {
      hide *;
      FlatHas(bindings, ename, qname);
      if ename !in bindings || qname !in bindings[ename] {
        KeepingRest(Flat(bindings), ename, qname);
        return;
      }
      db.RemoveBindings(NotPair(ename, qname));
      ValidIs();
      FlatErased(bindings, ename, qname);
      EraseOne(ename, qname);
      ValidIs();
    }

    lemma {:induction false} ValidIs()
      ensures Valid() <==> WellNested(bindings)
    {
    }

    method EraseOne(ename: Bytes, qname: Bytes)
      requires ename in bindings
      modifies `bindings
      ensures bindings == Erased(old(bindings), ename, qname)
    {
      bindings := bindings[ename := bindings[ename] - {qname}];
      if bindings[ename] == map[] {
        bindings := bindings - {ename};
        assert bindings == old(bindings) - {ename};
      }
    }

    method RemoveExchangeBindings(ename: Bytes)
      requires Valid()
      modifies this, db`bindingTable
      ensures Valid() && Flat(bindings) == Keeping(old(Flat(bindings)), NotExchange(ename))
      ensures db.bindingTable == DeleteBindings(old(db.bindingTable), NotExchange(ename))
    {
      FlatLessExchange(bindings, ename);
      db.RemoveBindings(NotExchange(ename));
      bindings := bindings - {ename};
    }

    method RemoveMsgQueueBindings(qname: Bytes)
      requires Valid()
      modifies this, db`bindingTable
      ensures Valid() && Flat(bindings) == Keeping(old(Flat(bindings)), NotQueue(qname))
      ensures db.bindingTable == DeleteBindings(old(db.bindingTable), NotQueue(qname))
    {
      hide *;
      db.RemoveBindings(NotQueue(qname));
      EraseQueue(qname);
    }

    /** Walks the outer map, erasing while iterating: every exchange is visited once, in some order. */
    method EraseQueue(qname: Bytes)
      requires Valid()
      modifies `bindings
      ensures Valid() && Flat(bindings) == Keeping(old(Flat(bindings)), NotQueue(qname))
    {
      hide *;
      ghost var start := Flat(bindings);
      ValidIs();
      var todo := bindings.Keys;
      NoneErased(bindings, qname);
      while todo != {}
        invariant todo <= bindings.Keys && WellNested(bindings)
        invariant Partly(Flat(bindings), start, todo, qname)
      {
        var e :| e in todo;
        FlatErased(bindings, e, qname);
        PartlyNext(Flat(bindings), start, todo, qname, e);
        ErasedKeys(bindings, e, qname);
        EraseOne(e, qname);
        todo := todo - {e};
      }
      AllErased(Flat(bindings), start, qname);
      ValidIs();
    }

    method GetExchangeBindings(ename: Bytes) returns (inner: map<Bytes, Binding>)
      requires Valid()
      ensures forall q :: q in inner <==> (ename, q) in Flat(bindings)
      ensures forall q | q in inner :: inner[q] == Binding(ename, q, Flat(bindings)[(ename, q)])
    {
      return if ename in bindings then bindings[ename] else map[];
    }

    method GetBinding(ename: Bytes, qname: Bytes) returns (b: Option<Binding>)
      requires Valid()
      ensures b == if (ename, qname) in Flat(bindings)
        then Some(Binding(ename, qname, Flat(bindings)[(ename, qname)])) else None
    {
      FlatHas(bindings, ename, qname);
      if ename in bindings && qname in bindings[ename] {
        return Some(bindings[ename][qname]);
      }
      return None;
    }

    /** The sum over the inner maps is the number of bound pairs. */
    method Size() returns (total: nat)
      requires Valid()
      ensures total == |Flat(bindings)|
    {
      hide *;
      total := 0;
      var todo := bindings.Keys;
      ghost var counted: BindingMap := map[];
      NothingFlat();
      while todo != {}
        invariant todo <= bindings.Keys && counted == bindings - todo
        invariant total == |Flat(counted)|
      {
        var e :| e in todo;
        CountOne(counted, e, bindings[e]);
        total := total + |bindings[e]|;
        todo := todo - {e};
        counted := counted[e := bindings[e]];
      }
      assert counted == bindings;
    }

    method Clear()
      modifies this, db`bindingTable
      ensures Valid() && Flat(bindings) == map[] && db.bindingTable == None
    {
      db.DropBindingTable();
      bindings := map[];
    }
  }

  // ---- recovery ----

  lemma {:induction false} NothingRecovered()
    ensures WellNested(map[]) && Flat(map[]) == FromRows([])
  {
    assert Flat(map[]) == map[];
  }

  // ---- erasing a queue while walking the exchanges ----

  /** The pairs of the queue are gone from every exchange already visited. */
  ghost predicate Partly(now: map<Pair, Bytes>, start: map<Pair, Bytes>, todo: set<Bytes>, qname: Bytes) {
    now == map p | p in start && (p.1 != qname || p.0 in todo) :: start[p]
  }

  lemma {:induction false} NoneErased(bs: BindingMap, qname: Bytes)
    ensures Partly(Flat(bs), Flat(bs), bs.Keys, qname)
  {
  }

  lemma {:induction false} PartlyNext(now: map<Pair, Bytes>, start: map<Pair, Bytes>, todo: set<Bytes>, qname: Bytes,
      e: Bytes)
    requires Partly(now, start, todo, qname)
    ensures Partly(Keeping(now, NotPair(e, qname)), start, todo - {e}, qname)
  {
  }

  lemma {:induction false} AllErased(now: map<Pair, Bytes>, start: map<Pair, Bytes>, qname: Bytes)
    requires Partly(now, start, {}, qname)
    ensures now == Keeping(start, NotQueue(qname))
  {
  }

  lemma {:induction false} ErasedKeys(bs: BindingMap, e: Bytes, q: Bytes)
    requires e in bs
    ensures bs.Keys - {e} <= Erased(bs, e, q).Keys
  {
  }

  // ---- counting ----

  lemma {:induction false} NothingFlat()
    ensures |Flat(map[])| == 0
  {
    assert Flat(map[]) == map[];
  }

  lemma {:induction false} PairsCount(e: Bytes, qs: set<Bytes>)
    ensures |PairsOf(e, qs)| == |qs|
  {
    if qs == {} {
      assert PairsOf(e, qs) == {};
    } else {
      var x :| x in qs;
      PairsCount(e, qs - {x});
      assert PairsOf(e, qs) == PairsOf(e, qs - {x}) + {(e, x)};
    }
  }

  lemma {:induction false} CountOne(bs: BindingMap, e: Bytes, inner: map<Bytes, Binding>)
    requires e !in bs
    ensures |Flat(bs[e := inner])| == |Flat(bs)| + |inner|
  {
    hide Flat, PairsOf;
    PairsCount(e, inner.Keys);
    forall p: Pair
      ensures p in Flat(bs[e := inner]) <==> p in Flat(bs) || p in PairsOf(e, inner.Keys)
      ensures !(p in Flat(bs) && p in PairsOf(e, inner.Keys))
    {
      OnePair(bs, e, inner, p);
    }
    DisjointSum(Flat(bs[e := inner]).Keys, Flat(bs).Keys, PairsOf(e, inner.Keys));
  }

  ghost function PairsOf(e: Bytes, qs: set<Bytes>): set<Pair> {
    set q | q in qs :: (e, q)
  }

  lemma {:induction false} OnePair(bs: BindingMap, e: Bytes, inner: map<Bytes, Binding>, p: Pair)
    requires e !in bs
    ensures p in Flat(bs[e := inner]) <==> p in Flat(bs) || p in PairsOf(e, inner.Keys)
    ensures !(p in Flat(bs) && p in PairsOf(e, inner.Keys))
  {
    hide Flat;
    assert p == (p.0, p.1);
    FlatHas(bs, p.0, p.1);
    FlatHas(bs[e := inner], p.0, p.1);
  }

  lemma {:induction false} DisjointSum(all: set<Pair>, less: set<Pair>, more: set<Pair>)
    requires forall p :: p in all <==> p in less || p in more
    requires forall p :: !(p in less && p in more)
    ensures |all| == |less| + |more|
  {
    assert all == less + more;
  }
}
