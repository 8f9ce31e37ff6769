/** Consumers of a queue: a list with distinct tags, handed out round robin by a 64-bit sequence number. */
module Consumers {
  import opened Basics

  datatype Consumer = Consumer(tag: Bytes, qname: Bytes, autoAck: bool)

  datatype Ring = Ring(consumers: seq<Consumer>, next: nat)

  const EMPTY_RING := Ring([], 0)

  ghost predicate DistinctTags(cs: seq<Consumer>) {
    forall i, j | 0 <= i < j < |cs| :: cs[i].tag != cs[j].tag
  }

  predicate HasTag(cs: seq<Consumer>, tag: Bytes) {
    exists i :: 0 <= i < |cs| && cs[i].tag == tag
  }

  /** The list without the consumer of a tag; the others keep their order. */
  function Without(cs: seq<Consumer>, tag: Bytes): seq<Consumer> {
    if cs == [] then []
    else if cs[0].tag == tag then Without(cs[1..], tag)
    else [cs[0]] + Without(cs[1..], tag)
  }

  lemma {:induction false} WithoutAbsent(cs: seq<Consumer>, tag: Bytes)
    requires !HasTag(cs, tag)
    ensures Without(cs, tag) == cs
  {
    if cs != [] {
      assert cs[0].tag != tag;
      forall i | 0 <= i < |cs[1..]| ensures cs[1..][i].tag != tag {
        assert cs[1..][i] == cs[i + 1];
      }
      WithoutAbsent(cs[1..], tag);
    }
  }

  /** Erasing the first match erases every match, since tags are distinct. */
  lemma {:induction false} WithoutFirst(cs: seq<Consumer>, i: nat)
    requires DistinctTags(cs) && i < |cs|
    ensures Without(cs, cs[i].tag) == cs[..i] + cs[i + 1..]
  {
    if i == 0 {
      WithoutAbsent(cs[1..], cs[0].tag);
    } else {
      WithoutFirst(cs[1..], i - 1);
      assert cs[0].tag != cs[i].tag;
      assert cs[..i] + cs[i + 1..] == [cs[0]] + (cs[1..][..i - 1] + cs[1..][i..]);
    }
  }

  class QueueConsumer {
    var next: nat
    var consumers: seq<Consumer>

    ghost predicate Valid()
      reads this
    {
      DistinctTags(consumers) && next < TWO_64
    }

    ghost function View(): Ring
      reads this
    {
      Ring(consumers, next)
    }

    constructor ()
      ensures Valid() && View() == EMPTY_RING
    {
      next, consumers := 0, [];
    }

    /** None, and no change, when the tag is taken. */
    method Create(tag: Bytes, qname: Bytes, autoAck: bool) returns (c: Option<Consumer>)
      requires Valid()
      modifies this
      ensures Valid() && next == old(next)
      ensures c == if HasTag(old(consumers), tag) then None else Some(Consumer(tag, qname, autoAck))
      ensures consumers == if c.None? then old(consumers) else old(consumers) + [c.value]
    {
      for i := 0 to |consumers|
        invariant forall j | 0 <= j < i :: consumers[j].tag != tag
        invariant consumers == old(consumers) && next == old(next)
      {
        if consumers[i].tag == tag {
          return None;
        }
      }
      var consumer := Consumer(tag, qname, autoAck);
      consumers := consumers + [consumer];
      return Some(consumer);
    }

    method Remove(tag: Bytes)
      requires Valid()
      modifies this
      ensures Valid() && consumers == Without(old(consumers), tag) && next == old(next)
      ensures !HasTag(consumers, tag)
    {
      for i := 0 to |consumers|
        invariant forall j | 0 <= j < i :: consumers[j].tag != tag
        invariant consumers == old(consumers) && next == old(next)
      {
        if consumers[i].tag == tag {
          WithoutFirst(consumers, i);
          consumers := consumers[..i] + consumers[i + 1..];
          return;
        }
      }
      WithoutAbsent(consumers, tag);
    }

    method Choose() returns (c: Option<Consumer>)
      requires Valid()
      modifies this
      ensures Valid() && consumers == old(consumers)
      ensures consumers == [] ==> c == None && next == old(next)
      ensures consumers != [] ==> c == Some(consumers[old(next) % |consumers|]) && next == Next(old(next))
    {
      if |consumers| == 0 {
        return None;
      }
      var idx := next % |consumers|;
      next := Next(next);
      return Some(consumers[idx]);
    }

    method Clear()
      modifies this
      ensures Valid() && View() == EMPTY_RING
    {
      consumers, next := [], 0;
    }
  }

  /** One consumer list per queue. */
  class ConsumerManager {
    var queues: map<Bytes, QueueConsumer>

    ghost predicate Valid()
      reads this, queues.Values
    {
      && (forall n | n in queues :: queues[n].Valid())
      && (forall n, k | n in queues && k in queues && n != k :: queues[n] != queues[k])
    }

    ghost function View(): map<Bytes, Ring>
      reads this, queues.Values
    {
      map n | n in queues :: queues[n].View()
    }

    constructor ()
      ensures Valid() && View() == map[] && queues == map[]
    {
      queues := map[];
    }

    /** An open list stays as it is. */
    method InitQueueConsumer(qname: Bytes)
      requires Valid()
      modifies this
      ensures Valid() && View() == if qname in old(View()) then old(View()) else old(View())[qname := EMPTY_RING]
      ensures fresh(queues.Values - old(queues.Values))
    {
      if qname !in queues {
        var q := new QueueConsumer();
        queues := queues[qname := q];
      }
    }

    method DestroyQueueConsumer(qname: Bytes)
      requires Valid()
      modifies this
      ensures Valid() && View() == old(View()) - {qname}
      ensures queues.Values <= old(queues.Values)
    {
      queues := queues - {qname};
    }

    method Create(tag: Bytes, qname: Bytes, autoAck: bool) returns (c: Option<Consumer>)
      requires Valid()
      modifies queues.Values
      ensures Valid()
      ensures c.Some? <==> qname in old(View()) && !HasTag(old(View())[qname].consumers, tag)
      ensures c.Some? ==> c.value == Consumer(tag, qname, autoAck)
      ensures View() == if c.None? then old(View())
        else old(View())[qname := Ring(old(View())[qname].consumers + [c.value], old(View())[qname].next)]
    {
      hide HasTag, DistinctTags;
      if qname !in queues {
        return None;
      }
      c := queues[qname].Create(tag, qname, autoAck);
    }

    method Remove(tag: Bytes, qname: Bytes)
      requires Valid()
      modifies queues.Values
      ensures Valid()
      ensures View() == if qname !in old(View()) then old(View())
        else old(View())[qname := Ring(Without(old(View())[qname].consumers, tag), old(View())[qname].next)]
    {
      hide HasTag, DistinctTags, Without;
      if qname in queues {
        queues[qname].Remove(tag);
      }
    }

    method Choose(qname: Bytes) returns (c: Option<Consumer>)
      requires Valid()
      modifies queues.Values
      ensures Valid()
      ensures c == ChosenAt(old(View()), qname).0 && View() == ChosenAt(old(View()), qname).1
    {
      hide DistinctTags, Next;
      if qname !in queues {
        return None;
      }
      c := queues[qname].Choose();
    }
  }

  /** Whose turn it is, and the lists after it; nobody when there is no list or an empty one. */
  function ChosenAt(view: map<Bytes, Ring>, qname: Bytes): (Option<Consumer>, map<Bytes, Ring>) {
    if qname !in view || view[qname].consumers == [] then (None, view)
    else
      var r := view[qname];
      (Some(r.consumers[r.next % |r.consumers|]), view[qname := r.(next := Next(r.next))])
  }

  // ---- fairness ----

  /** uint64_t increment. */
  function Next(s: nat): nat {
    (s + 1) % TWO_64
  }

  /** What k calls of `choose` in a row hand out while the list stays the same. */
  function Chosen(r: Ring, k: nat): seq<Consumer>
    requires r.consumers != []
    decreases k
  {
    if k == 0 then []
    else [r.consumers[r.next % |r.consumers|]] + Chosen(r.(next := Next(r.next)), k - 1)
  }

  /** How often index c comes up in k calls from sequence number s, among n consumers. */
  function Count(n: nat, s: nat, k: nat, c: nat): nat
    requires n > 0
    decreases k
  {
    if k == 0 then 0 else (if s % n == c then 1 else 0) + Count(n, Next(s), k - 1, c)
  }

  lemma {:induction false} ChosenCount(r: Ring, k: nat, c: nat)
    requires DistinctTags(r.consumers) && c < |r.consumers|
    ensures multiset(Chosen(r, k))[r.consumers[c]] == Count(|r.consumers|, r.next, k, c)
    decreases k
  {
    if k > 0 {
      var x := r.next % |r.consumers|;
      ChosenCount(r.(next := Next(r.next)), k - 1, c);
      assert r.consumers[x] == r.consumers[c] <==> x == c;
    }
  }

  /** How many numbers below x leave remainder c. */
  function Below(n: nat, x: nat, c: nat): int
    requires c < n
  {
    (x + n - 1 - c) / n
  }

  lemma {:induction false} BelowNext(n: nat, x: nat, c: nat)
    requires c < n
    ensures Below(n, x + 1, c) == Below(n, x, c) + (if x % n == c then 1 else 0)
  {
    var q, r := x / n, x % n;
    assert x == q * n + r;
    if r < c {
      DivIs(x + n - 1 - c, n, q);
      DivIs(x + n - c, n, q);
    } else if r == c {
      DivIs(x + n - 1 - c, n, q);
      assert (q + 1) * n == q * n + n;
      DivIs(x + n - c, n, q + 1);
    } else {
      assert (q + 1) * n == q * n + n;
      DivIs(x + n - 1 - c, n, q + 1);
      DivIs(x + n - c, n, q + 1);
    }
  }

  /** A stretch of k consecutive numbers holds each remainder k/n or k/n + 1 times. */
  lemma {:induction false} StretchEven(n: nat, x: nat, k: nat, c: nat)
    requires c < n
    ensures k / n <= Below(n, x + k, c) - Below(n, x, c) <= k / n + 1
  {
    var a := x + n - 1 - c;
    var qa, ra, qk, rk := a / n, a % n, k / n, k % n;
    assert a == qa * n + ra && k == qk * n + rk;
    assert (qa + qk) * n == qa * n + qk * n;
    if ra + rk < n {
      DivIs(a + k, n, qa + qk);
    } else {
      assert (qa + qk + 1) * n == (qa + qk) * n + n;
      DivIs(a + k, n, qa + qk + 1);
    }
  }

  lemma {:induction false} ModNext(n: nat, x: nat, y: nat)
    requires n > 0 && x % n == y % n
    ensures (x + 1) % n == (y + 1) % n
  {
    var q, p, r := x / n, y / n, x % n;
    assert x == q * n + r && y == p * n + r;
    if r + 1 < n {
      DivIs(x + 1, n, q);
      DivIs(y + 1, n, p);
    } else {
      assert (q + 1) * n == q * n + n && (p + 1) * n == p * n + n;
      DivIs(x + 1, n, q + 1);
      DivIs(y + 1, n, p + 1);
    }
  }

  /** While the sequence number does not wrap, or the wrap does not show modulo n, calls walk along a stretch. */
  lemma {:induction false} CountIsStretch(n: nat, s: nat, x: nat, k: nat, c: nat)
    requires c < n && s < TWO_64 && s % n == x % n
    requires s + k <= TWO_64 || TWO_64 % n == 0
    ensures Count(n, s, k, c) == Below(n, x + k, c) - Below(n, x, c)
    decreases k
  {
    if k > 0 {
      BelowNext(n, x, c);
      ModNext(n, s, x);
      if s + 1 == TWO_64 {
        assert Next(s) == 0;
        assert 0 % n == 0;
        if k > 1 {
          CountIsStretch(n, 0, x + 1, k - 1, c);
        }
      } else {
        assert Next(s) == s + 1;
        CountIsStretch(n, s + 1, x + 1, k - 1, c);
      }
    }
  }

  /** Each of n consumers is chosen k/n or k/n + 1 times. */
  ghost predicate Fair(n: nat, s: nat, k: nat)
    requires n > 0
  {
    forall c | 0 <= c < n :: k / n <= Count(n, s, k, c) <= k / n + 1
  }

  lemma {:induction false} FairBeforeWrap(n: nat, s: nat, k: nat)
    requires n > 0 && s < TWO_64 && (s + k <= TWO_64 || TWO_64 % n == 0)
    ensures Fair(n, s, k)
  {
    forall c | 0 <= c < n ensures k / n <= Count(n, s, k, c) <= k / n + 1 {
      CountIsStretch(n, s, s, k, c);
      StretchEven(n, s, k, c);
    }
  }

  /** Over k calls in a row before the sequence number wraps, any two consumers' counts differ by at most one. */
  lemma {:induction false} RoundRobinFair(r: Ring, k: nat, a: Consumer, b: Consumer)
    requires DistinctTags(r.consumers) && r.next + k <= TWO_64 && r.next < TWO_64
    requires a in r.consumers && b in r.consumers
    ensures multiset(Chosen(r, k))[a] <= multiset(Chosen(r, k))[b] + 1
  {
    var i, j :| 0 <= i < |r.consumers| && r.consumers[i] == a && 0 <= j < |r.consumers| && r.consumers[j] == b;
    ChosenCount(r, k, i);
    ChosenCount(r, k, j);
    FairBeforeWrap(|r.consumers|, r.next, k);
  }

  lemma {:induction false} NextIs(s: nat)
    requires s < TWO_64
    ensures Next(s) == if s + 1 == TWO_64 then 0 else s + 1
  {
  }

  /** One more call after the last sequence number starts again at zero. */
  lemma {:induction false} CountOverWrap(n: nat, s: nat, k: nat, c: nat)
    requires n > 0 && k > 0 && s + k == TWO_64
    ensures Count(n, s, k + 1, c) == Count(n, s, k, c) + Count(n, 0, 1, c)
    decreases k
  {
    hide Next;
    NextIs(s);
    if k > 1 {
      CountOverWrap(n, s + 1, k - 1, c);
    } else {
      assert Count(n, s, 2, c) == (if s % n == c then 1 else 0) + Count(n, 0, 1, c);
      assert Count(n, s, 1, c) == (if s % n == c then 1 else 0) + Count(n, 0, 0, c);
    }
  }

  /** The last calls before the wrap, from a multiple of n: consumer 0 had a turn, consumer n - 1 had none. */
  lemma {:induction false} LastStretch(n: nat, q: nat, r: nat)
    requires 0 < r < n && q * n + r == TWO_64
    ensures Count(n, q * n, r, 0) == 1 && Count(n, q * n, r, n - 1) == 0
  {
    var s := q * n;
    CountIsStretch(n, s, s, r, 0);
    CountIsStretch(n, s, s, r, n - 1);
    MulMonotone(q, q, n);
    DivIs(s + n - 1, n, q);
    DivIs(s + r + n - 1, n, q + 1);
    DivIs(s, n, q);
    DivIs(s + r, n, q);
  }

  /** When n does not divide 2^64 the wrap serves consumer 0 again before consumer n - 1 had its turn. */
  lemma {:induction false} WrapUnfair(n: nat)
    requires n > 0 && TWO_64 % n != 0
    ensures var r := TWO_64 % n;
            Count(n, TWO_64 - r, r + 1, 0) == 2 && Count(n, TWO_64 - r, r + 1, n - 1) == 0
  {
    var q, r := TWO_64 / n, TWO_64 % n;
    assert TWO_64 == q * n + r;
    LastStretch(n, q, r);
    var s := TWO_64 - r;
    forall c: nat ensures Count(n, s, r + 1, c) == Count(n, s, r, c) + (if c == 0 then 1 else 0) {
      CountOverWrap(n, s, r, c);
      AtZero(n, c);
    }
  }

  lemma {:induction false} AtZero(n: nat, c: nat)
    requires n > 0
    ensures Count(n, 0, 1, c) == if c == 0 then 1 else 0
  {
    assert Count(n, Next(0), 0, c) == 0;
    DivIs(0, n, 0);
  }

  lemma {:induction false} UnfairOnce(n: nat)
    requires n > 0 && TWO_64 % n != 0
    ensures TWO_64 - TWO_64 % n < TWO_64 && !Fair(n, TWO_64 - TWO_64 % n, TWO_64 % n + 1)
  {
    hide Count;
    WrapUnfair(n);
    var k := TWO_64 % n + 1;
    DivIs(k, n, if k == n then 1 else 0);
  }

  /** So the rotation is fair for ever exactly when the number of consumers divides 2^64. */
  lemma {:induction false} FairForEverExactly(n: nat)
    requires n > 0
    ensures (forall s: nat, k: nat | s < TWO_64 :: Fair(n, s, k)) <==> TWO_64 % n == 0
  {
    hide Fair;
    if TWO_64 % n == 0 {
      forall s: nat, k: nat | s < TWO_64 ensures Fair(n, s, k) {
        FairBeforeWrap(n, s, k);
      }
    } else {
      UnfairOnce(n);
    }
  }
}
