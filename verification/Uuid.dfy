/** `UUIDHelper`: eight random bytes, then the process-wide sequence number, all in fixed-width hex. */
module Uuid {
  import opened Basics

  const DASH: Byte := 45

  /** Lower-case hex digit. */
  function HexDigit(n: nat): Byte
    requires n < 16
  {
    if n < 10 then (48 + n) as Byte else (87 + n) as Byte
  }

  /** setw(2), setfill('0'), hex. */
  function Hex(n: nat): (h: Bytes)
    requires n < 256
    ensures |h| == 2
  {
    [HexDigit(n / 16), HexDigit(n % 16)]
  }

  lemma {:induction false} HexDistinct(n: nat, m: nat)
    requires n < 256 && m < 256 && Hex(n) == Hex(m)
    ensures n == m
  {
    assert Hex(n)[0] == Hex(m)[0] && Hex(n)[1] == Hex(m)[1];
    assert n == n / 16 * 16 + n % 16 && m == m / 16 * 16 + m % 16;
  }

  /** (num >> (8 * i)) & 0xff */
  function ByteAt(num: nat, i: nat): (b: nat)
    ensures b < 256
  {
    num / Pow256(i) % 256
  }

  /** The first i bytes of the random part; dashes follow the fourth, the sixth and the eighth. */
  function Head(random: seq<Byte>, i: nat): Bytes
    requires i <= |random|
  {
    if i == 0 then []
    else Head(random, i - 1) + Hex(random[i - 1] as nat) + (if i == 4 || i == 6 || i == 8 then [DASH] else [])
  }

  /** Bytes i - 1 down to 0 of the number; a dash follows byte 6. */
  function Tail(num: nat, i: nat): Bytes {
    if i == 0 then [] else Hex(ByteAt(num, i - 1)) + (if i == 7 then [DASH] else []) + Tail(num, i - 1)
  }

  function Format(random: seq<Byte>, num: nat): Bytes
    requires |random| == 8
  {
    Head(random, 8) + Tail(num, 8)
  }

  class UuidHelper {
    var next: nat

    constructor ()
      ensures next == 1
    {
      next := 1;
    }

    /** The random bytes are whatever the generator draws. */
    method Uuid(random: seq<Byte>) returns (id: Bytes)
      requires |random| == 8 && next < TWO_64
      modifies this
      ensures id == Format(random, old(next)) && next == (old(next) + 1) % TWO_64
    {
      hide Hex, ByteAt, Tail;
      id := [];
      for i := 0 to 8
        invariant id == Head(random, i) && next == old(next)
      {
        id := id + Hex(random[i] as nat);
        if i == 3 || i == 5 || i == 7 {
          id := id + [DASH];
        }
      }
      var num := next;
      next := (next + 1) % TWO_64;
      id := AppendNumber(id, num);
    }

    method AppendNumber(head: Bytes, num: nat) returns (id: Bytes)
      ensures id == head + Tail(num, 8)
    {
      hide Hex, ByteAt;
      id := head;
      for i := 8 downto 0
        invariant id + Tail(num, i) == head + Tail(num, 8)
      {
        id := id + Hex(ByteAt(num, i));
        if i == 6 {
          id := id + [DASH];
        }
      }
    }
  }

  // ---- distinctness ----

  lemma {:induction false} TailLength(num: nat, i: nat)
    ensures |Tail(num, i)| == 2 * i + (if i >= 7 then 1 else 0)
  {
    if i > 0 {
      TailLength(num, i - 1);
    }
  }

  lemma {:induction false} HeadLength(random: seq<Byte>, i: nat)
    requires i <= |random| && i <= 8
    ensures |Head(random, i)| == 2 * i + (if i == 8 then 3 else if i >= 6 then 2 else if i >= 4 then 1 else 0)
  {
    if i > 0 {
      HeadLength(random, i - 1);
    }
  }

  /** A number modulo 256 p is its byte at p over its remainder below. */
  lemma {:induction false} ModSplit(x: nat, p: nat)
    requires p > 0
    ensures x % (256 * p) == x / p % 256 * p + x % p
  {
    var a, r := x / p, x % p;
    var b, d := a / 256, a % 256;
    var n := 256 * p;
    assert a == 256 * b + d;
    assert a * p == b * n + d * p;
    assert x == b * n + (d * p + r);
    MulMonotone(d + 1, 256, p);
    MulMonotone(d, d, p);
    DivIs(x, n, b);
  }

  lemma {:induction false} TailDistinct(num: nat, num': nat, i: nat)
    requires Tail(num, i) == Tail(num', i)
    ensures num % Pow256(i) == num' % Pow256(i)
  {
    if i > 0 {
      var a, b := Tail(num, i), Tail(num', i);
      var n := if i == 7 then 3 else 2;
      HeadOfTail(num, i);
      HeadOfTail(num', i);
      assert a[..2] == b[..2] && a[n..] == b[n..];
      HexDistinct(ByteAt(num, i - 1), ByteAt(num', i - 1));
      TailDistinct(num, num', i - 1);
      ModSplit(num, Pow256(i - 1));
      ModSplit(num', Pow256(i - 1));
    }
  }

  lemma {:induction false} HeadOfTail(num: nat, i: nat)
    requires i > 0
    ensures var n := if i == 7 then 3 else 2;
            |Tail(num, i)| >= n && Tail(num, i)[..2] == Hex(ByteAt(num, i - 1)) && Tail(num, i)[n..] == Tail(num, i - 1)
  {
    hide Hex;
  }

  lemma {:induction false} Pow256Is()
    ensures Pow256(8) == TWO_64
  {
    assert Pow256(4) == 0x1_0000_0000;
    assert Pow256(8) == 256 * (256 * (256 * (256 * Pow256(4))));
  }

  /** Ids drawn in one process are all of one length, and differ whenever their sequence numbers do,
      whatever the random bytes. */
  lemma {:induction false} IdsDistinct(random: seq<Byte>, num: nat, random': seq<Byte>, num': nat)
    requires |random| == |random'| == 8 && num < TWO_64 && num' < TWO_64
    ensures |Format(random, num)| == 36
    ensures num != num' ==> Format(random, num) != Format(random', num')
  {
    hide Head, Tail, Pow256;
    HeadLength(random, 8);
    HeadLength(random', 8);
    TailLength(num, 8);
    if Format(random, num) == Format(random', num') {
      assert Tail(num, 8) == Format(random, num)[19..] && Tail(num', 8) == Format(random', num')[19..];
      TailDistinct(num, num', 8);
      Pow256Is();
    }
  }

  // ---- layout ----

  /** Two hexadecimal digits, lower case, the high one first. */
  lemma {:induction false} HexIs(n: nat)
    requires n < 256
    ensures Hex(n)[0] as char == "0123456789abcdef"[n / 16] && Hex(n)[1] as char == "0123456789abcdef"[n % 16]
  {
  }

  /** Where random byte i stands. */
  function RandomPlace(i: nat): nat {
    2 * i + if i < 4 then 0 else if i < 6 then 1 else 2
  }

  /** Where byte i of the number stands, in a string of the lowest n bytes. */
  function NumberPlace(n: nat, i: nat): int {
    2 * (n - 1 - i) + if n >= 7 && i < 6 then 1 else 0
  }

  lemma {:induction false} HeadAt(random: seq<Byte>, n: nat, i: nat)
    requires i < n <= |random| && n <= 8
    ensures RandomPlace(i) + 2 <= |Head(random, n)|
    ensures Head(random, n)[RandomPlace(i)..RandomPlace(i) + 2] == Hex(random[i] as nat)
    ensures n >= 4 ==> |Head(random, n)| > 8 && Head(random, n)[8] == 45
    ensures n >= 6 ==> |Head(random, n)| > 13 && Head(random, n)[13] == 45
    ensures n == 8 ==> |Head(random, n)| > 18 && Head(random, n)[18] == 45
  {
    hide Hex;
    HeadLength(random, n - 1);
    HeadLength(random, n);
    if i < n - 1 {
      HeadAt(random, n - 1, i);
    } else if n > 1 {
      HeadAt(random, n - 1, 0);
    }
  }

  lemma {:induction false} TailAt(num: nat, n: nat, i: nat)
    requires i < n <= 8
    ensures 0 <= NumberPlace(n, i) <= |Tail(num, n)| - 2
    ensures Tail(num, n)[NumberPlace(n, i)..NumberPlace(n, i) + 2] == Hex(ByteAt(num, i))
    ensures n == 7 ==> |Tail(num, n)| > 2 && Tail(num, n)[2] == 45
    ensures n == 8 ==> |Tail(num, n)| > 4 && Tail(num, n)[4] == 45
  {
    hide Hex, ByteAt;
    TailLength(num, n - 1);
    TailLength(num, n);
    if n == 8 {
      TailAt(num, 7, 0);
    }
    if i < n - 1 {
      TailAt(num, n - 1, i);
    }
  }

  /** The id: random bytes, then the number's bytes from the most significant, two digits each, with dashes at
      8, 13, 18 and 23. */
  lemma {:induction false} IdLayout(random: seq<Byte>, num: nat, i: nat)
    requires |random| == 8 && i < 8
    ensures var id := Format(random, num);
            && |id| == 36 && id[8] == id[13] == id[18] == id[23] == 45
            && id[RandomPlace(i)..RandomPlace(i) + 2] == Hex(random[i] as nat)
            && 0 <= NumberPlace(8, i)
            && id[19 + NumberPlace(8, i)..21 + NumberPlace(8, i)] == Hex(num / Pow256(i) % 256)
  {
    hide Hex, Head, Tail, Pow256;
    HeadLength(random, 8);
    TailLength(num, 8);
    HeadAt(random, 8, i);
    TailAt(num, 8, i);
  }
}
