/** Shared vocabulary: octets, the byte strings the broker works on, and Option. */
module Basics {

  newtype Byte = x: int | 0 <= x < 256

  /** A C++ std::string: any sequence of octets. */
  type Bytes = seq<Byte>

  datatype Option<+T> = None | Some(value: T)

  /** s after the bytes x are written at an offset: bytes there are replaced, the end is extended
      when x reaches past it, and a gap before the offset reads as zeros. Writing nothing changes nothing. */
  function Overwrite(s: Bytes, at: nat, x: Bytes): (r: Bytes)
    ensures at + |x| <= |s| ==> |r| == |s|
  {
    if x == [] then s
    else
      (if at <= |s| then s[..at] else s + seq(at - |s|, _ => 0))
      + x
      + (if at + |x| <= |s| then s[at + |x|..] else [])
  }

  /** Two adjacent writes are one write of both pieces. */
  lemma {:induction false} OverwriteTwice(s: Bytes, at: nat, x: Bytes, y: Bytes)
    requires at <= |s|
    ensures Overwrite(Overwrite(s, at, x), at + |x|, y) == Overwrite(s, at, x + y)
  {
    var t, u := Overwrite(s, at, x), Overwrite(s, at, x + y);
    assert t[..at + |x|] == s[..at] + x;
    if at + |x| + |y| <= |s| {
      assert t[at + |x| + |y|..] == s[at + |x| + |y|..];
    }
  }

  lemma {:induction false} OverwriteNothing(s: Bytes, at: nat)
    ensures Overwrite(s, at, []) == s
  {
  }

  lemma {:induction false} ConcatAssociates<T>(a: seq<T>, b: seq<T>, c: seq<T>)
    ensures a + (b + c) == a + b + c
  {
  }

  lemma {:induction false} ConcatNothing<T>(a: seq<T>)
    ensures a + [] == a && [] + a == a
  {
  }

  const TWO_64: nat := 0x1_0000_0000_0000_0000

  // ---- powers of 256, and division ----

  function Pow256(i: nat): (p: nat)
    ensures p > 0
  {
    if i == 0 then 1 else 256 * Pow256(i - 1)
  }

  lemma {:induction false} MulMonotone(a: int, b: int, n: nat)
    ensures a <= b ==> a * n <= b * n
    ensures (a + 1) * n == a * n + n
  {
    if a <= b {
      assert (b - a) * n >= 0;
      assert b * n == a * n + (b - a) * n;
    }
  }

  lemma {:induction false} DivIs(x: int, n: nat, q: int)
    requires n > 0 && q * n <= x < q * n + n
    ensures x / n == q && x % n == x - q * n
  {
    assert x == (x / n) * n + x % n;
    MulMonotone(q, q, n);
    MulMonotone(q + 1, x / n, n);
    MulMonotone(x / n, q, n);
    MulMonotone(x / n + 1, q, n);
  }
}
