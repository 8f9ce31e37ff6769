/** The args column of exchanges and queues: `getArgs`/`setArgs` with percent-encoded tokens
    (sections 2.1 and 2.3 of RFC 3986). The same code serves both entities. */
module ArgsCodec {
  import opened Basics
  import opened StrHelper

  type Args = map<Bytes, Bytes>

  const AMP: Byte := 38      // "&"
  const EQUALS: Byte := 61   // "="
  const PERCENT: Byte := 37  // "%"

  // ---- tokens ----

  /** The unreserved characters: letters, digits, "-", "_", "." and "~". */
  predicate IsUnreserved(ch: Byte) {
    48 <= ch <= 57 || 65 <= ch <= 90 || 97 <= ch <= 122 || ch == 45 || ch == 95 || ch == 46 || ch == 126
  }

  function HexDigit(n: Byte): (c: Byte)
    requires n < 16
    ensures HexToInt(c) == n as int && IsUnreserved(c)
  {
    if n < 10 then 48 + n else 55 + n
  }

  /** -1 for a byte that is no hexadecimal digit. */
  function HexToInt(c: Byte): (v: int)
    ensures -1 <= v < 16
  {
    if 48 <= c <= 57 then (c - 48) as int
    else if 97 <= c <= 102 then (c - 87) as int
    else if 65 <= c <= 70 then (c - 55) as int
    else -1
  }

  function EncodeByte(ch: Byte): Bytes {
    if IsUnreserved(ch) then [ch] else [PERCENT, HexDigit(ch / 16), HexDigit(ch % 16)]
  }

  function EncodeToken(s: Bytes): Bytes {
    if s == [] then [] else EncodeByte(s[0]) + EncodeToken(s[1..])
  }

  predicate IsEscape(s: Bytes) {
    |s| > 2 && s[0] == PERCENT && HexToInt(s[1]) >= 0 && HexToInt(s[2]) >= 0
  }

  function Unescape(s: Bytes): Byte
    requires IsEscape(s)
  {
    (HexToInt(s[1]) * 16 + HexToInt(s[2])) as Byte
  }

  /** A percent sign not followed by two hexadecimal digits stands for itself. */
  function DecodeToken(s: Bytes): Bytes {
    if s == [] then []
    else if IsEscape(s) then [Unescape(s)] + DecodeToken(s[3..])
    else [s[0]] + DecodeToken(s[1..])
  }

  method EncodeArgToken(input: Bytes) returns (out: Bytes)
    ensures out == EncodeToken(input)
  {
    hide *;
    out := [];
    EncodeEnd(input);
    for i := 0 to |input|
      invariant out + EncodeToken(input[i..]) == EncodeToken(input)
    {
      EncodeStep(input, i);
      EncodeByteIs(input[i]);
      ConcatAssociates(out, EncodeByte(input[i]), EncodeToken(input[i + 1..]));
      var ch := input[i];
      if IsUnreserved(ch) {
        out := out + [ch];
      } else {
        out := out + [PERCENT, HexDigit(ch / 16), HexDigit(ch % 16)];
      }
    }
    ConcatNothing(out);
  }

  lemma {:induction false} EncodeByteIs(ch: Byte)
    ensures EncodeByte(ch)
         == if IsUnreserved(ch) then [ch] else [PERCENT, HexDigit(ch / 16), HexDigit(ch % 16)]
  {
    hide IsUnreserved, HexDigit;
  }

  lemma {:induction false} EncodeStep(s: Bytes, i: nat)
    requires i < |s|
    ensures EncodeToken(s[i..]) == EncodeByte(s[i]) + EncodeToken(s[i + 1..])
  {
    assert s[i..][1..] == s[i + 1..];
  }

  lemma {:induction false} EncodeEnd(s: Bytes)
    ensures EncodeToken(s[|s|..]) == [] && s[0..] == s && [] + EncodeToken(s) == EncodeToken(s)
  {
  }

  method DecodeArgToken(input: Bytes) returns (out: Bytes)
    ensures out == DecodeToken(input)
  {
    hide HexToInt, IsEscape, DecodeToken;
    out := [];
    assert input[0..] == input;
    DecodeEnd(input);
    var i := 0;
    while i < |input|
      invariant 0 <= i <= |input|
      invariant out + DecodeToken(input[i..]) == DecodeToken(input)
    {
      DecodeStep(input, i);
      var ch := input[i];
      if ch == PERCENT && i + 2 < |input| {
        var hi, lo := HexToInt(input[i + 1]), HexToInt(input[i + 2]);
        if hi >= 0 && lo >= 0 {
          out := out + [(hi * 16 + lo) as Byte];
          i := i + 3;
          continue;
        }
      }
      out := out + [ch];
      i := i + 1;
    }
  }

  lemma {:induction false} DecodeEnd(s: Bytes)
    ensures DecodeToken(s[|s|..]) == []
  {
  }

  lemma {:induction false} DecodeStep(s: Bytes, i: nat)
    requires i < |s|
    ensures IsEscape(s[i..]) <==>
      s[i] == PERCENT && i + 2 < |s| && HexToInt(s[i + 1]) >= 0 && HexToInt(s[i + 2]) >= 0
    ensures IsEscape(s[i..]) ==>
      DecodeToken(s[i..]) == [(HexToInt(s[i + 1]) * 16 + HexToInt(s[i + 2])) as Byte] + DecodeToken(s[i + 3..])
    ensures !IsEscape(s[i..]) ==> DecodeToken(s[i..]) == [s[i]] + DecodeToken(s[i + 1..])
  {
    if IsEscape(s[i..]) {
      assert s[i..][3..] == s[i + 3..];
    } else {
      assert s[i..][1..] == s[i + 1..];
    }
  }

  // ---- tokens undo each other ----

  lemma {:induction false} DecodeEncodedByte(ch: Byte, rest: Bytes)
    ensures DecodeToken(EncodeByte(ch) + rest) == [ch] + DecodeToken(rest)
  {
    var s := EncodeByte(ch) + rest;
    if IsUnreserved(ch) {
      assert s[1..] == rest;
    } else {
      assert s[0] == PERCENT && s[1] == HexDigit(ch / 16) && s[2] == HexDigit(ch % 16);
      assert s[3..] == rest;
    }
  }

  /** Decoding gives back every byte string, and an encoded token uses neither "&" nor "=". */
  lemma {:induction false} TokenRoundTrip(s: Bytes)
    ensures DecodeToken(EncodeToken(s)) == s
    ensures forall c | c in EncodeToken(s) :: IsUnreserved(c) || c == PERCENT
    ensures AMP !in EncodeToken(s) && EQUALS !in EncodeToken(s)
  {
    if s != [] {
      TokenRoundTrip(s[1..]);
      DecodeEncodedByte(s[0], EncodeToken(s[1..]));
    }
  }

  // ---- the whole column ----

  /** One `key=value` word of the column: words without "=" or with an empty key are skipped. */
  function Assign(args: Args, w: Bytes): Args {
    match Find(w, [EQUALS], 0)
    case None => args
    case Some(pos) =>
      var key, val := DecodeToken(w[..pos]), DecodeToken(w[pos + 1..]);
      if key == [] then args else args[key := val]
  }

  function AssignAll(args: Args, ws: seq<Bytes>): Args
    decreases |ws|
  {
    if ws == [] then args else AssignAll(Assign(args, ws[0]), ws[1..])
  }

  function ArgsOf(column: Bytes): Args {
    AssignAll(map[], Words(column, [AMP]))
  }

  /** `setArgs`. */
  method SetArgs(column: Bytes) returns (args: Args)
    ensures args == ArgsOf(column)
  {
    args := map[];
    var words, n := Split(column, [AMP], []);
    assert words == Words(column, [AMP]);
    assert words[0..] == words;
    hide Words, DecodeToken;
    for i := 0 to |words|
      invariant AssignAll(args, words[i..]) == AssignAll(map[], words)
    {
      assert words[i..][1..] == words[i + 1..];
      var str := words[i];
      var pos := Find(str, [EQUALS], 0);
      if pos == None {
        continue;
      }
      var key := DecodeArgToken(str[..pos.value]);
      var val := DecodeArgToken(str[pos.value + 1..]);
      if key == [] {
        continue;
      }
      args := args[key := val];
    }
  }

  function Pair(k: Bytes, v: Bytes): Bytes {
    EncodeToken(k) + [EQUALS] + EncodeToken(v)
  }

  function Pairs(m: Args, ks: seq<Bytes>): seq<Bytes>
    requires forall k | k in ks :: k in m
  {
    if ks == [] then [] else [Pair(ks[0], m[ks[0]])] + Pairs(m, ks[1..])
  }

  function Render(m: Args, ks: seq<Bytes>): Bytes
    requires forall k | k in ks :: k in m
  {
    Join(Pairs(m, ks), [AMP])
  }

  /** ks lists every key of m once: one possible iteration order of the protobuf map. */
  ghost predicate Enumerates(ks: seq<Bytes>, m: Args) {
    && (forall k :: k in m <==> k in ks)
    && forall i, j | 0 <= i < j < |ks| :: ks[i] != ks[j]
  }

  lemma {:induction false} JoinSnoc(ps: seq<Bytes>, p: Bytes, sep: Bytes)
    ensures Join(ps + [p], sep) == if ps == [] then p else Join(ps, sep) + sep + p
  {
    if ps == [] {
      assert ps + [p] == [p];
    } else {
      assert (ps + [p])[1..] == ps[1..] + [p];
      JoinSnoc(ps[1..], p, sep);
    }
  }

  lemma {:induction false} PairsSnoc(m: Args, ks: seq<Bytes>, k: Bytes)
    requires k in m && forall l | l in ks :: l in m
    ensures Pairs(m, ks + [k]) == Pairs(m, ks) + [Pair(k, m[k])]
  {
    hide Pair;
    if ks == [] {
      assert ks + [k] == [k];
    } else {
      assert (ks + [k])[1..] == ks[1..] + [k];
      PairsSnoc(m, ks[1..], k);
    }
  }

  lemma {:induction false} RenderSnoc(m: Args, ks: seq<Bytes>, k: Bytes)
    requires k in m && forall l | l in ks :: l in m
    ensures forall l | l in ks + [k] :: l in m
    ensures Render(m, ks + [k]) == Render(m, ks) + (if ks == [] then [] else [AMP]) + Pair(k, m[k])
  {
    PairsSnoc(m, ks, k);
    JoinSnoc(Pairs(m, ks), Pair(k, m[k]), [AMP]);
    hide Pair;
  }

  /** ks lists, once each, the keys of m that are not in left. */
  ghost predicate Listed(m: Args, left: set<Bytes>, ks: seq<Bytes>) {
    && (forall k :: k in ks <==> k in m && k !in left)
    && forall i, j | 0 <= i < j < |ks| :: ks[i] != ks[j]
  }

  lemma {:induction false} ListNext(m: Args, left: set<Bytes>, ks: seq<Bytes>, k: Bytes)
    requires left <= m.Keys && k in left && Listed(m, left, ks)
    ensures forall l | l in ks :: l in m
    ensures forall l | l in ks + [k] :: l in m
    ensures Listed(m, left - {k}, ks + [k])
    ensures Render(m, ks + [k]) == Render(m, ks) + (if ks == [] then [] else [AMP]) + Pair(k, m[k])
  {
    RenderSnoc(m, ks, k);
  }

  /** `getArgs`, whatever order the map is iterated in. */
  method GetArgs(m: Args) returns (result: Bytes)
    ensures exists ks :: Enumerates(ks, m) && result == Render(m, ks)
    ensures ArgsOf(result) == m - {[]}
  {
    result := [];
    ghost var ks: seq<Bytes> := [];
    var first := true;
    var left := m.Keys;
    assert Listed(m, left, ks) && Render(m, ks) == [];
    hide EncodeToken, Pairs, Join, Render, Listed, ArgsOf, Enumerates;
    while left != {}
      invariant left <= m.Keys
      invariant Listed(m, left, ks) && forall k | k in ks :: k in m
      invariant first <==> ks == []
      invariant result == Render(m, ks)
      decreases |left|
    {
      var k :| k in left;
      var key := EncodeArgToken(k);
      var val := EncodeArgToken(m[k]);
      ListNext(m, left, ks, k);
      left := left - {k};
      if !first {
        result := result + [AMP];
      }
      first := false;
      result := result + (key + [EQUALS] + val);
      ks := ks + [k];
    }
    AllListed(m, ks);
    ArgsRoundTrip(m, ks);
  }

  lemma {:induction false} AllListed(m: Args, ks: seq<Bytes>)
    requires Listed(m, {}, ks)
    ensures Enumerates(ks, m)
  {
  }

  /** Reading back one rendered pair sets exactly its key, or nothing when the key is empty. */
  lemma {:induction false} AssignPair(args: Args, k: Bytes, v: Bytes)
    ensures Assign(args, Pair(k, v)) == if k == [] then args else args[k := v]
  {
    TokenRoundTrip(k);
    TokenRoundTrip(v);
    var ek, ev := EncodeToken(k), EncodeToken(v);
    FindFirstByte(ek, EQUALS, ev);
    hide Find, DecodeToken, EncodeToken;
    var w := Pair(k, v);
    assert w[..|ek|] == ek && w[|ek| + 1..] == ev;
  }

  /** The entries of m at the listed keys, the empty key left out. */
  ghost function Restrict(m: Args, ks: seq<Bytes>): Args
    requires forall k | k in ks :: k in m
  {
    map k | k in ks && k != [] :: m[k]
  }

  lemma {:induction false} RestrictNone(m: Args)
    ensures Restrict(m, []) == map[]
  {
  }

  lemma {:induction false} RestrictCons(m: Args, ks: seq<Bytes>, args: Args)
    requires ks != [] && forall k | k in ks :: k in m
    ensures args + Restrict(m, ks)
         == (if ks[0] == [] then args else args[ks[0] := m[ks[0]]]) + Restrict(m, ks[1..])
  {
    assert forall k :: k in ks <==> k == ks[0] || k in ks[1..];
  }

  lemma {:induction false} AssignPairs(m: Args, ks: seq<Bytes>, args: Args)
    requires forall k | k in ks :: k in m
    ensures AssignAll(args, Pairs(m, ks)) == args + Restrict(m, ks)
    decreases ks
  {
    hide Assign, Pair, Restrict;
    if ks == [] {
      assert Restrict(m, ks) == map[] by { RestrictNone(m); }
    } else {
      var p, next := Pair(ks[0], m[ks[0]]), if ks[0] == [] then args else args[ks[0] := m[ks[0]]];
      AssignPair(args, ks[0], m[ks[0]]);
      AssignPairs(m, ks[1..], next);
      AssignAllCons(args, p, Pairs(m, ks[1..]));
      RestrictCons(m, ks, args);
    }
  }

  lemma {:induction false} AssignAllCons(args: Args, w: Bytes, ws: seq<Bytes>)
    ensures AssignAll(args, [w] + ws) == AssignAll(Assign(args, w), ws)
  {
    assert ([w] + ws)[1..] == ws;
  }

  lemma {:induction false} PairsAreWords(m: Args, ks: seq<Bytes>)
    requires forall k | k in ks :: k in m
    ensures forall i | 0 <= i < |Pairs(m, ks)| :: Pairs(m, ks)[i] != [] && AMP !in Pairs(m, ks)[i]
  {
    if ks != [] {
      TokenRoundTrip(ks[0]);
      TokenRoundTrip(m[ks[0]]);
      PairsAreWords(m, ks[1..]);
    }
  }

  /** Reading the rendered column gives the map back without its empty key, for every iteration order:
      nothing is lost exactly when no key is empty. */
  lemma {:induction false} ArgsRoundTrip(m: Args, ks: seq<Bytes>)
    requires Enumerates(ks, m)
    ensures (forall k | k in ks :: k in m) && ArgsOf(Render(m, ks)) == m - {[]}
    ensures ArgsOf(Render(m, ks)) == m <==> [] !in m
  {
    hide *;
    RestrictAll(m, ks);
    PairsAreWords(m, ks);
    WordsOfJoin(Pairs(m, ks), AMP);
    AssignPairs(m, ks, map[]);
    ReadBack(m, ks);
  }

  lemma {:induction false} RestrictAll(m: Args, ks: seq<Bytes>)
    requires Enumerates(ks, m)
    ensures (forall k | k in ks :: k in m)
    ensures map[] + Restrict(m, ks) == m - {[]}
    ensures m - {[]} == m <==> [] !in m
  {
    if [] in m {
      assert [] !in m - {[]};
    }
  }

  lemma {:induction false} ReadBack(m: Args, ks: seq<Bytes>)
    requires forall k | k in ks :: k in m
    requires Words(Join(Pairs(m, ks), [AMP]), [AMP]) == Pairs(m, ks)
    ensures ArgsOf(Render(m, ks)) == AssignAll(map[], Pairs(m, ks))
  {
    hide Words, Join, Pairs, AssignAll;
  }

  // ---- the text, byte by byte ----

  /** Which bytes stay: letters, digits, "-", "_", "." and "~". Every other byte becomes a percent sign and two
      hexadecimal digits, upper case, the high one first. */
  lemma {:induction false} EncodedBytes(ch: Byte)
    ensures var c, t := ch as char, EncodeToken([ch]);
            if 'a' <= c <= 'z' || 'A' <= c <= 'Z' || '0' <= c <= '9' || c == '-' || c == '_' || c == '.' || c == '~'
            then t == [ch]
            else
              && |t| == 3 && t[0] as char == '%'
              && t[1] as char == "0123456789ABCDEF"[ch / 16] && t[2] as char == "0123456789ABCDEF"[ch % 16]
  {
    assert [ch][1..] == [];
  }

  /** A token is encoded byte by byte. */
  lemma {:induction false} EncodeConcat(a: Bytes, b: Bytes)
    ensures EncodeToken(a + b) == EncodeToken(a) + EncodeToken(b)
  {
    hide EncodeByte;
    if a == [] {
      assert a + b == b;
    } else {
      assert (a + b)[1..] == a[1..] + b;
      EncodeConcat(a[1..], b);
      ConcatAssociates(EncodeByte(a[0]), EncodeToken(a[1..]), EncodeToken(b));
    }
  }

  /** Digits are read in either case, and nothing else is a digit. */
  lemma {:induction false} HexValues(c: Byte, v: nat)
    requires v < 16
    ensures HexToInt(c) == v <==> c as char == "0123456789abcdef"[v] || c as char == "0123456789ABCDEF"[v]
  {
  }

  /** A percent sign with two digits behind it is the byte they name; any other byte, a lone percent sign included,
      is itself. */
  lemma {:induction false} DecodedBytes(ch: Byte, high: Byte, low: Byte, rest: Bytes)
    ensures HexToInt(high) >= 0 && HexToInt(low) >= 0 ==>
      DecodeToken([37, high, low] + rest) == [(16 * HexToInt(high) + HexToInt(low)) as Byte] + DecodeToken(rest)
    ensures HexToInt(high) < 0 || HexToInt(low) < 0 ==>
      DecodeToken([37, high, low] + rest) == [37] + DecodeToken([high, low] + rest)
    ensures ch != 37 ==> DecodeToken([ch] + rest) == [ch] + DecodeToken(rest)
    ensures DecodeToken([37]) == [37] && DecodeToken([37, high]) == [37] + DecodeToken([high])
  {
    hide HexToInt;
    assert ([37, high, low] + rest)[3..] == rest && ([37, high, low] + rest)[1..] == [high, low] + rest;
    assert ([ch] + rest)[1..] == rest && [37, high][1..] == [high] && [37][1..] == [];
  }

  /** The column: `key=value` pairs with "&" between them. */
  lemma {:induction false} ColumnText(m: Args, ks: seq<Bytes>, k: Bytes)
    requires k in m && forall l | l in ks :: l in m
    ensures Render(m, []) == []
    ensures forall l | l in ks + [k] :: l in m
    ensures Render(m, ks + [k])
         == (if ks == [] then [] else Render(m, ks) + [38]) + (EncodeToken(k) + [61] + EncodeToken(m[k]))
  {
    RenderSnoc(m, ks, k);
    hide EncodeToken;
  }

  /** Reading a word: nothing without "=", and the first "=" ends the key, which must not decode to nothing. */
  lemma {:induction false} ColumnWord(args: Args, k: Bytes, v: Bytes)
    requires 61 !in k
    ensures Assign(args, k) == args
    ensures Assign(args, k + [61] + v)
         == if DecodeToken(k) == [] then args else args[DecodeToken(k) := DecodeToken(v)]
  {
    FindFirstByte(k, 61, v);
    hide DecodeToken;
    var w := k + [61] + v;
    assert w[..|k|] == k && w[|k| + 1..] == v;
  }

  /** The words of a column are the pieces between "&"; a later word overrules an earlier one. */
  lemma {:induction false} ColumnWords(args: Args, ws: seq<Bytes>, w: Bytes, column: Bytes)
    ensures ArgsOf(column) == AssignAll(map[], Words(column, [38]))
    ensures AssignAll(args, []) == args && AssignAll(args, ws + [w]) == Assign(AssignAll(args, ws), w)
    decreases |ws|
  {
    hide Assign, Words;
    if ws == [] {
      assert ws + [w] == [w] && [w][1..] == [];
    } else {
      assert (ws + [w])[1..] == ws[1..] + [w];
      ColumnWords(Assign(args, ws[0]), ws[1..], w, column);
    }
  }
}
