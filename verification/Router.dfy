/** `Router`: which binding keys let a message through (the topic rule of section 3.1.3.3 of AMQP 0-9-1). */
module Router {
  import opened Basics
  import opened StrHelper

  // The exchange type is an open protobuf enum: any int32 can arrive.
  const DIRECT := 1
  const FANOUT := 2

  const DOT: Bytes := [46]   // "."
  const STAR: Bytes := [42]  // "*"
  const HASH: Bytes := [35]  // "#"

  // ---- the topic rule, declaratively ----

  /** What one binding word may stand for: `#` (35) any words, `*` (42) one word, a literal itself. */
  ghost predicate Covers(w: Bytes, segment: seq<Bytes>) {
    w == [35] || (|segment| == 1 && (w == [42] || w == segment[0]))
  }

  ghost predicate CoversAt(b: seq<Bytes>, r: seq<Bytes>, cut: seq<nat>, i: nat)
    requires i < |b| && |cut| == |b| + 1
  {
    cut[i] <= cut[i + 1] <= |r| && Covers(b[i], r[cut[i]..cut[i + 1]])
  }

  /** `cut` divides the routing words into consecutive segments, one per binding word. */
  ghost predicate Cuts(b: seq<Bytes>, r: seq<Bytes>, cut: seq<nat>) {
    && |cut| == |b| + 1 && cut[0] == 0 && cut[|b|] == |r|
    && forall i | 0 <= i < |b| :: CoversAt(b, r, cut, i)
  }

  ghost predicate Matches(b: seq<Bytes>, r: seq<Bytes>) {
    exists cut: seq<nat> :: Cuts(b, r, cut)
  }

  // ---- the table, cell by cell ----

  /** The value the table holds at row i, column j. */
  predicate Cell(b: seq<Bytes>, r: seq<Bytes>, i: nat, j: nat)
    requires i <= |b| && j <= |r|
    decreases i + j
  {
    if i == 0 then j == 0
    else if j == 0 then b[i - 1] == HASH && Cell(b, r, i - 1, 0)
    else if b[i - 1] == r[j - 1] || b[i - 1] == STAR then Cell(b, r, i - 1, j - 1)
    else b[i - 1] == HASH && (Cell(b, r, i - 1, j) || Cell(b, r, i, j - 1))
  }

  predicate TopicRoutes(b: seq<Bytes>, r: seq<Bytes>) {
    Cell(b, r, |b|, |r|)
  }

  /** The routing decision as a function of type and keys. */
  predicate Routes(kind: int, routingKey: Bytes, bindingKey: Bytes) {
    if kind == DIRECT then routingKey == bindingKey
    else if kind == FANOUT then true
    else TopicRoutes(Words(bindingKey, DOT), Words(routingKey, DOT))
  }

  lemma {:induction false} FirstColumn(b: seq<Bytes>, r: seq<Bytes>, i: nat)
    requires i <= |b|
    ensures Cell(b, r, i, 0) <==> forall k | 0 <= k < i :: b[k] == HASH
  {
    if i > 0 {
      FirstColumn(b, r, i - 1);
    }
  }

  ghost predicate FirstColumnFilled(b: seq<Bytes>, r: seq<Bytes>, dp: array2<bool>)
    requires dp.Length0 == |b| + 1 && dp.Length1 == |r| + 1
    reads dp
  {
    && (forall i | 0 <= i <= |b| :: dp[i, 0] == Cell(b, r, i, 0))
    && (forall i, j | 0 <= i <= |b| && 1 <= j <= |r| :: !dp[i, j])
  }

  method FillFirstColumn(b: seq<Bytes>, r: seq<Bytes>, dp: array2<bool>)
    requires dp.Length0 == |b| + 1 && dp.Length1 == |r| + 1
    requires forall i, j | 0 <= i <= |b| && 0 <= j <= |r| :: !dp[i, j]
    modifies dp
    ensures FirstColumnFilled(b, r, dp)
  {
    dp[0, 0] := true;
    for i := 1 to |b| + 1
      invariant forall k | 0 <= k < i :: dp[k, 0] && Cell(b, r, k, 0)
      invariant forall k | i <= k <= |b| :: !dp[k, 0]
      invariant forall k, j | 0 <= k <= |b| && 1 <= j <= |r| :: !dp[k, j]
    {
      if b[i - 1] == HASH {
        dp[i, 0] := dp[i - 1, 0];
        continue;
      }
      forall k | i <= k <= |b| ensures !Cell(b, r, k, 0) {
        FirstColumn(b, r, k);
      }
      break;
    }
  }

  /** `Router::route`. */
  method Route(kind: int, routingKey: Bytes, bindingKey: Bytes) returns (ok: bool)
    ensures ok == Routes(kind, routingKey, bindingKey)
    ensures kind == 1 ==> (ok <==> routingKey == bindingKey)
    ensures kind == 2 ==> ok
  {
    if kind == DIRECT {
      return routingKey == bindingKey;
    } else if kind == FANOUT {
      return true;
    }
    var b, nb := Split(bindingKey, DOT, []);
    var r, nr := Split(routingKey, DOT, []);
    assert b == Words(bindingKey, DOT) && r == Words(routingKey, DOT);
    hide Words;
    ok := FillTable(b, r);
  }

  /** Filled row by row up to cell (i, j); beyond it only the first column. */
  ghost predicate FilledTo(b: seq<Bytes>, r: seq<Bytes>, dp: array2<bool>, i: nat, j: nat)
    requires dp.Length0 == |b| + 1 && dp.Length1 == |r| + 1
    reads dp
  {
    forall k, l | 0 <= k <= |b| && 0 <= l <= |r| ::
      dp[k, l] == ((k < i || l == 0 || (k == i && l < j)) && Cell(b, r, k, l))
  }

  method FillTable(b: seq<Bytes>, r: seq<Bytes>) returns (ok: bool)
    ensures ok == TopicRoutes(b, r)
  {
    var dp := new bool[|b| + 1, |r| + 1]((i, j) => false);
    FillFirstColumn(b, r, dp);
    assert FilledTo(b, r, dp, 1, 1);
    for i := 1 to |b| + 1
      invariant FilledTo(b, r, dp, i, 1)
    {
      FillRow(b, r, dp, i);
    }
    ok := dp[|b|, |r|];
  }

  /** The inner loop. */
  method FillRow(b: seq<Bytes>, r: seq<Bytes>, dp: array2<bool>, i: nat)
    requires dp.Length0 == |b| + 1 && dp.Length1 == |r| + 1 && 1 <= i <= |b|
    requires FilledTo(b, r, dp, i, 1)
    modifies dp
    ensures FilledTo(b, r, dp, i + 1, 1)
  {
    for j := 1 to |r| + 1
      invariant FilledTo(b, r, dp, i, j)
    {
      if b[i - 1] == r[j - 1] || b[i - 1] == STAR {
        dp[i, j] := dp[i - 1, j - 1];
      } else if b[i - 1] == HASH {
        dp[i, j] := dp[i - 1, j] || dp[i, j - 1];
      }
    }
  }

  // ---- the table decides the rule ----

  lemma {:induction false} MatchesSnoc(b: seq<Bytes>, w: Bytes, r: seq<Bytes>)
    ensures Matches(b + [w], r) <==> exists k | 0 <= k <= |r| :: Matches(b, r[..k]) && Covers(w, r[k..])
  {
    if Matches(b + [w], r) {
      var cut: seq<nat> :| Cuts(b + [w], r, cut);
      var k := cut[|b|];
      assert CoversAt(b + [w], r, cut, |b|);
      assert (b + [w])[|b|] == w && r[k..cut[|b| + 1]] == r[k..];
      CutsPrefix(b, w, r, cut);
    }
    forall k | 0 <= k <= |r| && Matches(b, r[..k]) && Covers(w, r[k..])
      ensures Matches(b + [w], r)
    {
      var cut: seq<nat> :| Cuts(b, r[..k], cut);
      CutsExtend(b, w, r, k, cut);
    }
  }

  lemma {:induction false} CutsPrefix(b: seq<Bytes>, w: Bytes, r: seq<Bytes>, cut: seq<nat>)
    requires Cuts(b + [w], r, cut)
    ensures cut[|b|] <= |r| && Cuts(b, r[..cut[|b|]], cut[..|b| + 1])
  {
    var k := cut[|b|];
    assert forall i | 0 <= i < |b| :: (b + [w])[i] == b[i];
    CutsAscend(b + [w], r, cut);
    var c, s := cut[..|b| + 1], r[..k];
    forall i | 0 <= i < |b| ensures CoversAt(b, s, c, i) {
      assert CoversAt(b + [w], r, cut, i);
      assert s[cut[i]..cut[i + 1]] == r[cut[i]..cut[i + 1]];
    }
  }

  lemma {:induction false} CutsAscend(b: seq<Bytes>, r: seq<Bytes>, cut: seq<nat>)
    requires Cuts(b, r, cut)
    ensures forall i, j | 0 <= i <= j <= |b| :: cut[i] <= cut[j]
  {
    var n := 0;
    while n < |b|
      invariant n <= |b|
      invariant forall i, j | 0 <= i <= j <= n :: cut[i] <= cut[j]
    {
      assert CoversAt(b, r, cut, n);
      n := n + 1;
    }
  }

  lemma {:induction false} CutsExtend(b: seq<Bytes>, w: Bytes, r: seq<Bytes>, k: nat, cut: seq<nat>)
    requires k <= |r| && Cuts(b, r[..k], cut) && Covers(w, r[k..])
    ensures Cuts(b + [w], r, cut + [|r|])
  {
    var c := cut + [|r|];
    forall i | 0 <= i < |b| + 1
      ensures CoversAt(b + [w], r, c, i)
    {
      if i < |b| {
        assert CoversAt(b, r[..k], cut, i);
        assert r[..k][cut[i]..cut[i + 1]] == r[cut[i]..cut[i + 1]];
      } else {
        assert r[k..|r|] == r[k..];
      }
    }
  }

  lemma {:induction false} MatchesNone(r: seq<Bytes>)
    ensures Matches([], r) <==> r == []
  {
    if r == [] {
      assert Cuts([], [], [0]);
    }
  }

  /** The last binding word decides the last column: the recurrence the rule itself obeys. */
  lemma {:induction false} MatchesLast(b: seq<Bytes>, w: Bytes, r: seq<Bytes>)
    ensures r == [] ==> (Matches(b + [w], r) <==> w == HASH && Matches(b, r))
    ensures r != [] && w != HASH ==>
      (Matches(b + [w], r) <==> (w == STAR || w == r[|r| - 1]) && Matches(b, r[..|r| - 1]))
    ensures r != [] && w == HASH ==>
      (Matches(b + [w], r) <==> Matches(b, r) || Matches(b + [w], r[..|r| - 1]))
  {
    MatchesSnoc(b, w, r);
    hide Matches;
    assert r[..|r|] == r;
    if r != [] {
      var n := |r| - 1;
      MatchesSnoc(b, w, r[..n]);
      assert forall k | 0 <= k <= n :: r[..n][..k] == r[..k];
      assert r[n..] == [r[n]];
    }
  }

  /** Cell (i, j) says whether the first i binding words match the first j routing words. */
  lemma {:induction false} CellIsMatch(b: seq<Bytes>, r: seq<Bytes>, i: nat, j: nat)
    requires i <= |b| && j <= |r| && [35] !in r
    ensures Cell(b, r, i, j) <==> Matches(b[..i], r[..j])
    decreases i + j
  {
    hide Matches;
    if i == 0 {
      MatchesNone(r[..j]);
      assert b[..0] == [];
    } else {
      assert b[..i] == b[..i - 1] + [b[i - 1]];
      MatchesLast(b[..i - 1], b[i - 1], r[..j]);
      CellIsMatch(b, r, i - 1, j);
      if j > 0 {
        assert r[..j][..j - 1] == r[..j - 1];
        CellIsMatch(b, r, i - 1, j - 1);
        CellIsMatch(b, r, i, j - 1);
      }
    }
  }

  /** For a routing key without a word `#`, routing through a topic exchange is the topic rule. */
  lemma {:induction false} TopicRule(b: seq<Bytes>, r: seq<Bytes>)
    requires [35] !in r
    ensures TopicRoutes(b, r) <==> Matches(b, r)
  {
    CellIsMatch(b, r, |b|, |r|);
    assert b[..|b|] == b && r[..|r|] == r;
  }

  // ---- where the table departs from the rule ----

  lemma {:induction false} HashMatchesAll(r: seq<Bytes>)
    ensures Matches([HASH], r)
  {
    assert r[0..|r|] == r;
    assert Cuts([HASH], r, [0, |r|]);
  }

  /** After the last word `#` at position t > 0 the table has lost every match of the lone key `#`. */
  lemma {:induction false} LoneHashLost(r: seq<Bytes>, t: nat, j: nat)
    requires 0 < t < j <= |r| && r[t] == HASH && HASH !in r[t + 1..]
    ensures !Cell([HASH], r, 1, j)
    decreases j
  {
    if j > t + 1 {
      LoneHashLost(r, t, j - 1);
      assert r[t + 1..][j - 1 - (t + 1)] == r[j - 1];
    }
  }

  lemma {:induction false} StarHashLost(r: seq<Bytes>, j: nat)
    requires 0 < j <= |r| && r[0] == HASH && HASH !in r[1..]
    ensures !Cell([STAR, HASH], r, 2, j)
    decreases j
  {
    if j > 1 {
      StarHashLost(r, j - 1);
      assert r[1..][j - 2] == r[j - 1];
      assert !Cell([STAR, HASH], r, 1, j);
    }
  }

  lemma {:induction false} LastHash(r: seq<Bytes>) returns (t: nat)
    requires HASH in r
    ensures t < |r| && r[t] == HASH && HASH !in r[t + 1..]
  {
    t := |r| - 1;
    while r[t] != HASH
      invariant t < |r| && HASH !in r[t + 1..]
      decreases t
    {
      assert HASH in r[..t + 1];
      assert r[t..] == [r[t]] + r[t + 1..];
      t := t - 1;
    }
  }

  /** A routing key with a word `#` is misrouted for some binding key: the table reads `#` as a literal there. */
  lemma {:induction false} HashWordMisroutes(r: seq<Bytes>) returns (b: seq<Bytes>)
    requires [35] in r
    ensures b == [[35]] || b == [[42], [35]]
    ensures Matches(b, r) && !TopicRoutes(b, r)
  {
    var t := LastHash(r);
    if t > 0 {
      b := [HASH];
      HashMatchesAll(r);
      LoneHashLost(r, t, |r|);
    } else {
      b := [STAR, HASH];
      assert r[0..1] == [r[0]];
      assert Cuts(b, r, [0, 1, |r|]);
      StarHashLost(r, |r|);
    }
  }

  /** The binding keys `#` and `*.#` split into their words. */
  lemma {:induction false} BindingKeyOf(b: seq<Bytes>)
    requires b == [HASH] || b == [STAR, HASH]
    ensures Words(Join(b, DOT), DOT) == b
  {
    hide Words, Join;
    WordsOfJoin(b, 46);
  }

  /** Exactly when a routing key is routed by the topic rule, whatever the binding key and through an exchange
      of whatever type but direct (1) and fanout (2): when none of its words is `#`. */
  lemma {:induction false} TopicRuleExactly(kind: int, key: Bytes)
    requires kind != 1 && kind != 2
    ensures (forall bk :: Routes(kind, key, bk) <==> Matches(Words(bk, [46]), Words(key, [46])))
       <==> [35] !in Words(key, [46])
  {
    hide Words, Matches, TopicRoutes, Join;
    var r := Words(key, DOT);
    if HASH in r {
      var b := HashWordMisroutes(r);
      BindingKeyOf(b);
      var bk := Join(b, DOT);
      assert Routes(kind, key, bk) != Matches(Words(bk, DOT), r);
    } else {
      forall bk ensures Routes(kind, key, bk) <==> Matches(Words(bk, DOT), r) {
        TopicRule(Words(bk, DOT), r);
      }
    }
  }

  /** The decision by type: direct (1) compares the keys, fanout (2) lets everything through, and any other type,
      unspecified (0), topic (3) or unknown, goes by the words. */
  lemma {:induction false} RoutesByKind(kind: int, key: Bytes, bindingKey: Bytes)
    ensures kind == 1 ==> (Routes(kind, key, bindingKey) <==> key == bindingKey)
    ensures kind == 2 ==> Routes(kind, key, bindingKey)
    ensures kind != 1 && kind != 2 && [35] !in Words(key, [46]) ==>
      (Routes(kind, key, bindingKey) <==> Matches(Words(bindingKey, [46]), Words(key, [46])))
  {
    hide Words, Matches, TopicRoutes;
    if kind != 1 && kind != 2 && [35] !in Words(key, [46]) {
      TopicRule(Words(bindingKey, [46]), Words(key, [46]));
    }
  }

  // ---- generalising a binding ----

  /** w' lets through at least what w does: literal to `*` to `#`. */
  predicate Generalises(w': Bytes, w: Bytes) {
    w' == w || w' == HASH || (w' == STAR && w != HASH)
  }

  /** Generalising binding words never loses a match. */
  lemma {:induction false} GeneralisingKeepsMatches(b: seq<Bytes>, b': seq<Bytes>, r: seq<Bytes>)
    requires |b'| == |b| && forall i | 0 <= i < |b| :: Generalises(b'[i], b[i])
    requires [35] !in r && TopicRoutes(b, r)
    ensures TopicRoutes(b', r)
  {
    TopicRule(b, r);
    TopicRule(b', r);
    hide Cell;
    var cut: seq<nat> :| Cuts(b, r, cut);
    forall i | 0 <= i < |b| ensures CoversAt(b', r, cut, i) {
      assert CoversAt(b, r, cut, i);
    }
    assert Cuts(b', r, cut);
  }

  // ---- key legality ----

  predicate IsRoutingByte(ch: Byte) {
    97 <= ch <= 122 || 65 <= ch <= 90 || 48 <= ch <= 57 || ch == 95 || ch == 46
  }

  predicate IsBindingByte(ch: Byte) {
    IsRoutingByte(ch) || ch == 42 || ch == 35
  }

  predicate StandsAlone(w: Bytes) {
    |w| > 1 ==> 42 !in w && 35 !in w
  }

  /** The neighbours the binding-key check refuses: `*.#`, `#.#` and `#.*`. */
  predicate Clash(v: Bytes, w: Bytes) {
    (w == HASH && (v == STAR || v == HASH)) || (w == STAR && v == HASH)
  }

  ghost predicate LegalBindingKey(key: Bytes) {
    && (forall i | 0 <= i < |key| :: IsBindingByte(key[i]))
    && LegalWords(Words(key, DOT))
  }

  ghost predicate LegalWords(ws: seq<Bytes>) {
    && (forall i | 0 <= i < |ws| :: StandsAlone(ws[i]))
    && forall i | 1 <= i < |ws| :: !Clash(ws[i - 1], ws[i])
  }

  /** The bytes a routing key may have, and the two more a binding key may have, as characters. */
  lemma {:induction false} LegalBytes(ch: Byte)
    ensures var c := ch as char;
            && (IsRoutingByte(ch) <==>
                  'a' <= c <= 'z' || 'A' <= c <= 'Z' || '0' <= c <= '9' || c == '_' || c == '.')
            && (IsBindingByte(ch) <==> IsRoutingByte(ch) || c == '*' || c == '#')
  {
  }

  method IsLegalRoutingKey(key: Bytes) returns (ok: bool)
    ensures ok <==> forall i | 0 <= i < |key| :: IsRoutingByte(key[i])
  {
    for k := 0 to |key|
      invariant forall i | 0 <= i < k :: IsRoutingByte(key[i])
    {
      if IsRoutingByte(key[k]) {
        continue;
      }
      return false;
    }
    return true;
  }

  method IsLegalBindingKey(key: Bytes) returns (ok: bool)
    ensures ok <==> LegalBindingKey(key)
  {
    for k := 0 to |key|
      invariant forall i | 0 <= i < k :: IsBindingByte(key[i])
    {
      if IsBindingByte(key[k]) {
        continue;
      }
      return false;
    }
    var words, n := Split(key, DOT, []);
    assert words == Words(key, DOT);
    ok := HasLegalWords(words);
  }

  method HasLegalWords(words: seq<Bytes>) returns (ok: bool)
    ensures ok <==> LegalWords(words)
  {
    for k := 0 to |words|
      invariant forall i | 0 <= i < k :: StandsAlone(words[i])
    {
      if |words[k]| > 1 && (42 in words[k] || 35 in words[k]) {
        return false;
      }
    }
    var i := 1;
    while i < |words|
      invariant 1 <= i
      invariant forall l | 1 <= l < i && l < |words| :: !Clash(words[l - 1], words[l])
    {
      if words[i] == HASH && words[i - 1] == STAR {
        return false;
      }
      if words[i] == HASH && words[i - 1] == HASH {
        return false;
      }
      if words[i] == STAR && words[i - 1] == HASH {
        return false;
      }
      i := i + 1;
    }
    return true;
  }

  /** A legal binding key is one of legal bytes whose words are lone wildcards or free of wildcards, with none of
      the neighbours `*.#`, `#.#` and `#.*`. */
  lemma {:induction false} LegalBindingKeyWords(key: Bytes)
    ensures var ws := Words(key, [46]);
            LegalBindingKey(key) <==>
              && (forall i | 0 <= i < |key| :: IsBindingByte(key[i]))
              && (forall i | 0 <= i < |ws| :: ws[i] == [42] || ws[i] == [35] || (42 !in ws[i] && 35 !in ws[i]))
              && (forall i | 1 <= i < |ws| ::
                    !(ws[i - 1] == [42] && ws[i] == [35]) && !(ws[i - 1] == [35] && ws[i] == [35])
                    && !(ws[i - 1] == [35] && ws[i] == [42]))
  {
    hide IsBindingByte, Words, StandsAlone, Clash;
    WordsAccountForString(key, [46]);
    var ws := Words(key, [46]);
    forall i | 0 <= i < |ws|
      ensures StandsAlone(ws[i]) <==> ws[i] == [42] || ws[i] == [35] || (42 !in ws[i] && 35 !in ws[i])
    {
      assert ws[i] in ws;
      LoneWildcard(ws[i]);
    }
    forall i | 1 <= i < |ws|
      ensures Clash(ws[i - 1], ws[i]) <==>
        (ws[i - 1] == [42] && ws[i] == [35]) || (ws[i - 1] == [35] && (ws[i] == [35] || ws[i] == [42]))
    {
      ClashIs(ws[i - 1], ws[i]);
    }
  }

  lemma {:induction false} LoneWildcard(w: Bytes)
    requires w != []
    ensures StandsAlone(w) <==> w == [42] || w == [35] || (42 !in w && 35 !in w)
  {
    if |w| == 1 {
      assert w == [w[0]];
    }
  }

  lemma {:induction false} ClashIs(v: Bytes, w: Bytes)
    ensures Clash(v, w) <==> (v == [42] && w == [35]) || (v == [35] && w == [35]) || (v == [35] && w == [42])
  {
  }

  lemma {:induction false} PieceBytes(s: Bytes, sep: Bytes)
    requires sep != []
    ensures forall w, c | w in Pieces(s, sep) && c in w :: c in s
    decreases |s|
  {
    hide OccursAt, Find;
    match Find(s, sep, 0)
    case None =>
    case Some(p) =>
      PieceBytes(s[p + |sep|..], sep);
  }

  /** Every legal routing key meets the condition of the topic rule. */
  lemma {:induction false} LegalRoutingKeyFollowsRule(key: Bytes, bindingKey: Bytes)
    requires forall i | 0 <= i < |key| :: IsRoutingByte(key[i])
    ensures Routes(3, key, bindingKey) <==> Matches(Words(bindingKey, [46]), Words(key, [46]))
  {
    PieceBytes(key, DOT);
    NonEmptyMembers(Pieces(key, DOT));
    assert 35 in HASH && 35 !in key;
    hide Pieces, NonEmpty, Matches, TopicRoutes;
    TopicRule(Words(bindingKey, DOT), Words(key, DOT));
  }
}
