/** `StrHelper::split`: the word list every key and argument string is cut into. */
module StrHelper {
  import opened Basics

  predicate OccursAt(s: Bytes, sep: Bytes, p: nat) {
    p + |sep| <= |s| && forall k | 0 <= k < |sep| :: s[p + k] == sep[k]
  }

  ghost predicate Contains(s: Bytes, sep: Bytes) {
    exists p: nat :: OccursAt(s, sep, p)
  }

  /** `std::string::find(sep, from)`; None stands for npos. */
  function Find(s: Bytes, sep: Bytes, from: nat): (r: Option<nat>)
    requires from <= |s|
    ensures r.Some? ==> from <= r.value && r.value + |sep| <= |s|
    ensures r.Some? ==> OccursAt(s, sep, r.value)
    ensures forall p: nat | from <= p && (r.Some? ==> p < r.value) :: !OccursAt(s, sep, p)
    decreases |s| - from
  {
    if OccursAt(s, sep, from) then Some(from)
    else if from == |s| then None
    else Find(s, sep, from + 1)
  }

  /** All the pieces between separators removed leftmost first, empty pieces included. */
  function Pieces(s: Bytes, sep: Bytes): (r: seq<Bytes>)
    requires sep != []
    ensures |r| > 0
    decreases |s|
  {
    match Find(s, sep, 0)
    case None => [s]
    case Some(p) => [s[..p]] + Pieces(s[p + |sep|..], sep)
  }

  function NonEmpty(ps: seq<Bytes>): seq<Bytes> {
    if ps == [] then []
    else (if ps[0] == [] then [] else [ps[0]]) + NonEmpty(ps[1..])
  }

  /** The word list: an empty separator leaves the string whole. */
  function Words(s: Bytes, sep: Bytes): seq<Bytes> {
    if sep == [] then (if s == [] then [] else [s]) else NonEmpty(Pieces(s, sep))
  }

  /** Appends the words of `str` to the caller's vector and returns the vector's new size. */
  method Split(str: Bytes, sep: Bytes, prior: seq<Bytes>) returns (result: seq<Bytes>, size: nat)
    ensures result == prior + Words(str, sep) && size == |result|
  {
    hide *;
    WordsFrom(str, sep);
    result := prior;
    if sep == [] {
      if str != [] {
        result := result + [str];
      }
      return result, |result|;
    }
    ghost var all := Words(str, sep);
    ghost var found: seq<Bytes> := [];
    var idx := 0;
    while idx < |str|
      invariant 0 <= idx <= |str|
      invariant result == prior + found
      invariant all == found + NonEmpty(Pieces(str[idx..], sep))
    {
      var pos := Find(str, sep, idx);
      if pos == None {
        LastPiece(str, sep, idx);
        result := result + [str[idx..]];
        return result, |result|;
      }
      NextWord(str, sep, idx, pos.value);
      if pos.value != idx {
        result := result + [str[idx..pos.value]];
        found := found + [str[idx..pos.value]];
      }
      idx := pos.value + |sep|;
    }
    NoPieceOfNothing(sep);
    assert str[idx..] == [];
    return result, |result|;
  }

  lemma {:induction false} WordsFrom(s: Bytes, sep: Bytes)
    ensures sep == [] ==> Words(s, sep) == if s == [] then [] else [s]
    ensures sep != [] ==> Words(s, sep) == NonEmpty(Pieces(s[0..], sep))
  {
    assert s[0..] == s;
  }

  lemma {:induction false} LastPiece(s: Bytes, sep: Bytes, idx: nat)
    requires sep != [] && idx < |s| && Find(s, sep, idx) == None
    ensures NonEmpty(Pieces(s[idx..], sep)) == [s[idx..]]
  {
    FindInSuffix(s, sep, idx);
    hide OccursAt, Find;
    NonEmptyCons(s[idx..], []);
  }

  lemma {:induction false} NoPieceOfNothing(sep: Bytes)
    requires sep != []
    ensures NonEmpty(Pieces([], sep)) == []
  {
    assert Pieces([], sep) == [[]];
  }

  lemma {:induction false} FindInSuffix(s: Bytes, sep: Bytes, idx: nat)
    requires idx <= |s|
    ensures match Find(s, sep, idx)
            case None => Find(s[idx..], sep, 0) == None
            case Some(p) => Find(s[idx..], sep, 0) == Some(p - idx)
  {
    var t := s[idx..];
    assert forall p: nat :: OccursAt(t, sep, p) == OccursAt(s, sep, idx + p);
    hide OccursAt, Find;
    match Find(s, sep, idx)
    case None =>
    case Some(p) =>
      assert OccursAt(t, sep, p - idx);
      if Find(t, sep, 0).Some? {
        assert OccursAt(s, sep, idx + Find(t, sep, 0).value);
      }
  }

  lemma {:induction false} PiecesAtSeparator(s: Bytes, sep: Bytes, idx: nat, pos: nat)
    requires sep != [] && idx <= |s| && Find(s, sep, idx) == Some(pos)
    ensures Pieces(s[idx..], sep) == [s[idx..pos]] + Pieces(s[pos + |sep|..], sep)
  {
    hide OccursAt, Find;
    FindInSuffix(s, sep, idx);
    SuffixCuts(s, idx, pos, pos + |sep|);
  }

  lemma {:induction false} SuffixCuts(s: Bytes, a: nat, b: nat, c: nat)
    requires a <= b <= c <= |s|
    ensures s[a..][..b - a] == s[a..b] && s[a..][c - a..] == s[c..]
  {
  }

  lemma {:induction false} NextWord(s: Bytes, sep: Bytes, idx: nat, pos: nat)
    requires sep != [] && idx <= |s| && Find(s, sep, idx) == Some(pos)
    ensures NonEmpty(Pieces(s[idx..], sep))
         == (if pos == idx then [] else [s[idx..pos]]) + NonEmpty(Pieces(s[pos + |sep|..], sep))
  {
    PiecesAtSeparator(s, sep, idx, pos);
    hide OccursAt, Find, Pieces;
    NonEmptyCons(s[idx..pos], Pieces(s[pos + |sep|..], sep));
  }

  lemma {:induction false} NonEmptyCons(w: Bytes, ws: seq<Bytes>)
    ensures NonEmpty([w] + ws) == (if w == [] then [] else [w]) + NonEmpty(ws)
  {
    assert ([w] + ws)[1..] == ws;
  }

  // ---- what the word list means ----

  function Join(ps: seq<Bytes>, sep: Bytes): Bytes {
    if ps == [] then []
    else if |ps| == 1 then ps[0]
    else ps[0] + sep + Join(ps[1..], sep)
  }

  function TotalLength(ps: seq<Bytes>): nat {
    if ps == [] then 0 else |ps[0]| + TotalLength(ps[1..])
  }

  lemma {:induction false} JoinCons(w: Bytes, ws: seq<Bytes>, sep: Bytes)
    requires ws != []
    ensures Join([w] + ws, sep) == w + sep + Join(ws, sep)
  {
    assert ([w] + ws)[1..] == ws;
  }

  lemma {:induction false} TotalLengthCons(w: Bytes, ws: seq<Bytes>)
    ensures TotalLength([w] + ws) == |w| + TotalLength(ws)
  {
    assert ([w] + ws)[1..] == ws;
  }

  /** Putting the separators back between the pieces gives the string. */
  lemma {:induction false} PiecesRebuild(s: Bytes, sep: Bytes)
    requires sep != []
    ensures Join(Pieces(s, sep), sep) == s
    decreases |s|
  {
    hide OccursAt, Find;
    match Find(s, sep, 0)
    case None =>
    case Some(p) =>
      var rest := s[p + |sep|..];
      PiecesRebuild(rest, sep);
      JoinCons(s[..p], Pieces(rest, sep), sep);
      OccursSplits(s, sep, p);
  }

  lemma {:induction false} OccursSplits(s: Bytes, sep: Bytes, p: nat)
    requires OccursAt(s, sep, p)
    ensures s == s[..p] + sep + s[p + |sep|..]
  {
  }

  /** No piece still holds a separator. */
  lemma {:induction false} PiecesAreFree(s: Bytes, sep: Bytes)
    requires sep != []
    ensures forall w | w in Pieces(s, sep) :: !Contains(w, sep)
    decreases |s|
  {
    hide OccursAt, Find;
    match Find(s, sep, 0)
    case None =>
    case Some(p) =>
      PiecesAreFree(s[p + |sep|..], sep);
      forall q: nat ensures OccursAt(s[..p], sep, q) ==> OccursAt(s, sep, q) && q < p {
        OccursInPrefix(s, sep, p, q);
      }
  }

  lemma {:induction false} OccursInPrefix(s: Bytes, sep: Bytes, p: nat, q: nat)
    requires p <= |s| && sep != []
    ensures OccursAt(s[..p], sep, q) ==> OccursAt(s, sep, q) && q < p
  {
  }

  lemma {:induction false} NonEmptyMembers(ps: seq<Bytes>)
    ensures forall w :: w in NonEmpty(ps) <==> w != [] && w in ps
  {
    if ps != [] {
      NonEmptyMembers(ps[1..]);
      assert forall w :: w in ps <==> w == ps[0] || w in ps[1..];
    }
  }

  lemma {:induction false} NonEmptyLength(ps: seq<Bytes>)
    ensures TotalLength(NonEmpty(ps)) == TotalLength(ps)
  {
    if ps != [] {
      NonEmptyLength(ps[1..]);
      TotalLengthCons(ps[0], NonEmpty(ps[1..]));
      assert [] + NonEmpty(ps[1..]) == NonEmpty(ps[1..]);
    }
  }

  lemma {:induction false} PiecesLength(s: Bytes, sep: Bytes)
    requires sep != []
    ensures TotalLength(Pieces(s, sep)) + |sep| * (|Pieces(s, sep)| - 1) == |s|
    decreases |s|
  {
    hide OccursAt, Find;
    match Find(s, sep, 0)
    case None =>
    case Some(p) =>
      var rest := s[p + |sep|..];
      PiecesLength(rest, sep);
      TotalLengthCons(s[..p], Pieces(rest, sep));
      assert |sep| * |Pieces(rest, sep)| == |sep| * (|Pieces(rest, sep)| - 1) + |sep|;
  }

  /** Words are non-empty and separator-free, and words plus consumed separators fill the string. */
  lemma {:induction false} WordsAccountForString(s: Bytes, sep: Bytes)
    requires sep != []
    ensures forall w | w in Words(s, sep) :: w != [] && !Contains(w, sep)
    ensures Join(Pieces(s, sep), sep) == s && Words(s, sep) == NonEmpty(Pieces(s, sep))
    ensures TotalLength(Words(s, sep)) + |sep| * (|Pieces(s, sep)| - 1) == |s|
  {
    PiecesRebuild(s, sep);
    PiecesAreFree(s, sep);
    NonEmptyMembers(Pieces(s, sep));
    NonEmptyLength(Pieces(s, sep));
    PiecesLength(s, sep);
  }

  lemma {:induction false} FindFirstByte(w: Bytes, c: Byte, rest: Bytes)
    requires c !in w
    ensures Find(w + [c] + rest, [c], 0) == Some(|w|)
    ensures Find(w, [c], 0) == None
  {
    var s := w + [c] + rest;
    forall t: Bytes, p: nat ensures OccursAt(t, [c], p) <==> p < |t| && t[p] == c {
      assert OccursAt(t, [c], p) ==> t[p + 0] == [c][0];
    }
    hide OccursAt;
    assert OccursAt(s, [c], |w|);
  }

  lemma {:induction false} PiecesOfJoin(w: Bytes, c: Byte, rest: Bytes)
    requires c !in w
    ensures Pieces(w, [c]) == [w]
    ensures Pieces(w + [c] + rest, [c]) == [w] + Pieces(rest, [c])
  {
    FindFirstByte(w, c, rest);
    hide OccursAt, Find;
    var s := w + [c] + rest;
    assert s[..|w|] == w && s[|w| + 1..] == rest;
  }

  /** Splitting a join of words that are non-empty and free of the separator gives the words back. */
  lemma {:induction false} WordsOfJoin(ws: seq<Bytes>, c: Byte)
    requires forall i | 0 <= i < |ws| :: ws[i] != [] && c !in ws[i]
    ensures Words(Join(ws, [c]), [c]) == ws
  {
    hide OccursAt, Find, Pieces;
    if ws == [] {
      PiecesOfJoin([], c, []);
      NoPieceOfNothing([c]);
    } else {
      var tail := ws[1..];
      WordsOfJoin(tail, c);
      PiecesOfJoin(ws[0], c, Join(tail, [c]));
      assert ws == [ws[0]] + tail;
      if tail == [] {
        NonEmptyCons(ws[0], []);
        assert [ws[0]] + [] == [ws[0]];
      } else {
        NonEmptyCons(ws[0], Pieces(Join(tail, [c]), [c]));
      }
    }
  }
}
