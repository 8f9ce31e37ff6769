/** The data file of a queue as a log of framed payload records. */
module RecordLog {
  import opened Basics
  import opened PayloadCodec

  const DEAD: Bytes := [48]   // "0"
  const ALIVE: Bytes := [49]  // "1"

  // ---- the 8-byte length prefix ----

  /** The low k bytes of n, least significant first, as the host stores a size_t. */
  function LittleEndian(n: nat, k: nat): (b: Bytes)
    ensures |b| == k
  {
    if k == 0 then [] else [(n % 256) as Byte] + LittleEndian(n / 256, k - 1)
  }

  function FromLittleEndian(b: Bytes): nat {
    if b == [] then 0 else b[0] as nat + 256 * FromLittleEndian(b[1..])
  }

  predicate FitsBytes(n: nat, k: nat) {
    if k == 0 then n == 0 else FitsBytes(n / 256, k - 1)
  }

  lemma {:induction false} LittleEndianRoundTrip(n: nat, k: nat)
    requires FitsBytes(n, k)
    ensures FromLittleEndian(LittleEndian(n, k)) == n
  {
    if k > 0 {
      LittleEndianRoundTrip(n / 256, k - 1);
      assert LittleEndian(n, k)[1..] == LittleEndian(n / 256, k - 1);
    }
  }

  lemma {:induction false} IntMaxFits(n: nat)
    requires n <= INT_MAX
    ensures FitsBytes(n, 8)
  {
    var a := n / 256;
    var b := a / 256;
    var c := b / 256;
    assert c / 256 == 0;
    assert FitsBytes(0, 4);
    assert FitsBytes(c, 5) && FitsBytes(b, 6);
  }

  // ---- records ----

  /** Protobuf can serialize the payload. */
  predicate Storable(p: Payload) {
    |Serialize(p)| <= INT_MAX
  }

  ghost predicate AllStorable(log: seq<Payload>) {
    forall i | 0 <= i < |log| :: Storable(log[i])
  }

  function Frame(p: Payload): (b: Bytes)
    ensures |b| == 8 + |Serialize(p)|
  {
    LittleEndian(|Serialize(p)|, 8) + Serialize(p)
  }

  /** The bytes of a log. */
  function Image(log: seq<Payload>): Bytes {
    if log == [] then [] else Frame(log[0]) + Image(log[1..])
  }

  /** Where the payload of record i starts: its message's offset. */
  function Start(log: seq<Payload>, i: nat): nat
    requires i <= |log|
  {
    |Image(log[..i])| + 8
  }

  /** `load`: the payloads not marked dead, and false when a record is cut short. */
  function Scan(f: Bytes): (r: (bool, seq<Payload>))
    decreases |f|
  {
    if f == [] then (true, [])
    else if |f| < 8 then (false, [])
    else
      var n := FromLittleEndian(f[..8]);
      if 8 + n > |f| then (false, [])
      else
        var p, rest := Parse(f[8..8 + n]), Scan(f[8 + n..]);
        (rest.0, (if p.valid == DEAD then [] else [p]) + rest.1)
  }

  function Live(log: seq<Payload>): seq<Payload> {
    if log == [] then []
    else (if log[0].valid == DEAD then [] else [log[0]]) + Live(log[1..])
  }

  function Dead(p: Payload): Payload {
    p.(valid := DEAD)
  }

  lemma {:induction false} ScanFrame(p: Payload, rest: Bytes)
    requires Storable(p)
    ensures Scan(Frame(p) + rest) == (Scan(rest).0, (if p.valid == DEAD then [] else [p]) + Scan(rest).1)
  {
    var s, head := Serialize(p), LittleEndian(|Serialize(p)|, 8);
    ParseSerialize(p);
    IntMaxFits(|s|);
    LittleEndianRoundTrip(|s|, 8);
    hide Serialize, Parse, FitsBytes, LittleEndian, FromLittleEndian;
    var f := head + s + rest;
    assert f[..8] == head && f[8..8 + |s|] == s && f[8 + |s|..] == rest;
  }

  /** Loading a well-formed log gives its live payloads in order. */
  lemma {:induction false} ScanImage(log: seq<Payload>)
    requires AllStorable(log)
    ensures Scan(Image(log)) == (true, Live(log))
  {
    hide Frame, Storable;
    if log == [] {
    } else {
      ScanFrame(log[0], Image(log[1..]));
      ScanImage(log[1..]);
      hide Scan;
    }
  }

  lemma {:induction false} ImageAppend(a: seq<Payload>, b: seq<Payload>)
    ensures Image(a + b) == Image(a) + Image(b)
  {
    hide Frame;
    if a == [] {
      assert a + b == b;
    } else {
      assert (a + b)[1..] == a[1..] + b;
      ImageAppend(a[1..], b);
    }
  }

  lemma {:induction false} ImageOne(p: Payload)
    ensures Image([p]) == Frame(p)
  {
    ConcatNothing(Frame(p));
  }

  lemma {:induction false} ImageSnoc(log: seq<Payload>, p: Payload)
    ensures Image(log + [p]) == Image(log) + Frame(p)
    ensures Start(log + [p], |log|) == |Image(log)| + 8
  {
    hide *;
    ImageAppend(log, [p]);
    ImageOne(p);
    StartIs(log + [p], |log|);
    assert (log + [p])[..|log|] == log;
  }

  lemma {:induction false} StartIs(log: seq<Payload>, i: nat)
    requires i <= |log|
    ensures Start(log, i) == |Image(log[..i])| + 8
  {
  }

  /** Appending never moves a record. */
  lemma {:induction false} StartKept(log: seq<Payload>, p: Payload, i: nat)
    requires i <= |log|
    ensures Start(log + [p], i) == Start(log, i)
  {
    assert (log + [p])[..i] == log[..i];
  }

  lemma {:induction false} ImageAround(log: seq<Payload>, i: nat)
    requires i < |log|
    ensures Image(log) == Image(log[..i]) + LittleEndian(|Serialize(log[i])|, 8) + Serialize(log[i])
      + Image(log[i + 1..])
  {
    hide *;
    assert log == log[..i] + ([log[i]] + log[i + 1..]);
    ImageAppend(log[..i], [log[i]] + log[i + 1..]);
    ImageAppend([log[i]], log[i + 1..]);
    ImageOne(log[i]);
    FrameIs(log[i]);
    Regroup(Image(log[..i]), LittleEndian(|Serialize(log[i])|, 8), Serialize(log[i]), Image(log[i + 1..]));
  }

  lemma {:induction false} FrameIs(p: Payload)
    ensures Frame(p) == LittleEndian(|Serialize(p)|, 8) + Serialize(p)
  {
  }

  lemma {:induction false} Regroup(a: Bytes, b: Bytes, c: Bytes, d: Bytes)
    ensures a + ((b + c) + d) == a + b + c + d
  {
  }

  /** Each record's offset and length frame exactly its own body inside the file. */
  lemma {:induction false} StartFrames(log: seq<Payload>, i: nat)
    requires i < |log|
    ensures Start(log, i) + |Serialize(log[i])| <= |Image(log)|
    ensures Image(log)[Start(log, i)..Start(log, i) + |Serialize(log[i])|] == Serialize(log[i])
    ensures Image(log)[Start(log, i) - 8..Start(log, i)] == LittleEndian(|Serialize(log[i])|, 8)
  {
    hide *;
    StartIs(log, i);
    ImageAround(log, i);
    Middle(Image(log[..i]), LittleEndian(|Serialize(log[i])|, 8), Serialize(log[i]), Image(log[i + 1..]));
  }

  lemma {:induction false} Middle(a: Bytes, b: Bytes, c: Bytes, d: Bytes)
    ensures (a + b + c + d)[|a| + |b|..|a| + |b| + |c|] == c
    ensures (a + b + c + d)[|a|..|a| + |b|] == b
    ensures forall x: Bytes | |x| == |c| :: Overwrite(a + b + c + d, |a| + |b|, x) == a + b + x + d
  {
  }

  /** Rewriting a record of unchanged size in place changes that record and nothing else:
      every length prefix and every other record keeps its bytes. */
  lemma {:induction false} OverwriteRecord(log: seq<Payload>, i: nat, p: Payload)
    requires i < |log| && |Serialize(p)| == |Serialize(log[i])|
    ensures Overwrite(Image(log), Start(log, i), Serialize(p)) == Image(log[i := p])
  {
    hide *;
    var log' := log[i := p];
    StartIs(log, i);
    ImageAround(log, i);
    ImageAround(log', i);
    assert log'[..i] == log[..i] && log'[i + 1..] == log[i + 1..];
    Middle(Image(log[..i]), LittleEndian(|Serialize(log[i])|, 8), Serialize(log[i]), Image(log[i + 1..]));
  }

  lemma {:induction false} StartAfterOverwrite(log: seq<Payload>, i: nat, p: Payload, j: nat)
    requires i < |log| && j <= |log| && |Serialize(p)| == |Serialize(log[i])|
    ensures Start(log[i := p], j) == Start(log, j)
  {
    hide *;
    var log' := log[i := p];
    StartIs(log, j);
    StartIs(log', j);
    if j <= i {
      assert log'[..j] == log[..j];
    } else {
      assert log'[..j] == log[..j][i := p];
      StartIs(log[..j], i);
      OverwriteRecord(log[..j], i, p);
      StartFrames(log[..j], i);
    }
  }

  // ---- compaction ----

  lemma {:induction false} LiveAppend(a: seq<Payload>, b: seq<Payload>)
    ensures Live(a + b) == Live(a) + Live(b)
  {
    if a == [] {
      assert a + b == b;
    } else {
      assert (a + b)[1..] == a[1..] + b;
      LiveAppend(a[1..], b);
    }
  }

  lemma {:induction false} LiveOfLive(log: seq<Payload>)
    ensures Live(Live(log)) == Live(log)
    ensures forall p :: p in Live(log) <==> p in log && p.valid != DEAD
    ensures |Live(log)| <= |log|
  {
    if log != [] {
      LiveOfLive(log[1..]);
      LiveAppend(if log[0].valid == DEAD then [] else [log[0]], Live(log[1..]));
      assert forall p :: p in log <==> p == log[0] || p in log[1..];
      if log[0].valid != DEAD {
        LiveOne(log[0]);
      }
    }
  }

  lemma {:induction false} LiveOne(p: Payload)
    ensures Live([p]) == if p.valid == DEAD then [] else [p]
  {
    assert [p][1..] == [];
  }

  /** Whatever the file holds, no payload load returns is marked dead. */
  lemma {:induction false} ScanIsLive(f: Bytes)
    ensures Live(Scan(f).1) == Scan(f).1
    decreases |f|
  {
    hide Parse, FromLittleEndian, Live;
    if |f| < 8 || 8 + FromLittleEndian(f[..8]) > |f| {
      assert Scan(f).1 == [];
      LiveNothing();
    } else {
      var n := FromLittleEndian(f[..8]);
      var p := Parse(f[8..8 + n]);
      ScanIsLive(f[8 + n..]);
      LiveOne(p);
      LiveNothing();
      LiveAppend(if p.valid == DEAD then [] else [p], Scan(f[8 + n..]).1);
    }
  }

  lemma {:induction false} LiveNothing()
    ensures Live([]) == []
  {
  }

  /** The file compaction leaves behind for a well-formed log. */
  function Compacted(f: Bytes): Bytes {
    Image(Scan(f).1)
  }

  /** Compaction keeps what load sees, leaves no dead record, and a second compaction changes no byte. */
  lemma {:induction false} CompactionPreservesMeaning(log: seq<Payload>)
    requires AllStorable(log)
    ensures Scan(Compacted(Image(log))) == Scan(Image(log))
    ensures Compacted(Image(log)) == Image(Live(log)) && forall p | p in Live(log) :: p.valid != DEAD
    ensures Compacted(Compacted(Image(log))) == Compacted(Image(log))
  {
    ScanImage(log);
    LiveOfLive(log);
    forall i | 0 <= i < |Live(log)| ensures Storable(Live(log)[i]) {
      assert Live(log)[i] in log;
    }
    hide Scan, Image, Live, Storable;
    ScanImage(Live(log));
  }
}
