/** How the in-memory index of durable messages agrees with the record log, as pure facts. */
module StoreIndex {
  import opened Basics
  import opened PayloadCodec
  import opened RecordLog
  import opened QueueModel

  /** Offset and length of a record's payload. */
  datatype Place = Place(offset: nat, length: nat)

  function PlaceOf(log: seq<Payload>, i: nat): Place
    requires i < |log|
  {
    Place(Start(log, i), |Serialize(log[i])|)
  }

  ghost predicate PlacedAt(log: seq<Payload>, i: nat, places: map<Bytes, Place>)
    requires i < |log|
  {
    Id(log[i]) in places && places[Id(log[i])] == PlaceOf(log, i)
  }

  /** The index lists exactly these payloads, each under its id. */
  ghost predicate Indexes(index: map<Bytes, Payload>, live: seq<Payload>) {
    && (forall id | id in index :: index[id] in live && Id(index[id]) == id)
    && (forall p | p in live :: Id(p) in index && index[Id(p)] == p)
  }

  /** The index holds exactly the live records, each at its place. */
  ghost predicate IndexMatches(log: seq<Payload>, index: map<Bytes, Payload>, places: map<Bytes, Place>) {
    && places.Keys == index.Keys
    && Indexes(index, Live(log))
    && (forall i | 0 <= i < |log| && log[i].valid != DEAD :: PlacedAt(log, i, places))
  }

  lemma {:induction false} IndexEmpty()
    ensures IndexMatches([], map[], map[]) && Healthy([]) && Image([]) == [] && Live([]) == []
  {
  }

  lemma {:induction false} IndexInsert(log: seq<Payload>, index: map<Bytes, Payload>, places: map<Bytes, Place>,
      p: Payload)
    requires IndexMatches(log, index, places) && Id(p) !in index && p.valid == ALIVE
    ensures IndexMatches(log + [p], index[Id(p) := p], places[Id(p) := Place(|Image(log)| + 8, |Serialize(p)|)])
    ensures Image(log + [p]) == Image(log) + Frame(p)
    ensures Live(log + [p]) == Live(log) + [p]
  {
    LiveAppend(log, [p]);
    LiveOne(p);
    ImageSnoc(log, p);
    LiveOfLive(log);
    hide Id, Image, Start, Serialize, Live;
    var log', places' := log + [p], places[Id(p) := Place(|Image(log)| + 8, |Serialize(p)|)];
    forall i | 0 <= i < |log'| && log'[i].valid != DEAD ensures PlacedAt(log', i, places') {
      if i < |log| {
        StartKept(log, p, i);
        assert PlacedAt(log, i, places);
        assert log[i] in log;
      }
    }
  }

  /** The place of an indexed message is that of its own record. */
  lemma {:induction false} FindRecord(log: seq<Payload>, index: map<Bytes, Payload>, places: map<Bytes, Place>,
      id: Bytes) returns (i: nat)
    requires IndexMatches(log, index, places) && id in index
    ensures i < |log| && log[i] == index[id] && log[i].valid != DEAD && places[id] == PlaceOf(log, i)
  {
    LiveOfLive(log);
    hide Live, Id, PlaceOf;
    assert index[id] in log && index[id].valid != DEAD;
    i :| 0 <= i < |log| && log[i] == index[id];
    assert PlacedAt(log, i, places);
  }

  /** Overwriting the payload of an indexed message with its dead form, at the place the index gives,
      is invalidating its record and no other. */
  lemma {:induction false} KillRecord(log: seq<Payload>, index: map<Bytes, Payload>, places: map<Bytes, Place>,
      id: Bytes)
    requires Healthy(log) && IndexMatches(log, index, places) && id in index
    ensures |Serialize(RecordLog.Dead(index[id]))| == places[id].length && Storable(RecordLog.Dead(index[id]))
    ensures Overwrite(Image(log), places[id].offset, Serialize(RecordLog.Dead(index[id]))) == Image(Kill(log, id))
  {
    var i := FindRecord(log, index, places, id);
    assert index[id].valid == ALIVE && Storable(log[i]) && Id(log[i]) == id;
    DeadStorable(log[i]);
    KillAt(log, i, id);
    hide *;
    PlaceIs(log, i);
    OverwriteRecord(log, i, RecordLog.Dead(log[i]));
  }

  lemma {:induction false} PlaceIs(log: seq<Payload>, i: nat)
    requires i < |log|
    ensures PlaceOf(log, i) == Place(Start(log, i), |Serialize(log[i])|)
  {
  }

  lemma {:induction false} IndexesWithout(index: map<Bytes, Payload>, live: seq<Payload>, id: Bytes)
    requires Indexes(index, live) && id in index
    ensures Indexes(index - {id}, Without(live, id))
  {
    WithoutMembers(live, id);
    hide Id, Without;
  }

  lemma {:induction false} KilledCount(log: seq<Payload>, index: map<Bytes, Payload>, id: Bytes)
    requires Healthy(log) && Indexes(index, Live(log)) && id in index
    ensures |Live(Kill(log, id))| == |Live(log)| - 1 && |Kill(log, id)| == |log|
  {
    LiveOfKill(log, id);
    hide Id, Live, Kill, Without, AllStorable;
    assert index[id] in Live(log) && Id(index[id]) == id;
    WithoutOne(Live(log), id);
  }

  lemma {:induction false} IndexKill(log: seq<Payload>, index: map<Bytes, Payload>, places: map<Bytes, Place>,
      id: Bytes)
    requires Healthy(log) && IndexMatches(log, index, places) && id in index
    ensures IndexMatches(Kill(log, id), index - {id}, places - {id})
    ensures |Live(Kill(log, id))| == |Live(log)| - 1 && |Kill(log, id)| == |log|
  {
    hide Id, Serialize, Live, Kill, Healthy, PlaceOf, DistinctIds, Indexes, PlacedAt;
    var k := FindRecord(log, index, places, id);
    KilledRecord(log, index, k, id);
    IndexKillPlaces(log, index, places, id, k);
    KilledCount(log, index, id);
    HealthyDistinct(log);
    LiveOfKill(log, id);
    IndexesWithout(index, Live(log), id);
  }

  lemma {:induction false} KilledRecord(log: seq<Payload>, index: map<Bytes, Payload>, k: nat, id: Bytes)
    requires Healthy(log) && Indexes(index, Live(log)) && id in index
    requires k < |log| && log[k] == index[id] && log[k].valid != DEAD
    ensures Kill(log, id) == log[k := RecordLog.Dead(log[k])]
    ensures |Serialize(RecordLog.Dead(log[k]))| == |Serialize(log[k])|
  {
    hide Id, Live, Kill, Storable, Serialize;
    assert index[id] in Live(log) && log[k].valid == ALIVE && Id(log[k]) == id;
    DeadStorable(log[k]);
    KillAt(log, k, id);
  }

  lemma {:induction false} IndexKillPlaces(log: seq<Payload>, index: map<Bytes, Payload>, places: map<Bytes, Place>,
      id: Bytes, k: nat)
    requires Healthy(log) && IndexMatches(log, index, places) && id in index
    requires k < |log| && log[k] == index[id] && log[k].valid != DEAD
    requires Kill(log, id) == log[k := RecordLog.Dead(log[k])]
    requires |Serialize(RecordLog.Dead(log[k]))| == |Serialize(log[k])|
    ensures forall i | 0 <= i < |Kill(log, id)| && Kill(log, id)[i].valid != DEAD ::
              PlacedAt(Kill(log, id), i, places - {id})
  {
    hide Id, Serialize, Live, Kill, Start, Without, Healthy, DistinctIds, Storable;
    HealthyDistinct(log);
    LiveOfKill(log, id);
    LiveOfLive(Kill(log, id));
    WithoutMembers(Live(log), id);
    var log' := log[k := RecordLog.Dead(log[k])];
    forall i | 0 <= i < |log'| && log'[i].valid != DEAD ensures PlacedAt(log', i, places - {id}) {
      assert i != k && log'[i] == log[i] && log'[i] in log';
      StartAfterOverwrite(log, k, RecordLog.Dead(log[k]), i);
      assert PlacedAt(log, i, places);
    }
  }

  /** After compaction the index of the same messages matches once the places are the new ones. */
  lemma {:induction false} IndexCompact(log: seq<Payload>, index: map<Bytes, Payload>, old_: map<Bytes, Place>,
      places: map<Bytes, Place>)
    requires IndexMatches(log, index, old_) && places.Keys == index.Keys
    requires forall k | 0 <= k < |Live(log)| :: PlacedAt(Live(log), k, places)
    ensures IndexMatches(Live(log), index, places)
  {
    LiveOfLive(log);
    hide Id, Live, PlaceOf;
  }

  /** The index is as large as the number of live records: the durable count. */
  lemma {:induction false} IndexCount(index: map<Bytes, Payload>, log: seq<Payload>)
    requires Indexes(index, Live(log)) && DistinctIds(Live(log))
    ensures |index| == |Live(log)|
  {
    IdsCount(Live(log));
    hide Live, Id;
    assert index.Keys == (set p | p in Live(log) :: Id(p));
    assert |index| == |index.Keys|;
  }

  lemma {:induction false} IdsCount(ps: seq<Payload>)
    requires DistinctIds(ps)
    ensures |set p | p in ps :: Id(p)| == |ps|
  {
    var ids := set p | p in ps :: Id(p);
    if ps != [] {
      var rest := set p | p in ps[1..] :: Id(p);
      assert ps == [ps[0]] + ps[1..];
      HeadApart(ps[0], ps[1..]);
      DistinctTail([ps[0]], ps[1..]);
      IdsCount(ps[1..]);
      assert ids == {Id(ps[0])} + rest;
    }
  }

  // ---- offsets stay narrow ----

  lemma {:induction false} LiveImageShrinks(log: seq<Payload>)
    ensures |Image(Live(log))| <= |Image(log)|
  {
    hide Frame;
    if log != [] {
      LiveImageShrinks(log[1..]);
      ImageAppend(if log[0].valid == DEAD then [] else [log[0]], Live(log[1..]));
      ImageOne(log[0]);
    }
  }

  /** Every live record's offset fits the 32 bits a message object gives it. */
  predicate OffsetsFit(log: seq<Payload>) {
    forall i | 0 <= i < |log| && log[i].valid != DEAD :: Start(log, i) < TWO_32
  }

  /** Compaction only moves records down. */
  lemma {:induction false} LiveStarts(log: seq<Payload>, k: nat) returns (i: nat)
    requires k < |Live(log)|
    ensures i < |log| && log[i] == Live(log)[k] && log[i].valid != DEAD
    ensures Live(log)[..k] == Live(log[..i])
  {
    var rest := log[1..];
    if log[0].valid != DEAD && k == 0 {
      i := 0;
      assert log[..0] == [] && Live(log)[..0] == [];
    } else {
      var head := if log[0].valid == DEAD then [] else [log[0]];
      var j := LiveStarts(rest, k - |head|);
      i := j + 1;
      assert log[..i] == [log[0]] + rest[..j];
      assert ([log[0]] + rest[..j])[1..] == rest[..j];
      assert Live(log)[..k] == head + Live(rest)[..k - |head|];
    }
  }

  lemma {:induction false} CompactionFits(log: seq<Payload>)
    requires OffsetsFit(log)
    ensures OffsetsFit(Live(log))
  {
    hide Live, Start;
    forall k | 0 <= k < |Live(log)| ensures Start(Live(log), k) < TWO_32 {
      var i := LiveStarts(log, k);
      StartIs(Live(log), k);
      StartIs(log, i);
      LiveImageShrinks(log[..i]);
    }
  }

  // ---- an offset that does not fit ----

  lemma {:induction false} ScanConcat(a: Bytes, b: Bytes)
    requires Scan(a).0
    ensures Scan(a + b) == (Scan(b).0, Scan(a).1 + Scan(b).1)
    decreases |a|
  {
    hide Parse, FromLittleEndian;
    if a == [] {
      assert a + b == b;
      ConcatNothing(Scan(b).1);
    } else {
      var n := FromLittleEndian(a[..8]);
      assert (a + b)[..8] == a[..8] && (a + b)[8..8 + n] == a[8..8 + n];
      assert (a + b)[8 + n..] == a[8 + n..] + b;
      ScanConcat(a[8 + n..], b);
      var p := Parse(a[8..8 + n]);
      ConcatAssociates(if p.valid == DEAD then [] else [p], Scan(a[8 + n..]).1, Scan(b).1);
    }
  }

  lemma {:induction false} OverwriteBefore(a: Bytes, b: Bytes, at: nat, x: Bytes)
    requires at + |x| <= |a|
    ensures Overwrite(a + b, at, x) == Overwrite(a, at, x) + b
    ensures Overwrite(a, at, x)[at..at + |x|] == x
  {
  }

  /** A record past the 32-bit offsets, acked: its dead form is written at the offset modulo 2^32, which is inside
      the records before it. Its own bytes stay as they were, and while the damaged records can still be read it
      comes back at the next load, with whatever was appended after it. */
  lemma {:induction false} FarRecordStays(log: seq<Payload>, p: Payload, more: seq<Payload>)
    requires p.valid == ALIVE && Storable(p) && AllStorable(more) && |Image(log)| + 8 >= TWO_32
    ensures var dead, at := Serialize(RecordLog.Dead(p)), (|Image(log)| + 8) % TWO_32;
            var before := Overwrite(Image(log), at, dead);
            && |dead| == |Serialize(p)| && at + |dead| <= |Image(log)| && before[at..at + |dead|] == dead
            && Overwrite(Image(log + [p] + more), at, dead) == before + Image([p] + more)
            && (Scan(before).0 ==> Scan(before + Image([p] + more)) == (true, Scan(before).1 + [p] + Live(more)))
  {
    hide *;
    var dead := Serialize(RecordLog.Dead(p));
    DeadStorable(p);
    var at := FarOffset(|Image(log)| + 8, |dead|, p);
    ConcatAssociates(log, [p], more);
    ImageAppend(log, [p] + more);
    OverwriteBefore(Image(log), Image([p] + more), at, dead);
    var before := Overwrite(Image(log), at, dead);
    if Scan(before).0 {
      StaysLive(before, p, more);
    }
  }

  lemma {:induction false} StaysLive(before: Bytes, p: Payload, more: seq<Payload>)
    requires Scan(before).0 && p.valid == ALIVE && Storable(p) && AllStorable(more)
    ensures Scan(before + Image([p] + more)) == (true, Scan(before).1 + [p] + Live(more))
  {
    hide *;
    ScanConcat(before, Image([p] + more));
    FirstStays(p, more);
    ScanImage([p] + more);
    ConcatAssociates(Scan(before).1, [p], Live(more));
  }

  lemma {:induction false} FarOffset(offset: nat, length: nat, p: Payload) returns (at: nat)
    requires offset >= TWO_32 && Storable(p) && length == |Serialize(p)|
    ensures at == offset % TWO_32 && at + length <= offset - 8
  {
    hide Serialize;
    at := offset % TWO_32;
    assert offset % TWO_32 <= offset - TWO_32;
  }

  lemma {:induction false} FirstStays(p: Payload, more: seq<Payload>)
    requires p.valid == ALIVE && Storable(p) && AllStorable(more)
    ensures AllStorable([p] + more) && Live([p] + more) == [p] + Live(more)
  {
    hide Storable;
    LiveAppend([p], more);
    LiveOne(p);
  }
}
