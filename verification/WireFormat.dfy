/** The bytes of a data file, told without the names the writer and the reader share: the protobuf wire format of a
    record's body, its validity mark, and the length prefix before it. */
module WireFormat {
  import opened Basics
  import opened PayloadCodec
  import opened RecordLog
  import opened QueueModel

  // ---- varints ----

  /** Seven bits a byte, least significant first. */
  function Base128(b: Bytes): nat {
    if b == [] then 0 else b[0] as nat % 128 + 128 * Base128(b[1..])
  }

  /** A varint is the number in base 128, every byte but the last marked, with no superfluous byte at the end. */
  lemma {:induction false} VarintIsBase128(n: nat)
    ensures var b := Varint(n);
            && Base128(b) == n
            && (forall i | 0 <= i < |b| - 1 :: b[i] >= 128) && b[|b| - 1] < 128
            && (|b| > 1 ==> b[|b| - 1] > 0)
  {
    if n < 128 {
      assert Varint(n)[1..] == [];
    } else {
      VarintIsBase128(ShiftSeven(n));
      var b, t := Varint(n), Varint(ShiftSeven(n));
      assert b[1..] == t && b[|b| - 1] == t[|t| - 1];
      assert forall i | 1 <= i < |b| - 1 :: b[i] == t[i - 1];
      assert LowSeven(n) as nat % 128 == n % 128;
    }
  }

  // ---- fields ----

  /** Field number and wire type of a string or an embedded message, and of a number. */
  function StringAt(number: nat, s: Bytes): seq<Field> {
    if s == [] then [] else [Chunk(8 * number + 2, s)]
  }

  /** An enum goes out as a varint of 64 bits, a negative one in two's complement. */
  function EnumAt(number: nat, v: Int32): seq<Field> {
    if v == 0 then [] else [Number(8 * number, if v < 0 then v + 0x1_0000_0000_0000_0000 else v)]
  }

  /** The properties: field 1 the id, field 2 the delivery mode, field 3 the routing key, defaults left out. */
  lemma {:induction false} PropertiesLayout(p: Properties)
    ensures ReadFields(SerializeProperties(p))
      == StringAt(1, p.id) + EnumAt(2, p.deliveryMode) + StringAt(3, p.routingKey)
  {
    ReadPropertiesFields(p);
    hide ReadFields, SerializeProperties;
  }

  /** The payload: field 1 the properties when there are any, field 2 the body, field 3 the validity mark. */
  lemma {:induction false} PayloadLayout(p: Payload)
    ensures ReadFields(Serialize(p))
         == (if p.properties.None? then [] else [Chunk(10, SerializeProperties(p.properties.value))])
            + StringAt(2, p.body) + StringAt(3, p.valid)
  {
    ReadPayloadFields(p);
    hide ReadFields, SerializeProperties, Serialize;
  }

  /** The same as bytes: a tag, the length, the string. */
  function StringBytes(number: nat, s: Bytes): Bytes
    requires number < 16
  {
    if s == [] then [] else [(8 * number + 2) as Byte] + Varint(|s|) + s
  }

  function EnumBytes(number: nat, v: Int32): Bytes
    requires number < 16
  {
    if v == 0 then []
    else [(8 * number) as Byte] + Varint(if v < 0 then v + 0x1_0000_0000_0000_0000 else v)
  }

  lemma {:induction false} PropertiesBytes(p: Properties)
    ensures SerializeProperties(p) == StringBytes(1, p.id) + EnumBytes(2, p.deliveryMode) + StringBytes(3, p.routingKey)
  {
    hide Varint;
  }

  lemma {:induction false} PayloadBytes(p: Payload)
    ensures p.properties.None? ==> Serialize(p) == StringBytes(2, p.body) + StringBytes(3, p.valid)
    ensures p.properties.Some? ==>
      var q := SerializeProperties(p.properties.value);
      Serialize(p) == ([10] + Varint(|q|) + q) + (StringBytes(2, p.body) + StringBytes(3, p.valid))
  {
    hide Varint, SerializeProperties;
    ConcatNothing(StringBytes(2, p.body));
  }

  // ---- marks ----

  /** The record of a durable message ends in field 3 holding "1"; acked, the same bytes end in field 3 holding "0". */
  lemma {:induction false} RecordEndsInMark(bp: Option<Properties>, serverId: Bytes, body: Bytes, queueDurable: bool)
    requires IsDurable(NewPayload(bp, serverId, body, queueDurable))
    ensures var p := NewPayload(bp, serverId, body, queueDurable);
            var live, dead := Serialize(p), Serialize(RecordLog.Dead(p));
            var n := |live| - 3;
            && n >= 0 && |dead| == |live| && dead[..n] == live[..n]
            && live[n..] == [26, 1, 49] && dead[n..] == [26, 1, 48]
  {
    hide SerializeProperties;
    var p := NewPayload(bp, serverId, body, queueDurable);
    assert p.valid == [49] && RecordLog.Dead(p) == p.(valid := [48]);
    hide NewPayload, IsDurable;
    MarkLast(p, [49]);
    MarkLast(p, [48]);
    assert p.(valid := [49]) == p;
  }

  lemma {:induction false} MarkLast(p: Payload, mark: Bytes)
    requires |mark| == 1
    ensures Serialize(p.(valid := mark)) == Serialize(p.(valid := [])) + ([26, 1] + mark)
  {
    hide SerializeProperties;
    assert Varint(1) == [1];
    hide Varint;
    ConcatNothing(MessageField(TAG_1_CHUNK, p.properties) + StringField(TAG_2_CHUNK, p.body));
  }

  // ---- the length prefix ----

  lemma {:induction false} DivTwice(n: nat, i: nat)
    ensures n / 256 / Pow256(i) == n / Pow256(i + 1)
  {
    var p := Pow256(i);
    var a := n / 256;
    var q, r := a / p, a % p;
    assert n == 256 * a + n % 256 && a == q * p + r;
    assert 256 * (q * p) == q * (256 * p);
    DivIs(n, 256 * p, q);
  }

  /** Byte i of the length prefix holds bits 8 i to 8 i + 7 of the length. */
  lemma {:induction false} LittleEndianBytes(n: nat, k: nat, i: nat)
    requires i < k
    ensures LittleEndian(n, k)[i] as nat == n / Pow256(i) % 256
  {
    if i > 0 {
      LittleEndianBytes(n / 256, k - 1, i - 1);
      DivTwice(n, i - 1);
    }
  }

  /** A record: eight bytes of length, least significant first, then the body. */
  lemma {:induction false} FrameLayout(p: Payload)
    ensures |Frame(p)| == 8 + |Serialize(p)| && Frame(p)[8..] == Serialize(p)
    ensures forall i | 0 <= i < 8 :: Frame(p)[i] as nat == |Serialize(p)| / Pow256(i) % 256
  {
    hide Serialize, LittleEndian, Pow256;
    forall i | 0 <= i < 8 ensures LittleEndian(|Serialize(p)|, 8)[i] as nat == |Serialize(p)| / Pow256(i) % 256 {
      LittleEndianBytes(|Serialize(p)|, 8, i);
    }
  }

  /** The file of a log is its records one after the other, and appending changes no byte before the end. */
  lemma {:induction false} ImageLayout(log: seq<Payload>, p: Payload)
    ensures Image([]) == [] && Image(log + [p]) == Image(log) + Frame(p)
  {
    ImageSnoc(log, p);
    hide Frame;
  }

  // ---- a write in place, byte by byte ----

  lemma {:induction false} OverwriteBytes(s: Bytes, at: nat, x: Bytes, k: nat)
    ensures x == [] ==> Overwrite(s, at, x) == s
    ensures x != [] ==> |Overwrite(s, at, x)| == if at + |x| > |s| then at + |x| else |s|
    ensures k < |Overwrite(s, at, x)| ==>
      Overwrite(s, at, x)[k] == if at <= k < at + |x| then x[k - at] else if k < |s| then s[k] else 0
  {
  }

  // ---- a record cut short ----

  lemma {:induction false} ScanAfterLog(log: seq<Payload>, rest: Bytes)
    requires AllStorable(log)
    ensures Scan(Image(log) + rest) == (Scan(rest).0, Live(log) + Scan(rest).1)
  {
    hide Frame, Storable, Scan;
    if log == [] {
      ConcatNothing(rest);
      ConcatNothing(Scan(rest).1);
    } else {
      ConcatAssociates(Frame(log[0]), Image(log[1..]), rest);
      ScanFrame(log[0], Image(log[1..]) + rest);
      ScanAfterLog(log[1..], rest);
      ConcatAssociates(if log[0].valid == DEAD then [] else [log[0]], Live(log[1..]), Scan(rest).1);
    }
  }

  /** A log whose last record was only partly written: load reads the whole records and reports failure. */
  lemma {:induction false} TornRecord(log: seq<Payload>, p: Payload, k: nat)
    requires AllStorable(log) && Storable(p) && 0 < k < |Frame(p)|
    ensures Scan(Image(log) + Frame(p)[..k]) == (false, Live(log))
  {
    hide Image, Live, Storable;
    TornFrame(p, k);
    ScanAfterLog(log, Frame(p)[..k]);
    ConcatNothing(Live(log));
  }

  lemma {:induction false} TornFrame(p: Payload, k: nat)
    requires Storable(p) && 0 < k < |Frame(p)|
    ensures Scan(Frame(p)[..k]) == (false, [])
  {
    var f, n := Frame(p)[..k], |Serialize(p)|;
    IntMaxFits(n);
    LittleEndianRoundTrip(n, 8);
    hide Serialize, LittleEndian, FromLittleEndian, Parse, FitsBytes;
    if k >= 8 {
      assert f[..8] == LittleEndian(n, 8);
    }
  }
}
