/** The protobuf wire form of `Message.Payload`: what a record of the data file holds. */
module PayloadCodec {
  import opened Basics

  type Int32 = x: int | -0x8000_0000 <= x < 0x8000_0000

  const INT_MAX := 0x7fff_ffff
  const TWO_32 := 0x1_0000_0000

  // The delivery mode is an open enum: any int32 can arrive.
  const UNDURABLE: Int32 := 1
  const DURABLE: Int32 := 2

  datatype Properties = Properties(id: Bytes, deliveryMode: Int32, routingKey: Bytes)
  datatype Payload = Payload(properties: Option<Properties>, body: Bytes, valid: Bytes)

  const NO_PROPERTIES := Properties([], 0, [])
  const NO_PAYLOAD := Payload(None, [], [])

  // Field tags: number * 8 + wire type.
  const TAG_1_CHUNK: Byte := 10
  const TAG_2_VARINT: Byte := 16
  const TAG_2_CHUNK: Byte := 18
  const TAG_3_CHUNK: Byte := 26

  // ---- writing ----

  /** The next byte of a varint that goes on: seven bits and the continuation mark. */
  function LowSeven(n: nat): Byte {
    (n % 128 + 128) as Byte
  }

  function ShiftSeven(n: nat): (m: nat)
    ensures n >= 128 ==> m < n
  {
    n / 128
  }

  function Varint(n: nat): (b: Bytes)
    ensures |b| > 0
  {
    if n < 128 then [n as Byte] else [LowSeven(n)] + Varint(ShiftSeven(n))
  }

  /** Enums go out as 64-bit varints, negative values sign-extended. */
  function EnumBits(v: Int32): nat {
    if v < 0 then v + TWO_64 else v
  }

  function StringField(tag: Byte, s: Bytes): Bytes {
    if s == [] then [] else [tag] + Varint(|s|) + s
  }

  function EnumField(tag: Byte, v: Int32): Bytes {
    if v == 0 then [] else [tag] + Varint(EnumBits(v))
  }

  function SerializeProperties(p: Properties): Bytes {
    StringField(TAG_1_CHUNK, p.id) + EnumField(TAG_2_VARINT, p.deliveryMode) + StringField(TAG_3_CHUNK, p.routingKey)
  }

  function MessageField(tag: Byte, p: Option<Properties>): Bytes {
    match p
    case None => []
    case Some(q) => [tag] + Varint(|SerializeProperties(q)|) + SerializeProperties(q)
  }

  function Serialize(p: Payload): Bytes {
    MessageField(TAG_1_CHUNK, p.properties) + StringField(TAG_2_CHUNK, p.body) + StringField(TAG_3_CHUNK, p.valid)
  }

  /** Protobuf refuses to serialize more than INT_MAX bytes and hands out the empty string instead. */
  function SerializedString(p: Payload): Bytes {
    if |Serialize(p)| > INT_MAX then [] else Serialize(p)
  }

  // ---- writing, as the generated code does it ----

  method WriteByte(buffer: array<Byte>, at: nat, b: Byte) returns (target: nat)
    requires at < buffer.Length
    modifies buffer
    ensures target == at + 1
    ensures buffer[..] == Overwrite(old(buffer[..]), at, [b])
  {
    ghost var was := buffer[..];
    buffer[at] := b;
    assert buffer[..] == was[at := b];
    return at + 1;
  }

  method WriteVarint(buffer: array<Byte>, at: nat, n: nat) returns (target: nat)
    requires at + |Varint(n)| <= buffer.Length
    modifies buffer
    ensures target == at + |Varint(n)|
    ensures buffer[..] == Overwrite(old(buffer[..]), at, Varint(n))
  {
    ghost var all := Overwrite(buffer[..], at, Varint(n));
    target := at;
    var value := n;
    hide *;
    while value >= 128
      invariant target + |Varint(value)| == at + |Varint(n)|
      invariant Overwrite(buffer[..], target, Varint(value)) == all
    {
      VarintStep(value);
      OverwriteTwice(buffer[..], target, [LowSeven(value)], Varint(ShiftSeven(value)));
      target := WriteByte(buffer, target, LowSeven(value));
      value := ShiftSeven(value);
    }
    VarintEnd(value);
    target := WriteByte(buffer, target, value as Byte);
  }

  lemma {:induction false} VarintStep(n: nat)
    requires n >= 128
    ensures Varint(n) == [LowSeven(n)] + Varint(ShiftSeven(n))
  {
  }

  lemma {:induction false} VarintEnd(n: nat)
    requires n < 128
    ensures Varint(n) == [n as Byte]
  {
  }

  method WriteBytes(buffer: array<Byte>, at: nat, s: Bytes) returns (target: nat)
    requires at + |s| <= buffer.Length
    modifies buffer
    ensures target == at + |s|
    ensures buffer[..] == Overwrite(old(buffer[..]), at, s)
  {
    forall k | 0 <= k < |s| {
      buffer[at + k] := s[k];
    }
    return at + |s|;
  }

  /** Tag and number, left out for the default value. */
  method WriteEnum(buffer: array<Byte>, at: nat, tag: Byte, v: Int32) returns (target: nat)
    requires at + |EnumField(tag, v)| <= buffer.Length
    modifies buffer
    ensures target == at + |EnumField(tag, v)|
    ensures buffer[..] == Overwrite(old(buffer[..]), at, EnumField(tag, v))
  {
    OverwriteNothing(buffer[..], at);
    OverwriteTwice(buffer[..], at, [tag], Varint(EnumBits(v)));
    hide Overwrite, Varint, EnumBits;
    target := at;
    if v != 0 {
      target := WriteByte(buffer, target, tag);
      target := WriteVarint(buffer, target, EnumBits(v));
    }
  }

  /** Tag and length: the head of a string or of an embedded message. */
  method WriteHead(buffer: array<Byte>, at: nat, tag: Byte, length: nat) returns (target: nat)
    requires at + |[tag] + Varint(length)| <= buffer.Length
    modifies buffer
    ensures target == at + |[tag] + Varint(length)|
    ensures buffer[..] == Overwrite(old(buffer[..]), at, [tag] + Varint(length))
  {
    OverwriteTwice(buffer[..], at, [tag], Varint(length));
    hide *;
    target := WriteByte(buffer, at, tag);
    target := WriteVarint(buffer, target, length);
  }

  /** WriteStringMaybeAliased, left out for the empty string. */
  method WriteString(buffer: array<Byte>, at: nat, tag: Byte, s: Bytes) returns (target: nat)
    requires at + |StringField(tag, s)| <= buffer.Length
    modifies buffer
    ensures target == at + |StringField(tag, s)|
    ensures buffer[..] == Overwrite(old(buffer[..]), at, StringField(tag, s))
  {
    OverwriteNothing(buffer[..], at);
    OverwriteTwice(buffer[..], at, [tag] + Varint(|s|), s);
    hide Overwrite, Varint;
    target := at;
    if s != [] {
      target := WriteHead(buffer, target, tag, |s|);
      target := WriteBytes(buffer, target, s);
    }
  }

  /** Three adjacent writes are one. */
  lemma {:induction false} OverwriteThrice(s: Bytes, at: nat, x: Bytes, y: Bytes, z: Bytes)
    requires at <= |s|
    ensures Overwrite(Overwrite(Overwrite(s, at, x), at + |x|, y), at + |x| + |y|, z)
         == Overwrite(s, at, x + y + z)
  {
    OverwriteTwice(s, at, x, y);
    OverwriteTwice(s, at, x + y, z);
  }

  lemma {:induction false} SerializePropertiesParts(p: Properties)
    ensures SerializeProperties(p) == StringField(TAG_1_CHUNK, p.id) + EnumField(TAG_2_VARINT, p.deliveryMode)
                                      + StringField(TAG_3_CHUNK, p.routingKey)
  {
    hide StringField, EnumField;
  }

  /** `BasicProperties::_InternalSerialize`. */
  method WriteProperties(buffer: array<Byte>, at: nat, p: Properties) returns (target: nat)
    requires at + |SerializeProperties(p)| <= buffer.Length
    modifies buffer
    ensures target == at + |SerializeProperties(p)|
    ensures buffer[..] == Overwrite(old(buffer[..]), at, SerializeProperties(p))
  {
    ghost var f1 := StringField(TAG_1_CHUNK, p.id);
    ghost var f2 := EnumField(TAG_2_VARINT, p.deliveryMode);
    ghost var f3 := StringField(TAG_3_CHUNK, p.routingKey);
    hide *;
    SerializePropertiesParts(p);
    OverwriteThrice(buffer[..], at, f1, f2, f3);
    target := WriteString(buffer, at, TAG_1_CHUNK, p.id);
    target := WriteEnum(buffer, target, TAG_2_VARINT, p.deliveryMode);
    target := WriteString(buffer, target, TAG_3_CHUNK, p.routingKey);
  }

  /** InternalWriteMessage, left out when the embedded message is absent. */
  method WriteMessage(buffer: array<Byte>, at: nat, tag: Byte, p: Option<Properties>) returns (target: nat)
    requires at + |MessageField(tag, p)| <= buffer.Length
    modifies buffer
    ensures target == at + |MessageField(tag, p)|
    ensures buffer[..] == Overwrite(old(buffer[..]), at, MessageField(tag, p))
  {
    hide *;
    MessageFieldParts(tag, p);
    OverwriteNothing(buffer[..], at);
    target := at;
    if p.Some? {
      var size := PropertiesByteSize(p.value);
      OverwriteTwice(buffer[..], at, [tag] + Varint(size), SerializeProperties(p.value));
      target := WriteHead(buffer, target, tag, size);
      target := WriteProperties(buffer, target, p.value);
    }
  }

  lemma {:induction false} MessageFieldParts(tag: Byte, p: Option<Properties>)
    ensures p.None? ==> MessageField(tag, p) == []
    ensures p.Some? ==>
      MessageField(tag, p) == ([tag] + Varint(|SerializeProperties(p.value)|)) + SerializeProperties(p.value)
  {
    hide Varint, SerializeProperties;
  }

  lemma {:induction false} SerializeParts(p: Payload)
    ensures Serialize(p)
         == MessageField(TAG_1_CHUNK, p.properties) + StringField(TAG_2_CHUNK, p.body)
           + StringField(TAG_3_CHUNK, p.valid)
  {
    hide MessageField, StringField;
  }

  /** `Message_Payload::_InternalSerialize`. */
  method InternalSerialize(buffer: array<Byte>, at: nat, p: Payload) returns (target: nat)
    requires at + |Serialize(p)| <= buffer.Length
    modifies buffer
    ensures target == at + |Serialize(p)|
    ensures buffer[..] == Overwrite(old(buffer[..]), at, Serialize(p))
  {
    ghost var f1 := MessageField(TAG_1_CHUNK, p.properties);
    ghost var f2 := StringField(TAG_2_CHUNK, p.body);
    ghost var f3 := StringField(TAG_3_CHUNK, p.valid);
    hide *;
    SerializeParts(p);
    OverwriteThrice(buffer[..], at, f1, f2, f3);
    target := WriteMessage(buffer, at, TAG_1_CHUNK, p.properties);
    target := WriteString(buffer, target, TAG_2_CHUNK, p.body);
    target := WriteString(buffer, target, TAG_3_CHUNK, p.valid);
  }

  // ---- sizes, as ByteSizeLong accumulates them ----

  function VarintSize(n: nat): nat {
    if n < 128 then 1 else 1 + VarintSize(ShiftSeven(n))
  }

  lemma {:induction false} VarintLength(n: nat)
    ensures |Varint(n)| == VarintSize(n)
  {
    if n >= 128 {
      VarintLength(ShiftSeven(n));
    }
  }

  /** Length prefix and bytes of a string. */
  function StringSize(s: Bytes): nat {
    VarintSize(|s|) + |s|
  }

  /** `BasicProperties::ByteSizeLong`. */
  method PropertiesByteSize(p: Properties) returns (total: nat)
    ensures total == |SerializeProperties(p)|
  {
    VarintLength(|p.id|);
    VarintLength(|p.routingKey|);
    VarintLength(EnumBits(p.deliveryMode));
    hide Varint, VarintSize;
    total := 0;
    if p.id != [] {
      total := total + 1 + StringSize(p.id);
    }
    if p.routingKey != [] {
      total := total + 1 + StringSize(p.routingKey);
    }
    if p.deliveryMode != 0 {
      total := total + 1 + VarintSize(EnumBits(p.deliveryMode));
    }
  }

  /** `Message_Payload::ByteSizeLong`. */
  method ByteSizeLong(p: Payload) returns (total: nat)
    ensures total == |Serialize(p)|
  {
    VarintLength(|p.body|);
    VarintLength(|p.valid|);
    hide Varint, VarintSize, SerializeProperties;
    total := 0;
    if p.body != [] {
      total := total + 1 + StringSize(p.body);
    }
    if p.valid != [] {
      total := total + 1 + StringSize(p.valid);
    }
    if p.properties.Some? {
      var size := PropertiesByteSize(p.properties.value);
      VarintLength(size);
      total := total + 1 + VarintSize(size) + size;
    }
  }

  /** `SerializeAsString`: a buffer of exactly the computed size is filled exactly to its end. */
  method SerializeAsString(p: Payload) returns (s: Bytes)
    ensures s == SerializedString(p)
  {
    var size := ByteSizeLong(p);
    if size > INT_MAX {
      return [];
    }
    var buffer := new Byte[size](_ => 0);
    var end := InternalSerialize(buffer, 0, p);
    assert end == size;
    s := buffer[..];
  }

  // ---- reading: the part of the wire format these two messages use ----

  datatype Field = Number(tag: nat, value: nat) | Chunk(tag: nat, bytes: Bytes)

  /** Value and width of the varint a byte string starts with. */
  function ReadVarint(b: Bytes): (r: Option<(nat, nat)>)
    ensures r.Some? ==> 0 < r.value.1 <= |b|
  {
    if b == [] then None
    else if b[0] < 128 then Some((b[0] as nat, 1))
    else match ReadVarint(b[1..])
         case None => None
         case Some(vn) => Some(((b[0] - 128) as nat + 128 * vn.0, vn.1 + 1))
  }

  /** The first field and what follows it; None at a malformed or unsupported field. */
  function ReadField(b: Bytes): (r: Option<(Field, Bytes)>)
    ensures r.Some? ==> |r.value.1| < |b|
  {
    match ReadVarint(b)
    case None => None
    case Some(tag) =>
      match ReadVarint(b[tag.1..])
      case None => None
      case Some(n) =>
        var rest := b[tag.1 + n.1..];
        if tag.0 % 8 == 0 then Some((Number(tag.0, n.0), rest))
        else if tag.0 % 8 == 2 && n.0 <= |rest| then Some((Chunk(tag.0, rest[..n.0]), rest[n.0..]))
        else None
  }

  /** The fields up to the end or the first malformed one. */
  function ReadFields(b: Bytes): seq<Field>
    decreases |b|
  {
    match ReadField(b)
    case None => []
    case Some(fr) => [fr.0] + ReadFields(fr.1)
  }

  function ToInt32(v: nat): Int32 {
    var w := v % TWO_32;
    if w > INT_MAX then w - TWO_32 else w
  }

  function SetProperty(p: Properties, f: Field): Properties {
    match f
    case Chunk(10, s) => p.(id := s)
    case Number(16, v) => p.(deliveryMode := ToInt32(v))
    case Chunk(26, s) => p.(routingKey := s)
    case _ => p
  }

  function SetProperties(p: Properties, fs: seq<Field>): Properties
    decreases |fs|
  {
    if fs == [] then p else SetProperties(SetProperty(p, fs[0]), fs[1..])
  }

  function SetPayloadField(p: Payload, f: Field): Payload {
    match f
    case Chunk(10, s) =>
      var was := if p.properties.Some? then p.properties.value else NO_PROPERTIES;
      p.(properties := Some(SetProperties(was, ReadFields(s))))
    case Chunk(18, s) => p.(body := s)
    case Chunk(26, s) => p.(valid := s)
    case _ => p
  }

  function SetPayloadFields(p: Payload, fs: seq<Field>): Payload
    decreases |fs|
  {
    if fs == [] then p else SetPayloadFields(SetPayloadField(p, fs[0]), fs[1..])
  }

  /** `ParseFromString`: what the fields say, later ones over earlier ones. */
  function Parse(b: Bytes): Payload {
    SetPayloadFields(NO_PAYLOAD, ReadFields(b))
  }

  // ---- reading undoes writing ----

  lemma {:induction false} ReadVarintOf(n: nat, rest: Bytes)
    ensures ReadVarint(Varint(n) + rest) == Some((n, |Varint(n)|))
  {
    var b := Varint(n) + rest;
    if n >= 128 {
      ReadVarintOf(ShiftSeven(n), rest);
      assert b[1..] == Varint(ShiftSeven(n)) + rest;
    }
  }

  lemma {:induction false} ReadTag(tag: Byte, rest: Bytes)
    requires tag < 128
    ensures ReadVarint([tag] + rest) == Some((tag as nat, 1)) && ([tag] + rest)[1..] == rest
  {
  }

  lemma {:induction false} Peel(h: Bytes, v: Bytes, s: Bytes, rest: Bytes)
    ensures var b := h + v + s + rest;
            && b == h + (v + (s + rest))
            && b[|h|..] == v + (s + rest)
            && b[|h| + |v|..] == s + rest
            && (s + rest)[..|s|] == s && (s + rest)[|s|..] == rest
  {
  }

  lemma {:induction false} ReadFieldSteps(b: Bytes, tag: nat, tagWidth: nat, n: nat, width: nat)
    requires tagWidth + width <= |b|
    requires ReadVarint(b) == Some((tag, tagWidth)) && ReadVarint(b[tagWidth..]) == Some((n, width))
    ensures tag % 8 == 0 ==> ReadField(b) == Some((Number(tag, n), b[tagWidth + width..]))
    ensures tag % 8 == 2 && n <= |b[tagWidth + width..]| ==>
      ReadField(b) == Some((Chunk(tag, b[tagWidth + width..][..n]), b[tagWidth + width..][n..]))
  {
    hide ReadVarint;
  }

  lemma {:induction false} ReadChunk(tag: Byte, s: Bytes, rest: Bytes)
    requires tag < 128 && tag % 8 == 2
    ensures ReadField([tag] + Varint(|s|) + s + rest) == Some((Chunk(tag as nat, s), rest))
  {
    hide *;
    ReadVarintOf(|s|, s + rest);
    ReadTag(tag, Varint(|s|) + (s + rest));
    Peel([tag], Varint(|s|), s, rest);
    ReadFieldSteps([tag] + Varint(|s|) + s + rest, tag as nat, 1, |s|, |Varint(|s|)|);
  }

  lemma {:induction false} ReadNumber(tag: Byte, n: nat, rest: Bytes)
    requires tag < 128 && tag % 8 == 0
    ensures ReadField([tag] + Varint(n) + rest) == Some((Number(tag as nat, n), rest))
  {
    hide *;
    ReadVarintOf(n, rest);
    ReadTag(tag, Varint(n) + rest);
    Peel([tag], Varint(n), [], rest);
    ConcatNothing(rest);
    ConcatNothing([tag] + Varint(n));
    ReadFieldSteps([tag] + Varint(n) + rest, tag as nat, 1, n, |Varint(n)|);
  }

  lemma {:induction false} ReadStringField(tag: Byte, s: Bytes, rest: Bytes)
    requires tag < 128 && tag % 8 == 2
    ensures ReadFields(StringField(tag, s) + rest)
      == (if s == [] then [] else [Chunk(tag as nat, s)]) + ReadFields(rest)
  {
    ReadChunk(tag, s, rest);
    hide Varint, ReadField;
    assert [] + rest == rest;
  }

  lemma {:induction false} ReadEnumField(tag: Byte, v: Int32, rest: Bytes)
    requires tag < 128 && tag % 8 == 0
    ensures ReadFields(EnumField(tag, v) + rest)
         == (if v == 0 then [] else [Number(tag as nat, EnumBits(v))]) + ReadFields(rest)
  {
    ReadNumber(tag, EnumBits(v), rest);
    hide Varint, ReadField, EnumBits;
    assert [] + rest == rest;
  }

  lemma {:induction false} EnumRoundTrip(v: Int32)
    ensures ToInt32(EnumBits(v)) == v
  {
  }

  function StringFields(tag: Byte, s: Bytes): seq<Field> {
    if s == [] then [] else [Chunk(tag as nat, s)]
  }

  function PropertiesFields(p: Properties): seq<Field> {
    StringFields(TAG_1_CHUNK, p.id)
    + (if p.deliveryMode == 0 then [] else [Number(TAG_2_VARINT as nat, EnumBits(p.deliveryMode))])
    + StringFields(TAG_3_CHUNK, p.routingKey)
  }

  lemma {:induction false} ReadThree(f1: Bytes, f2: Bytes, f3: Bytes, a: seq<Field>, b: seq<Field>, c: seq<Field>)
    requires ReadFields(f1 + (f2 + f3)) == a + ReadFields(f2 + f3)
    requires ReadFields(f2 + f3) == b + ReadFields(f3)
    requires ReadFields(f3 + []) == c + ReadFields([])
    ensures ReadFields(f1 + f2 + f3) == a + b + c
  {
    hide *;
    ReadNothing();
    ConcatNothing(f3);
    ConcatNothing(c);
    ConcatAssociates(f1, f2, f3);
    ConcatAssociates(a, b, c);
  }

  lemma {:induction false} ReadNothing()
    ensures ReadFields([]) == []
  {
  }

  lemma {:induction false} ReadPropertiesFields(p: Properties)
    ensures ReadFields(SerializeProperties(p)) == PropertiesFields(p)
  {
    var f1 := StringField(TAG_1_CHUNK, p.id);
    var f2 := EnumField(TAG_2_VARINT, p.deliveryMode);
    var f3 := StringField(TAG_3_CHUNK, p.routingKey);
    ReadStringField(TAG_1_CHUNK, p.id, f2 + f3);
    ReadEnumField(TAG_2_VARINT, p.deliveryMode, f3);
    ReadStringField(TAG_3_CHUNK, p.routingKey, []);
    hide ReadFields, StringField, EnumField, EnumBits;
    ReadThree(f1, f2, f3, StringFields(TAG_1_CHUNK, p.id),
              if p.deliveryMode == 0 then [] else [Number(TAG_2_VARINT as nat, EnumBits(p.deliveryMode))],
              StringFields(TAG_3_CHUNK, p.routingKey));
  }

  lemma {:induction false} SetPropertiesFields(p: Properties)
    ensures SetProperties(NO_PROPERTIES, PropertiesFields(p)) == p
  {
    EnumRoundTrip(p.deliveryMode);
    hide EnumBits, ToInt32;
    var a := StringFields(TAG_1_CHUNK, p.id);
    var b := if p.deliveryMode == 0 then [] else [Number(TAG_2_VARINT as nat, EnumBits(p.deliveryMode))];
    var c := StringFields(TAG_3_CHUNK, p.routingKey);
    SetPropertiesAppend(NO_PROPERTIES, a + b, c);
    SetPropertiesAppend(NO_PROPERTIES, a, b);
  }

  lemma {:induction false} PropertiesRoundTrip(p: Properties)
    ensures SetProperties(NO_PROPERTIES, ReadFields(SerializeProperties(p))) == p
  {
    ReadPropertiesFields(p);
    SetPropertiesFields(p);
  }

  lemma {:induction false} SetPropertiesAppend(p: Properties, fs: seq<Field>, gs: seq<Field>)
    ensures SetProperties(p, fs + gs) == SetProperties(SetProperties(p, fs), gs)
    decreases |fs|
  {
    hide SetProperty;
    if fs == [] {
      assert fs + gs == gs;
    } else {
      assert (fs + gs)[1..] == fs[1..] + gs;
      SetPropertiesAppend(SetProperty(p, fs[0]), fs[1..], gs);
    }
  }

  lemma {:induction false} SetPayloadFieldsAppend(p: Payload, fs: seq<Field>, gs: seq<Field>)
    ensures SetPayloadFields(p, fs + gs) == SetPayloadFields(SetPayloadFields(p, fs), gs)
    decreases |fs|
  {
    hide SetPayloadField;
    if fs == [] {
      assert fs + gs == gs;
    } else {
      assert (fs + gs)[1..] == fs[1..] + gs;
      SetPayloadFieldsAppend(SetPayloadField(p, fs[0]), fs[1..], gs);
    }
  }

  lemma {:induction false} ReadMessageField(p: Option<Properties>, rest: Bytes)
    ensures ReadFields(MessageField(TAG_1_CHUNK, p) + rest)
         == (if p.None? then [] else [Chunk(10, SerializeProperties(p.value))]) + ReadFields(rest)
  {
    if p.Some? {
      ReadChunk(TAG_1_CHUNK, SerializeProperties(p.value), rest);
    }
    hide Varint, ReadField, SerializeProperties;
    assert [] + rest == rest;
  }

  function PayloadFields(p: Payload): seq<Field> {
    (if p.properties.None? then [] else [Chunk(TAG_1_CHUNK as nat, SerializeProperties(p.properties.value))])
    + StringFields(TAG_2_CHUNK, p.body)
    + StringFields(TAG_3_CHUNK, p.valid)
  }

  lemma {:induction false} ReadPayloadFields(p: Payload)
    ensures ReadFields(Serialize(p)) == PayloadFields(p)
  {
    var f1 := MessageField(TAG_1_CHUNK, p.properties);
    var f2 := StringField(TAG_2_CHUNK, p.body);
    var f3 := StringField(TAG_3_CHUNK, p.valid);
    ReadMessageField(p.properties, f2 + f3);
    ReadStringField(TAG_2_CHUNK, p.body, f3);
    ReadStringField(TAG_3_CHUNK, p.valid, []);
    hide ReadFields, StringField, MessageField, SerializeProperties;
    ReadThree(f1, f2, f3,
              if p.properties.None? then [] else [Chunk(TAG_1_CHUNK as nat, SerializeProperties(p.properties.value))],
              StringFields(TAG_2_CHUNK, p.body), StringFields(TAG_3_CHUNK, p.valid));
  }

  lemma {:induction false} SetAllPayloadFields(p: Payload)
    ensures SetPayloadFields(NO_PAYLOAD, PayloadFields(p)) == p
  {
    if p.properties.Some? {
      PropertiesRoundTrip(p.properties.value);
    }
    hide SerializeProperties, SetProperties, ReadFields;
    var a := if p.properties.None? then [] else [Chunk(TAG_1_CHUNK as nat, SerializeProperties(p.properties.value))];
    var b := StringFields(TAG_2_CHUNK, p.body);
    var c := StringFields(TAG_3_CHUNK, p.valid);
    SetPayloadFieldsAppend(NO_PAYLOAD, a + b, c);
    SetPayloadFieldsAppend(NO_PAYLOAD, a, b);
  }

  /** Parsing what was serialized gives the payload back, every field of it. */
  lemma {:induction false} ParseSerialize(p: Payload)
    ensures Parse(Serialize(p)) == p
  {
    ReadPayloadFields(p);
    SetAllPayloadFields(p);
  }

  /** The size of the wire form depends on `valid` only through its length. */
  lemma {:induction false} SizeIgnoresValid(p: Payload, v: Bytes)
    requires |v| == |p.valid|
    ensures |Serialize(p.(valid := v))| == |Serialize(p)|
  {
    hide Varint, MessageField;
    assert |StringField(TAG_3_CHUNK, v)| == |StringField(TAG_3_CHUNK, p.valid)|;
  }
}
