/**
 Protocol Buffers messages as lists of fields: serialisation, an independent
 decoder, and packed repeated fields (encoding guide, sections "Message
 Structure" and "Packed Repeated Fields").
 */
module Protobuf {
  import opened Basics
  import opened WireScalars

  datatype Field =
    | VarintField(num: nat, value: u64)
    | DoubleField(num: nat, bits: F64)
    | BytesField(num: nat, payload: seq<byte>)

  /** Key of a field: its number and wire type. */
  function Key(num: nat, wireType: nat): nat {
    num * 8 + wireType
  }

  function FieldBytes(field: Field): (bytes: seq<byte>)
    ensures bytes != []
  {
    match field
    case VarintField(num, value) => Varint(Key(num, 0)) + Varint(value)
    case DoubleField(num, bits) => Varint(Key(num, 1)) + DoubleBytes(bits)
    case BytesField(num, payload) => Varint(Key(num, 2)) + (Varint(|payload| % TWO_64) + payload)
  }

  function Serialize(fields: seq<Field>): (bytes: seq<byte>)
    ensures fields == [] <==> bytes == []
  {
    if fields == [] then [] else FieldBytes(fields[0]) + Serialize(fields[1..])
  }

  /** A field number the wire can carry, and a payload whose length it can. */
  predicate Wire(field: Field) {
    && 1 <= field.num < 0x2000_0000
    && (field.BytesField? ==> |field.payload| < TWO_64)
  }

  ghost predicate AllWire(fields: seq<Field>) {
    forall i | 0 <= i < |fields| :: Wire(fields[i])
  }

  // ----- decoding

  function ReadField(bytes: seq<byte>): (r: Option<(Field, seq<byte>)>)
    ensures r.Some? ==> |r.value.1| < |bytes|
  {
    match ReadVarint(bytes)
    case None => None
    case Some((key, body)) =>
      var num := key / 8;
      if num == 0 then None
      else if key % 8 == 0 then
        match ReadVarint(body)
        case None => None
        case Some((value, rest)) => Some((VarintField(num, value), rest))
      else if key % 8 == 1 then
        if |body| < 8 then None
        else Some((DoubleField(num, FromDoubleBytes(body[..8])), body[8..]))
      else if key % 8 == 2 then
        match ReadVarint(body)
        case None => None
        case Some((length, rest)) =>
          if |rest| < length then None else Some((BytesField(num, rest[..length]), rest[length..]))
      else
        None
  }

  /** Decodes a whole message body; every byte must belong to a field. */
  function ReadFields(bytes: seq<byte>): Option<seq<Field>>
    decreases |bytes|
  {
    if bytes == [] then Some([])
    else
      match ReadField(bytes)
      case None => None
      case Some((field, rest)) =>
        match ReadFields(rest)
        case None => None
        case Some(fields) => Some([field] + fields)
  }

  lemma ReadFieldBytes(field: Field, rest: seq<byte>)
    requires Wire(field)
    ensures ReadField(FieldBytes(field) + rest) == Some((field, rest))
  {
    hide Varint, ReadVarint, DoubleBytes, FromDoubleBytes;
    match field
    case VarintField(num, value) =>
      assert FieldBytes(field) + rest == Varint(Key(num, 0)) + (Varint(value) + rest);
      VarintRoundTrip(Key(num, 0), Varint(value) + rest);
      VarintRoundTrip(value, rest);
    case DoubleField(num, bits) =>
      var body := DoubleBytes(bits) + rest;
      assert FieldBytes(field) + rest == Varint(Key(num, 1)) + body;
      VarintRoundTrip(Key(num, 1), body);
      DoubleRoundTrip(bits);
      assert body[..8] == DoubleBytes(bits) && body[8..] == rest;
    case BytesField(num, payload) =>
      var tail := payload + rest;
      var body := Varint(|payload|) + tail;
      assert FieldBytes(field) + rest == Varint(Key(num, 2)) + body;
      VarintRoundTrip(Key(num, 2), body);
      VarintRoundTrip(|payload|, tail);
      assert tail[..|payload|] == payload && tail[|payload|..] == rest;
  }

  /** The decoder reads back every serialised field list and consumes every byte. */
  lemma {:induction false} FieldsRoundTrip(fields: seq<Field>)
    requires AllWire(fields)
    ensures ReadFields(Serialize(fields)) == Some(fields)
  {
    hide FieldBytes, ReadField;
    if fields != [] {
      ReadFieldBytes(fields[0], Serialize(fields[1..]));
      FieldsRoundTrip(fields[1..]);
      assert fields == [fields[0]] + fields[1..];
    }
  }

  lemma {:induction false} SerializeAppend(a: seq<Field>, b: seq<Field>)
    ensures Serialize(a + b) == Serialize(a) + Serialize(b)
  {
    hide FieldBytes;
    if a == [] {
      assert a + b == b;
    } else {
      SerializeAppend(a[1..], b);
      assert (a + b)[1..] == a[1..] + b && (a + b)[0] == a[0];
    }
  }

  lemma SerializeOne(field: Field)
    ensures Serialize([field]) == FieldBytes(field)
  {
  }

  /** A payload is no longer than the message around it. */
  lemma {:induction false} PayloadFits(fields: seq<Field>, i: nat)
    requires i < |fields| && fields[i].BytesField?
    ensures |fields[i].payload| < |Serialize(fields)|
  {
    if i > 0 {
      PayloadFits(fields[1..], i - 1);
    }
  }

  // ----- packed repeated fields

  function PackedZigZag(values: seq<i64>): seq<byte> {
    if values == [] then [] else Varint(ZigZag(values[0])) + PackedZigZag(values[1..])
  }

  function ReadPackedZigZag(bytes: seq<byte>): Option<seq<i64>>
    decreases |bytes|
  {
    if bytes == [] then Some([])
    else
      match ReadVarint(bytes)
      case None => None
      case Some((bits, rest)) =>
        match ReadPackedZigZag(rest)
        case None => None
        case Some(values) => Some([UnZigZag(bits)] + values)
  }

  lemma {:induction false} PackedZigZagRoundTrip(values: seq<i64>)
    ensures ReadPackedZigZag(PackedZigZag(values)) == Some(values)
  {
    if values != [] {
      PackedZigZagRoundTrip(values[1..]);
      VarintRoundTrip(ZigZag(values[0]), PackedZigZag(values[1..]));
      ZigZagBijection(values[0], 0);
      assert values == [values[0]] + values[1..];
    }
  }

  function PackedVarints(values: seq<u64>): seq<byte> {
    if values == [] then [] else Varint(values[0]) + PackedVarints(values[1..])
  }

  function ReadPackedVarints(bytes: seq<byte>): Option<seq<u64>>
    decreases |bytes|
  {
    if bytes == [] then Some([])
    else
      match ReadVarint(bytes)
      case None => None
      case Some((value, rest)) =>
        match ReadPackedVarints(rest)
        case None => None
        case Some(values) => Some([value] + values)
  }

  lemma {:induction false} PackedVarintsRoundTrip(values: seq<u64>)
    ensures ReadPackedVarints(PackedVarints(values)) == Some(values)
  {
    if values != [] {
      PackedVarintsRoundTrip(values[1..]);
      VarintRoundTrip(values[0], PackedVarints(values[1..]));
      assert values == [values[0]] + values[1..];
    }
  }

  function PackedDoubles(values: seq<F64>): (bytes: seq<byte>)
    ensures |bytes| == 8 * |values|
  {
    if values == [] then [] else DoubleBytes(values[0]) + PackedDoubles(values[1..])
  }

  function ReadPackedDoubles(bytes: seq<byte>): Option<seq<F64>> {
    if bytes == [] then Some([])
    else if |bytes| < 8 then None
    else
      match ReadPackedDoubles(bytes[8..])
      case None => None
      case Some(values) => Some([FromDoubleBytes(bytes[..8])] + values)
  }

  lemma {:induction false} PackedDoublesRoundTrip(values: seq<F64>)
    ensures ReadPackedDoubles(PackedDoubles(values)) == Some(values)
  {
    if values != [] {
      var bytes := PackedDoubles(values);
      PackedDoublesRoundTrip(values[1..]);
      DoubleRoundTrip(values[0]);
      assert bytes[..8] == DoubleBytes(values[0]) && bytes[8..] == PackedDoubles(values[1..]);
      assert values == [values[0]] + values[1..];
    }
  }
}
