/**
 * The client-to-server message (packages/net-utils/src/net/client.ts): the
 * Borsh struct of three optional fields, in this order: roomName (string),
 * pointerXPercent (f32) and pointerYPercent (f32).
 */
module ClientCodec {
  import opened Wrappers
  import opened ByteSeq
  import opened Borsh
  import Utf8

  datatype ClientUpdate = ClientUpdate(
    roomName: Option<string>,
    pointerXPercent: Option<F32>,
    pointerYPercent: Option<F32>)

  /** The values the schema can carry: a room name's UTF-8 length fits a u32. */
  predicate WellTyped(u: ClientUpdate) {
    u.roomName.Some? ==> |Utf8.Encode(u.roomName.value)| < U32_LIMIT
  }

  function EncodeFields(u: ClientUpdate): Encoded {
    var roomName :- EncodeOption(u.roomName, EncodeString);
    var x := EncodeOption(u.pointerXPercent, EncodeF32).value;
    var y := EncodeOption(u.pointerYPercent, EncodeF32).value;
    Ok(roomName + (x + y))
  }

  function DecodeFields(s: Bytes): Decoded<ClientUpdate> {
    var roomName :- DecodeOption(s, DecodeString);
    var x :- DecodeOption(roomName.1, DecodeF32);
    var y :- DecodeOption(x.1, DecodeF32);
    Ok((ClientUpdate(roomName.0, x.0, y.0), y.1))
  }

  /** serializeClientUpdate: fails (throws, in the source) on a value the schema cannot carry. */
  function SerializeClientUpdate(update: ClientUpdate): (r: Encoded)
    ensures r.Ok? <==> WellTyped(update)
  {
    EncodeFields(update)
  }

  /** deserializeClientUpdate: fails on truncated or malformed input and on bytes left over. */
  function DeserializeClientUpdate(data: Bytes): (r: Result<ClientUpdate, DecodeError>)
    ensures r.Ok? ==> WellTyped(r.value)
  {
    var d :- DecodeFields(data);
    if d.1 != [] then Err(TrailingBytes(|d.1|)) else Ok(d.0)
  }

  lemma FieldsRoundTrip(u: ClientUpdate, rest: Bytes)
    requires EncodeFields(u).Ok?
    ensures DecodeFields(EncodeFields(u).value + rest) == Ok((u, rest))
  {
    var b1 := EncodeOption(u.roomName, EncodeString).value;
    var b2 := EncodeOption(u.pointerXPercent, EncodeF32).value;
    var b3 := EncodeOption(u.pointerYPercent, EncodeF32).value;
    var r2 := b3 + rest;
    var r1 := b2 + r2;
    assert EncodeFields(u).value == b1 + (b2 + b3);
    AppendAssoc(b2, b3, rest);
    AppendAssoc(b1, b2 + b3, rest);
    assert DecodeOption(b1 + r1, DecodeString) == Ok((u.roomName, r1)) by {
      StringLaws();
      OptionRoundTrip(u.roomName, EncodeString, DecodeString, r1);
    }
    F32Laws();
    OptionRoundTrip(u.pointerXPercent, EncodeF32, DecodeF32, r2);
    OptionRoundTrip(u.pointerYPercent, EncodeF32, DecodeF32, rest);
  }

  /** Round trip: a value the schema can carry deserializes back from its serialization. */
  lemma RoundTrip(u: ClientUpdate)
    requires WellTyped(u)
    ensures SerializeClientUpdate(u).Ok?
    ensures DeserializeClientUpdate(SerializeClientUpdate(u).value) == Ok(u)
  {
    var b := SerializeClientUpdate(u).value;
    FieldsRoundTrip(u, []);
    assert b + [] == b;
  }

  /** A serialization followed by any further bytes is rejected. */
  lemma TrailingBytesRejected(u: ClientUpdate, extra: Bytes)
    requires SerializeClientUpdate(u).Ok? && extra != []
    ensures DeserializeClientUpdate(SerializeClientUpdate(u).value + extra) == Err(TrailingBytes(|extra|))
  {
    FieldsRoundTrip(u, extra);
  }

  lemma FieldsTruncated(u: ClientUpdate, p: Bytes)
    requires EncodeFields(u).Ok? && IsProperPrefix(p, EncodeFields(u).value)
    ensures DecodeFields(p).Err?
  {
    var b1 := EncodeOption(u.roomName, EncodeString).value;
    var b2 := EncodeOption(u.pointerXPercent, EncodeF32).value;
    var b3 := EncodeOption(u.pointerYPercent, EncodeF32).value;
    assert EncodeFields(u).value == b1 + (b2 + b3);
    SplitPrefix(p, b1, b2 + b3);
    if |p| < |b1| {
      assert DecodeOption(p, DecodeString).Err? by {
        StringLaws();
        OptionTruncated(u.roomName, EncodeString, DecodeString, p);
      }
      return;
    }
    var p1 := p[|b1|..];
    assert DecodeOption(p, DecodeString) == Ok((u.roomName, p1)) by {
      StringLaws();
      OptionRoundTrip(u.roomName, EncodeString, DecodeString, p1);
    }
    F32Laws();
    SplitPrefix(p1, b2, b3);
    if |p1| < |b2| {
      OptionTruncated(u.pointerXPercent, EncodeF32, DecodeF32, p1);
      return;
    }
    var p2 := p1[|b2|..];
    OptionRoundTrip(u.pointerXPercent, EncodeF32, DecodeF32, p2);
    OptionTruncated(u.pointerYPercent, EncodeF32, DecodeF32, p2);
  }

  /** Every input cut short of the end of a serialization is rejected. */
  lemma TruncatedRejected(u: ClientUpdate, k: nat)
    requires SerializeClientUpdate(u).Ok? && k < |SerializeClientUpdate(u).value|
    ensures DeserializeClientUpdate(SerializeClientUpdate(u).value[..k]).Err?
  {
    FieldsTruncated(u, SerializeClientUpdate(u).value[..k]);
  }

  const EXAMPLE: ClientUpdate := ClientUpdate(Some("test"), Some(HUNDRED), Some(FIFTY))

  /** Its 19 bytes, one field per line: roomName, pointerXPercent, pointerYPercent. */
  const EXAMPLE_BYTES: Bytes :=
    [1, 4, 0, 0, 0, 116, 101, 115, 116] +
    ([1, 0x00, 0x00, 0xC8, 0x42] +
    [1, 0x00, 0x00, 0x48, 0x42])

  lemma ExampleFields()
    ensures EncodeFields(EXAMPLE) == Ok(EXAMPLE_BYTES)
  {
    TestStringBytes();
    assert EncodeOption(EXAMPLE.pointerXPercent, EncodeF32).value == [1, 0x00, 0x00, 0xC8, 0x42];
    assert EncodeOption(EXAMPLE.pointerYPercent, EncodeF32).value == [1, 0x00, 0x00, 0x48, 0x42];
  }

  /** The update of the codec's tests, byte for byte, and its round trip. */
  lemma Example()
    ensures SerializeClientUpdate(EXAMPLE) == Ok(EXAMPLE_BYTES)
    ensures DeserializeClientUpdate(EXAMPLE_BYTES) == Ok(EXAMPLE)
  {
    ExampleFields();
    assert WellTyped(EXAMPLE) by {
      TestStringBytes();
    }
    RoundTrip(EXAMPLE);
  }

  /** [1, 2, 3]: a room name is announced, but its length needs four bytes and only two follow. */
  lemma ShortInputRejected()
    ensures DeserializeClientUpdate([1, 2, 3]) == Err(UnexpectedEnd)
  {
  }
}
