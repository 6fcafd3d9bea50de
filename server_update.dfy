/**
 * The server-to-client message (packages/net-utils/src/net/server.ts): the
 * Borsh struct of five optional fields, in this order: myId (u32), roomName
 * (string), clientCount (u16), clientUpdates (vector of {id: u32, pointerX:
 * option f32, pointerY: option f32}) and removeClientIds (vector of u32).
 */
module ServerCodec {
  import opened Wrappers
  import opened ByteSeq
  import opened Borsh
  import Utf8

  /** One member's pointer state: its id and two independently optional coordinates. */
  datatype ClientEntry = ClientEntry(id: nat, pointerXPercent: Option<F32>, pointerYPercent: Option<F32>)

  datatype ServerUpdate = ServerUpdate(
    myId: Option<nat>,
    roomName: Option<string>,
    clientCount: Option<nat>,
    clientUpdates: Option<seq<ClientEntry>>,
    removeClientIds: Option<seq<nat>>)

  /** The values the schema can carry: every number fits its field and every length fits a u32. */
  predicate WellTyped(u: ServerUpdate) {
    && (u.myId.Some? ==> u.myId.value < U32_LIMIT)
    && (u.roomName.Some? ==> |Utf8.Encode(u.roomName.value)| < U32_LIMIT)
    && (u.clientCount.Some? ==> u.clientCount.value < U16_LIMIT)
    && (u.clientUpdates.Some? ==>
          |u.clientUpdates.value| < U32_LIMIT
          && forall i :: 0 <= i < |u.clientUpdates.value| ==> u.clientUpdates.value[i].id < U32_LIMIT)
    && (u.removeClientIds.Some? ==>
          |u.removeClientIds.value| < U32_LIMIT
          && forall i :: 0 <= i < |u.removeClientIds.value| ==> u.removeClientIds.value[i] < U32_LIMIT)
  }

  function EncodePointer(x: Option<F32>): (r: Encoded)
    ensures r.Ok?
  {
    EncodeOption(x, EncodeF32)
  }

  function DecodePointer(s: Bytes): Decoded<Option<F32>> { DecodeOption(s, DecodeF32) }

  function EncodeEntry(e: ClientEntry): (r: Encoded)
    ensures r.Ok? <==> e.id < U32_LIMIT
  {
    var id :- EncodeU32(e.id);
    Ok(id + EncodePointer(e.pointerXPercent).value + EncodePointer(e.pointerYPercent).value)
  }

  function DecodeEntry(s: Bytes): (r: Decoded<ClientEntry>)
    ensures r.Ok? ==> r.value.0.id < U32_LIMIT
  {
    var id :- DecodeU32(s);
    var x :- DecodePointer(id.1);
    var y :- DecodePointer(x.1);
    Ok((ClientEntry(id.0, x.0, y.0), y.1))
  }

  function EncodeEntries(xs: seq<ClientEntry>): Encoded { EncodeVec(xs, EncodeEntry) }
  function DecodeEntries(s: Bytes): (r: Decoded<seq<ClientEntry>>)
    ensures r.Ok? ==> forall i :: 0 <= i < |r.value.0| ==> r.value.0[i].id < U32_LIMIT
  {
    DecodedVecSatisfies(s, DecodeEntry, (e: ClientEntry) => e.id < U32_LIMIT);
    DecodeVec(s, DecodeEntry)
  }
  function EncodeIds(xs: seq<nat>): Encoded { EncodeVec(xs, EncodeU32) }
  function DecodeIds(s: Bytes): (r: Decoded<seq<nat>>)
    ensures r.Ok? ==> forall i :: 0 <= i < |r.value.0| ==> r.value.0[i] < U32_LIMIT
  {
    DecodedVecSatisfies(s, DecodeU32, (x: nat) => x < U32_LIMIT);
    DecodeVec(s, DecodeU32)
  }

  /** The five fields' encodings, concatenated in declaration order. */
  function EncodeFields(u: ServerUpdate): Encoded {
    var myId :- EncodeOption(u.myId, EncodeU32);
    var roomName :- EncodeOption(u.roomName, EncodeString);
    var clientCount :- EncodeOption(u.clientCount, EncodeU16);
    var clientUpdates :- EncodeOption(u.clientUpdates, EncodeEntries);
    var removeClientIds :- EncodeOption(u.removeClientIds, EncodeIds);
    Ok(myId + (roomName + (clientCount + (clientUpdates + removeClientIds))))
  }

  function DecodeFields(s: Bytes): Decoded<ServerUpdate> {
    var myId :- DecodeOption(s, DecodeU32);
    var roomName :- DecodeOption(myId.1, DecodeString);
    var clientCount :- DecodeOption(roomName.1, DecodeU16);
    var clientUpdates :- DecodeOption(clientCount.1, DecodeEntries);
    var removeClientIds :- DecodeOption(clientUpdates.1, DecodeIds);
    Ok((ServerUpdate(myId.0, roomName.0, clientCount.0, clientUpdates.0, removeClientIds.0), removeClientIds.1))
  }

  /** serializeServerUpdate: fails (throws, in the source) on a value the schema cannot carry. */
  function SerializeServerUpdate(update: ServerUpdate): (r: Encoded)
    ensures r.Ok? <==> WellTyped(update)
  {
    EncodeFields(update)
  }

  /** deserializeServerUpdate: fails on truncated or malformed input and on bytes left over. */
  function DeserializeServerUpdate(data: Bytes): (r: Result<ServerUpdate, DecodeError>)
    ensures r.Ok? ==> WellTyped(r.value)
  {
    var d :- DecodeFields(data);
    if d.1 != [] then Err(TrailingBytes(|d.1|)) else Ok(d.0)
  }

  // ----- laws of the pieces -----

  lemma PointerLaws()
    ensures RoundTrips(EncodePointer, DecodePointer)
    ensures RejectsTruncated(EncodePointer, DecodePointer)
  {
    F32Laws();
    forall x, rest | EncodePointer(x).Ok?
      ensures DecodePointer(EncodePointer(x).value + rest) == Ok((x, rest))
    {
      OptionRoundTrip(x, EncodeF32, DecodeF32, rest);
    }
    forall x, p | EncodePointer(x).Ok? && IsProperPrefix(p, EncodePointer(x).value)
      ensures DecodePointer(p).Err?
    {
      OptionTruncated(x, EncodeF32, DecodeF32, p);
    }
  }

  lemma EntryRoundTrip(e: ClientEntry, rest: Bytes)
    requires EncodeEntry(e).Ok?
    ensures DecodeEntry(EncodeEntry(e).value + rest) == Ok((e, rest))
  {
    var a, b, c := EncodeU32(e.id).value, EncodePointer(e.pointerXPercent).value, EncodePointer(e.pointerYPercent).value;
    assert EncodeEntry(e).value + rest == a + (b + (c + rest));
    U32Laws();
    assert DecodeU32(a + (b + (c + rest))) == Ok((e.id, b + (c + rest)));
    PointerLaws();
    assert DecodePointer(b + (c + rest)) == Ok((e.pointerXPercent, c + rest));
    assert DecodePointer(c + rest) == Ok((e.pointerYPercent, rest));
  }

  lemma EntryTruncated(e: ClientEntry, p: Bytes)
    requires EncodeEntry(e).Ok? && IsProperPrefix(p, EncodeEntry(e).value)
    ensures DecodeEntry(p).Err?
  {
    var a, b, c := EncodeU32(e.id).value, EncodePointer(e.pointerXPercent).value, EncodePointer(e.pointerYPercent).value;
    assert EncodeEntry(e).value == a + (b + c);
    U32Laws();
    PointerLaws();
    SplitPrefix(p, a, b + c);
    if |p| >= |a| {
      var p1 := p[|a|..];
      assert DecodeU32(a + p1) == Ok((e.id, p1));
      SplitPrefix(p1, b, c);
      if |p1| >= |b| {
        assert DecodePointer(b + p1[|b|..]) == Ok((e.pointerXPercent, p1[|b|..]));
      }
    }
  }

  lemma EntryLaws()
    ensures RoundTrips(EncodeEntry, DecodeEntry)
    ensures RejectsTruncated(EncodeEntry, DecodeEntry)
  {
    forall e, rest | EncodeEntry(e).Ok?
      ensures DecodeEntry(EncodeEntry(e).value + rest) == Ok((e, rest))
    {
      EntryRoundTrip(e, rest);
    }
    forall e, p | EncodeEntry(e).Ok? && IsProperPrefix(p, EncodeEntry(e).value)
      ensures DecodeEntry(p).Err?
    {
      EntryTruncated(e, p);
    }
  }

  lemma EntriesLaws()
    ensures RoundTrips(EncodeEntries, DecodeEntries)
    ensures RejectsTruncated(EncodeEntries, DecodeEntries)
  {
    EntryLaws();
    forall xs, rest | EncodeEntries(xs).Ok?
      ensures DecodeEntries(EncodeEntries(xs).value + rest) == Ok((xs, rest))
    {
      VecRoundTrip(xs, EncodeEntry, DecodeEntry, rest);
    }
    forall xs, p | EncodeEntries(xs).Ok? && IsProperPrefix(p, EncodeEntries(xs).value)
      ensures DecodeEntries(p).Err?
    {
      VecTruncated(xs, EncodeEntry, DecodeEntry, p);
    }
  }

  lemma IdsLaws()
    ensures RoundTrips(EncodeIds, DecodeIds)
    ensures RejectsTruncated(EncodeIds, DecodeIds)
  {
    U32Laws();
    forall xs, rest | EncodeIds(xs).Ok?
      ensures DecodeIds(EncodeIds(xs).value + rest) == Ok((xs, rest))
    {
      VecRoundTrip(xs, EncodeU32, DecodeU32, rest);
    }
    forall xs, p | EncodeIds(xs).Ok? && IsProperPrefix(p, EncodeIds(xs).value)
      ensures DecodeIds(p).Err?
    {
      VecTruncated(xs, EncodeU32, DecodeU32, p);
    }
  }

  // ----- laws of the message -----

  lemma FieldsRoundTrip(u: ServerUpdate, rest: Bytes)
    requires EncodeFields(u).Ok?
    ensures DecodeFields(EncodeFields(u).value + rest) == Ok((u, rest))
  {
    var b1 := EncodeOption(u.myId, EncodeU32).value;
    var b2 := EncodeOption(u.roomName, EncodeString).value;
    var b3 := EncodeOption(u.clientCount, EncodeU16).value;
    var b4 := EncodeOption(u.clientUpdates, EncodeEntries).value;
    var b5 := EncodeOption(u.removeClientIds, EncodeIds).value;
    var r4 := b5 + rest;
    var r3 := b4 + r4;
    var r2 := b3 + r3;
    var r1 := b2 + r2;
    assert EncodeFields(u).value == b1 + (b2 + (b3 + (b4 + b5)));
    AppendAssoc(b4, b5, rest);
    AppendAssoc(b3, b4 + b5, rest);
    AppendAssoc(b2, b3 + (b4 + b5), rest);
    AppendAssoc(b1, b2 + (b3 + (b4 + b5)), rest);
    assert DecodeOption(b1 + r1, DecodeU32) == Ok((u.myId, r1)) by {
      U32Laws();
      OptionRoundTrip(u.myId, EncodeU32, DecodeU32, r1);
    }
    assert DecodeOption(r1, DecodeString) == Ok((u.roomName, r2)) by {
      StringLaws();
      OptionRoundTrip(u.roomName, EncodeString, DecodeString, r2);
    }
    assert DecodeOption(r2, DecodeU16) == Ok((u.clientCount, r3)) by {
      U16Laws();
      OptionRoundTrip(u.clientCount, EncodeU16, DecodeU16, r3);
    }
    assert DecodeOption(r3, DecodeEntries) == Ok((u.clientUpdates, r4)) by {
      EntriesLaws();
      OptionRoundTrip(u.clientUpdates, EncodeEntries, DecodeEntries, r4);
    }
    assert DecodeOption(r4, DecodeIds) == Ok((u.removeClientIds, rest)) by {
      IdsLaws();
      OptionRoundTrip(u.removeClientIds, EncodeIds, DecodeIds, rest);
    }
  }

  /** Round trip: a value the schema can carry deserializes back from its serialization. */
  lemma RoundTrip(u: ServerUpdate)
    requires WellTyped(u)
    ensures SerializeServerUpdate(u).Ok?
    ensures DeserializeServerUpdate(SerializeServerUpdate(u).value) == Ok(u)
  {
    var b := SerializeServerUpdate(u).value;
    FieldsRoundTrip(u, []);
    assert b + [] == b;
  }

  /** A serialization followed by any further bytes is rejected. */
  lemma TrailingBytesRejected(u: ServerUpdate, extra: Bytes)
    requires SerializeServerUpdate(u).Ok? && extra != []
    ensures DeserializeServerUpdate(SerializeServerUpdate(u).value + extra) == Err(TrailingBytes(|extra|))
  {
    FieldsRoundTrip(u, extra);
  }

  lemma FieldsTruncated(u: ServerUpdate, p: Bytes)
    requires EncodeFields(u).Ok? && IsProperPrefix(p, EncodeFields(u).value)
    ensures DecodeFields(p).Err?
  {
    var b1 := EncodeOption(u.myId, EncodeU32).value;
    var b2 := EncodeOption(u.roomName, EncodeString).value;
    var b3 := EncodeOption(u.clientCount, EncodeU16).value;
    var b4 := EncodeOption(u.clientUpdates, EncodeEntries).value;
    var b5 := EncodeOption(u.removeClientIds, EncodeIds).value;
    assert EncodeFields(u).value == b1 + (b2 + (b3 + (b4 + b5)));
    SplitPrefix(p, b1, b2 + (b3 + (b4 + b5)));
    if |p| < |b1| {
      assert DecodeOption(p, DecodeU32).Err? by {
        U32Laws();
        OptionTruncated(u.myId, EncodeU32, DecodeU32, p);
      }
      return;
    }
    var p1 := p[|b1|..];
    assert DecodeOption(p, DecodeU32) == Ok((u.myId, p1)) by {
      U32Laws();
      OptionRoundTrip(u.myId, EncodeU32, DecodeU32, p1);
    }
    SplitPrefix(p1, b2, b3 + (b4 + b5));
    if |p1| < |b2| {
      assert DecodeOption(p1, DecodeString).Err? by {
        StringLaws();
        OptionTruncated(u.roomName, EncodeString, DecodeString, p1);
      }
      return;
    }
    var p2 := p1[|b2|..];
    assert DecodeOption(p1, DecodeString) == Ok((u.roomName, p2)) by {
      StringLaws();
      OptionRoundTrip(u.roomName, EncodeString, DecodeString, p2);
    }
    SplitPrefix(p2, b3, b4 + b5);
    if |p2| < |b3| {
      assert DecodeOption(p2, DecodeU16).Err? by {
        U16Laws();
        OptionTruncated(u.clientCount, EncodeU16, DecodeU16, p2);
      }
      return;
    }
    var p3 := p2[|b3|..];
    assert DecodeOption(p2, DecodeU16) == Ok((u.clientCount, p3)) by {
      U16Laws();
      OptionRoundTrip(u.clientCount, EncodeU16, DecodeU16, p3);
    }
    SplitPrefix(p3, b4, b5);
    if |p3| < |b4| {
      assert DecodeOption(p3, DecodeEntries).Err? by {
        EntriesLaws();
        OptionTruncated(u.clientUpdates, EncodeEntries, DecodeEntries, p3);
      }
      return;
    }
    var p4 := p3[|b4|..];
    assert DecodeOption(p3, DecodeEntries) == Ok((u.clientUpdates, p4)) by {
      EntriesLaws();
      OptionRoundTrip(u.clientUpdates, EncodeEntries, DecodeEntries, p4);
    }
    assert DecodeOption(p4, DecodeIds).Err? by {
      IdsLaws();
      OptionTruncated(u.removeClientIds, EncodeIds, DecodeIds, p4);
    }
  }

  /** Every input cut short of the end of a serialization is rejected. */
  lemma TruncatedRejected(u: ServerUpdate, k: nat)
    requires SerializeServerUpdate(u).Ok? && k < |SerializeServerUpdate(u).value|
    ensures DeserializeServerUpdate(SerializeServerUpdate(u).value[..k]).Err?
  {
    FieldsTruncated(u, SerializeServerUpdate(u).value[..k]);
  }

  const EXAMPLE_ENTRY: ClientEntry := ClientEntry(1, Some(HUNDRED), Some(FIFTY))

  lemma ExampleEntryEncoding()
    ensures EncodeEntry(EXAMPLE_ENTRY) == Ok([1, 0, 0, 0, 1, 0x00, 0x00, 0xC8, 0x42, 1, 0x00, 0x00, 0x48, 0x42])
  {
    assert EncodeU32(1) == Ok([1, 0, 0, 0]);
    assert EncodePointer(Some(HUNDRED)).value == [1, 0x00, 0x00, 0xC8, 0x42];
    assert EncodePointer(Some(FIFTY)).value == [1, 0x00, 0x00, 0x48, 0x42];
    assert [1, 0, 0, 0] + [1, 0x00, 0x00, 0xC8, 0x42] + [1, 0x00, 0x00, 0x48, 0x42]
        == [1, 0, 0, 0, 1, 0x00, 0x00, 0xC8, 0x42, 1, 0x00, 0x00, 0x48, 0x42];
  }

  lemma ExampleEntryVec()
    ensures EncodeEntries([EXAMPLE_ENTRY]) == Ok([1, 0, 0, 0, 1, 0, 0, 0, 1, 0x00, 0x00, 0xC8, 0x42, 1, 0x00, 0x00, 0x48, 0x42])
  {
    var entry: Bytes := [1, 0, 0, 0, 1, 0x00, 0x00, 0xC8, 0x42, 1, 0x00, 0x00, 0x48, 0x42];
    ExampleEntryEncoding();
    SingletonVec(EXAMPLE_ENTRY, EncodeEntry);
    assert [1, 0, 0, 0] + entry == [1, 0, 0, 0, 1, 0, 0, 0, 1, 0x00, 0x00, 0xC8, 0x42, 1, 0x00, 0x00, 0x48, 0x42];
  }

  lemma ExampleEntryBytes()
    ensures EncodeOption(Some([EXAMPLE_ENTRY]), EncodeEntries)
         == Ok([1, 1, 0, 0, 0, 1, 0, 0, 0, 1, 0x00, 0x00, 0xC8, 0x42, 1, 0x00, 0x00, 0x48, 0x42])
  {
    ExampleEntryVec();
    assert [1] + [1, 0, 0, 0, 1, 0, 0, 0, 1, 0x00, 0x00, 0xC8, 0x42, 1, 0x00, 0x00, 0x48, 0x42]
        == [1, 1, 0, 0, 0, 1, 0, 0, 0, 1, 0x00, 0x00, 0xC8, 0x42, 1, 0x00, 0x00, 0x48, 0x42];
  }

  const FULL_EXAMPLE: ServerUpdate := ServerUpdate(Some(1), Some("test"), Some(1), Some([EXAMPLE_ENTRY]), None)

  /** Its 37 bytes, one field per line: myId, roomName, clientCount, clientUpdates, removeClientIds. */
  const FULL_EXAMPLE_BYTES: Bytes :=
    [1, 1, 0, 0, 0] +
    ([1, 4, 0, 0, 0, 116, 101, 115, 116] +
    ([1, 1, 0] +
    ([1, 1, 0, 0, 0, 1, 0, 0, 0, 1, 0x00, 0x00, 0xC8, 0x42, 1, 0x00, 0x00, 0x48, 0x42] +
    [0])))

  lemma FullExampleFields()
    ensures EncodeFields(FULL_EXAMPLE) == Ok(FULL_EXAMPLE_BYTES)
  {
    var u := FULL_EXAMPLE;
    assert EncodeU32(1) == Ok([1, 0, 0, 0]);
    assert EncodeU16(1) == Ok([1, 0]);
    assert EncodeOption(u.myId, EncodeU32).value == [1, 1, 0, 0, 0] by {
      assert [1] + [1, 0, 0, 0] == [1, 1, 0, 0, 0];
    }
    TestStringBytes();
    assert EncodeOption(u.clientCount, EncodeU16).value == [1, 1, 0] by {
      assert [1] + [1, 0] == [1, 1, 0];
    }
    ExampleEntryBytes();
  }

  /** The fully populated update of the serializer's test, byte for byte, and its round trip. */
  lemma FullyPopulatedExample()
    ensures SerializeServerUpdate(FULL_EXAMPLE) == Ok(FULL_EXAMPLE_BYTES)
    ensures DeserializeServerUpdate(FULL_EXAMPLE_BYTES) == Ok(FULL_EXAMPLE)
  {
    FullExampleFields();
    assert WellTyped(FULL_EXAMPLE) by {
      TestStringBytes();
    }
    RoundTrip(FULL_EXAMPLE);
  }

  /** The deserializer's test with clientCount absent: the round trip holds. */
  lemma AbsentCountExample()
    ensures var u := ServerUpdate(Some(1), Some("test"), None, Some([EXAMPLE_ENTRY]), None);
      && SerializeServerUpdate(u).Ok?
      && DeserializeServerUpdate(SerializeServerUpdate(u).value) == Ok(u)
  {
    var u := ServerUpdate(Some(1), Some("test"), None, Some([EXAMPLE_ENTRY]), None);
    RoundTrip(u);
  }

  /** [0, 0, 0]: three absent fields, then the fourth field's tag is missing. */
  lemma ThreeAbsentTagsRejected()
    ensures DeserializeServerUpdate([0, 0, 0]) == Err(UnexpectedEnd)
  {
  }
}
