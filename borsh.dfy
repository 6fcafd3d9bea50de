/**
 * The part of the Borsh binary format that the presence protocol's two schemas
 * use: little-endian u16 and u32, f32 as an opaque 4-byte value, strings
 * (u32 byte length + UTF-8), options (tag byte 0 or 1, then the value when the
 * tag is 1) and vectors (u32 count + the elements).
 *
 * Encoders fail on a number outside the field's range; decoders return the
 * decoded value together with the input that follows it.
 */
module Borsh {
  import opened Wrappers
  import opened ByteSeq
  import Utf8

  const U16_LIMIT: nat := 0x1_0000
  const U32_LIMIT: nat := 0x1_0000_0000

  datatype EncodeError = OutOfRange
  datatype DecodeError = UnexpectedEnd | InvalidOptionTag(tag: byte) | InvalidUtf8 | TrailingBytes(count: nat)

  type Encoded = Result<Bytes, EncodeError>
  type Decoded<T> = Result<(T, Bytes), DecodeError>

  /** An f32 is carried as its four little-endian bytes; nothing here interprets them. */
  datatype F32 = F32(b0: byte, b1: byte, b2: byte, b3: byte)

  /** 100.0 and 50.0 as IEEE 754 singles, little-endian. */
  const HUNDRED: F32 := F32(0x00, 0x00, 0xC8, 0x42)
  const FIFTY: F32 := F32(0x00, 0x00, 0x48, 0x42)

  /** `dec` reads back, from the front of any input, every value `enc` accepts. */
  ghost predicate RoundTrips<T(!new)>(enc: T -> Encoded, dec: Bytes -> Decoded<T>) {
    forall v, rest :: enc(v).Ok? ==> dec(enc(v).value + rest) == Ok((v, rest))
  }

  /** `dec` fails on every input that stops short of the end of an encoding. */
  ghost predicate RejectsTruncated<T(!new)>(enc: T -> Encoded, dec: Bytes -> Decoded<T>) {
    forall v, p :: enc(v).Ok? && IsProperPrefix(p, enc(v).value) ==> dec(p).Err?
  }

  // ----- fixed-width values -----

  function EncodeU16(x: nat): (r: Encoded)
    ensures r.Ok? <==> x < U16_LIMIT
    ensures r.Ok? ==> |r.value| == 2
  {
    if x < U16_LIMIT then Ok([x % 256, x / 256]) else Err(OutOfRange)
  }

  function DecodeU16(s: Bytes): (r: Decoded<nat>)
    ensures r.Ok? <==> |s| >= 2
    ensures r.Ok? ==> r.value.0 < U16_LIMIT && r.value.1 == s[2..]
  {
    if |s| < 2 then Err(UnexpectedEnd) else Ok(((s[0] as int) + 256 * (s[1] as int), s[2..]))
  }

  function EncodeU32(x: nat): (r: Encoded)
    ensures r.Ok? <==> x < U32_LIMIT
    ensures r.Ok? ==> |r.value| == 4
  {
    if x < U32_LIMIT then Ok([x % 256, (x / 256) % 256, (x / 0x1_0000) % 256, x / 0x100_0000])
    else Err(OutOfRange)
  }

  function DecodeU32(s: Bytes): (r: Decoded<nat>)
    ensures r.Ok? <==> |s| >= 4
    ensures r.Ok? ==> r.value.0 < U32_LIMIT && r.value.1 == s[4..]
  {
    if |s| < 4 then Err(UnexpectedEnd)
    else Ok(((s[0] as int) + 0x100 * (s[1] as int) + 0x1_0000 * (s[2] as int) + 0x100_0000 * (s[3] as int), s[4..]))
  }

  function EncodeF32(x: F32): (r: Encoded)
    ensures r.Ok? && |r.value| == 4
  {
    Ok([x.b0, x.b1, x.b2, x.b3])
  }

  function DecodeF32(s: Bytes): (r: Decoded<F32>)
    ensures r.Ok? <==> |s| >= 4
    ensures r.Ok? ==> r.value.1 == s[4..]
  {
    if |s| < 4 then Err(UnexpectedEnd) else Ok((F32(s[0], s[1], s[2], s[3]), s[4..]))
  }

  lemma U16Laws()
    ensures RoundTrips(EncodeU16, DecodeU16)
    ensures RejectsTruncated(EncodeU16, DecodeU16)
  {
    forall x: nat, rest | EncodeU16(x).Ok?
      ensures DecodeU16(EncodeU16(x).value + rest) == Ok((x, rest))
    {
      var b := EncodeU16(x).value + rest;
      assert b[0] == x % 256 && b[1] == x / 256 && b[2..] == rest;
    }
  }

  lemma U32Digits(x: nat)
    requires x < U32_LIMIT
    ensures x == x % 256 + 0x100 * ((x / 256) % 256) + 0x1_0000 * ((x / 0x1_0000) % 256) + 0x100_0000 * (x / 0x100_0000)
  {
    var q1 := x / 256;
    var q2 := q1 / 256;
    assert x == q1 * 256 + x % 256;
    assert q1 == q2 * 256 + q1 % 256;
    assert q2 == x / 0x1_0000;
    assert q2 == (q2 / 256) * 256 + q2 % 256;
    assert q2 / 256 == x / 0x100_0000;
  }

  lemma U32Laws()
    ensures RoundTrips(EncodeU32, DecodeU32)
    ensures RejectsTruncated(EncodeU32, DecodeU32)
  {
    forall x: nat, rest | EncodeU32(x).Ok?
      ensures DecodeU32(EncodeU32(x).value + rest) == Ok((x, rest))
    {
      var b := EncodeU32(x).value + rest;
      assert b[0] == x % 256 && b[1] == (x / 256) % 256;
      assert b[2] == (x / 0x1_0000) % 256 && b[3] == x / 0x100_0000;
      assert b[4..] == rest;
      U32Digits(x);
    }
  }

  lemma F32Laws()
    ensures RoundTrips(EncodeF32, DecodeF32)
    ensures RejectsTruncated(EncodeF32, DecodeF32)
  {
    forall x, rest ensures DecodeF32(EncodeF32(x).value + rest) == Ok((x, rest)) {
      assert (EncodeF32(x).value + rest)[4..] == rest;
    }
  }

  // ----- strings -----

  /** A string: the u32 length of its UTF-8 bytes, then the bytes. */
  function EncodeString(s: string): (r: Encoded)
    ensures r.Ok? <==> |Utf8.Encode(s)| < U32_LIMIT
  {
    var payload := Utf8.Encode(s);
    var n :- EncodeU32(|payload|);
    Ok(n + payload)
  }

  function DecodeString(s: Bytes): (r: Decoded<string>)
    ensures r.Ok? ==> |Utf8.Encode(r.value.0)| < U32_LIMIT
  {
    var n :- DecodeU32(s);
    if |n.1| < n.0 then Err(UnexpectedEnd)
    else match Utf8.Decode(n.1[..n.0])
      case None => Err(InvalidUtf8)
      case Some(text) => Utf8.EncodeDecode(n.1[..n.0]); Ok((text, n.1[n.0..]))
  }

  lemma StringLaws()
    ensures RoundTrips(EncodeString, DecodeString)
    ensures RejectsTruncated(EncodeString, DecodeString)
  {
    U32Laws();
    forall x, rest | EncodeString(x).Ok?
      ensures DecodeString(EncodeString(x).value + rest) == Ok((x, rest))
    {
      var payload := Utf8.Encode(x);
      var n := EncodeU32(|payload|).value;
      assert EncodeString(x).value + rest == n + (payload + rest);
      assert DecodeU32(n + (payload + rest)) == Ok((|payload|, payload + rest));
      assert (payload + rest)[..|payload|] == payload;
      assert (payload + rest)[|payload|..] == rest;
      Utf8.DecodeEncode(x);
    }
    forall x, p | EncodeString(x).Ok? && IsProperPrefix(p, EncodeString(x).value)
      ensures DecodeString(p).Err?
    {
      var payload := Utf8.Encode(x);
      var n := EncodeU32(|payload|).value;
      SplitPrefix(p, n, payload);
      if |p| >= |n| {
        assert DecodeU32(n + p[|n|..]) == Ok((|payload|, p[|n|..]));
      }
    }
  }

  // ----- options -----

  function EncodeOption<T>(x: Option<T>, enc: T -> Encoded): (r: Encoded)
    ensures r.Ok? <==> (x.Some? ==> enc(x.value).Ok?)
  {
    match x
    case None => Ok([0])
    case Some(v) => var b :- enc(v); Ok([1] + b)
  }

  /** The presence tag: 0 absent, 1 present; any other byte is an error. */
  function DecodeTag(s: Bytes): (r: Decoded<bool>)
    ensures r.Ok? ==> |s| > 0 && r.value.1 == s[1..]
  {
    if |s| == 0 then Err(UnexpectedEnd)
    else if s[0] == 0 then Ok((false, s[1..]))
    else if s[0] == 1 then Ok((true, s[1..]))
    else Err(InvalidOptionTag(s[0]))
  }

  function DecodeOption<T>(s: Bytes, dec: Bytes -> Decoded<T>): Decoded<Option<T>> {
    var t :- DecodeTag(s);
    if !t.0 then Ok((None, t.1))
    else
      var d :- dec(t.1);
      Ok((Some(d.0), d.1))
  }

  lemma OptionRoundTrip<T>(x: Option<T>, enc: T -> Encoded, dec: Bytes -> Decoded<T>, rest: Bytes)
    requires EncodeOption(x, enc).Ok?
    requires x.Some? ==> dec(enc(x.value).value + rest) == Ok((x.value, rest))
    ensures DecodeOption(EncodeOption(x, enc).value + rest, dec) == Ok((x, rest))
  {
    var b := EncodeOption(x, enc).value + rest;
    if x.Some? {
      assert b[1..] == enc(x.value).value + rest;
    } else {
      assert b[1..] == rest;
    }
  }

  lemma OptionTruncated<T>(x: Option<T>, enc: T -> Encoded, dec: Bytes -> Decoded<T>, p: Bytes)
    requires EncodeOption(x, enc).Ok? && IsProperPrefix(p, EncodeOption(x, enc).value)
    requires x.Some? ==> forall q :: IsProperPrefix(q, enc(x.value).value) ==> dec(q).Err?
    ensures DecodeOption(p, dec).Err?
  {
    if x.Some? && |p| > 0 {
      SplitPrefix(p, [1], enc(x.value).value);
    }
  }

  // ----- vectors -----

  function EncodeItems<T>(xs: seq<T>, enc: T -> Encoded): (r: Encoded)
    ensures r.Ok? <==> forall i :: 0 <= i < |xs| ==> enc(xs[i]).Ok?
  {
    if xs == [] then Ok([])
    else
      var h :- EncodeItems(xs[..|xs| - 1], enc);
      var t :- enc(xs[|xs| - 1]);
      Ok(h + t)
  }

  /** A vector: its u32 element count, then the elements in order. */
  function EncodeVec<T>(xs: seq<T>, enc: T -> Encoded): (r: Encoded)
    ensures r.Ok? <==> |xs| < U32_LIMIT && forall i :: 0 <= i < |xs| ==> enc(xs[i]).Ok?
  {
    var n :- EncodeU32(|xs|);
    var b :- EncodeItems(xs, enc);
    Ok(n + b)
  }

  /** A one-element vector: the count 1, then the element's bytes. */
  lemma SingletonVec<T>(x: T, enc: T -> Encoded)
    requires enc(x).Ok?
    ensures EncodeVec([x], enc) == Ok([1, 0, 0, 0] + enc(x).value)
  {
    assert [x][..0] == [];
    assert EncodeItems([x], enc) == Ok([] + enc(x).value);
    assert [] + enc(x).value == enc(x).value;
    assert EncodeU32(1) == Ok([1, 0, 0, 0]);
  }

  /** Reads `n` elements one after the other. */
  function DecodeItems<T>(n: nat, s: Bytes, dec: Bytes -> Decoded<T>): (r: Decoded<seq<T>>)
    ensures r.Ok? ==> |r.value.0| == n
  {
    if n == 0 then Ok(([], s))
    else
      var h :- DecodeItems(n - 1, s, dec);
      var t :- dec(h.1);
      Ok((h.0 + [t.0], t.1))
  }

  function DecodeVec<T>(s: Bytes, dec: Bytes -> Decoded<T>): (r: Decoded<seq<T>>)
    ensures r.Ok? ==> |r.value.0| < U32_LIMIT
  {
    var n :- DecodeU32(s);
    DecodeItems(n.0, n.1, dec)
  }

  lemma {:induction false} ItemsRoundTrip<T(!new)>(xs: seq<T>, enc: T -> Encoded, dec: Bytes -> Decoded<T>, rest: Bytes)
    requires RoundTrips(enc, dec)
    requires EncodeItems(xs, enc).Ok?
    ensures DecodeItems(|xs|, EncodeItems(xs, enc).value + rest, dec) == Ok((xs, rest))
  {
    if xs != [] {
      var init, last := xs[..|xs| - 1], xs[|xs| - 1];
      var h, t := EncodeItems(init, enc).value, enc(last).value;
      assert EncodeItems(xs, enc).value + rest == h + (t + rest);
      ItemsRoundTrip(init, enc, dec, t + rest);
      assert dec(t + rest) == Ok((last, rest));
      assert init + [last] == xs;
    } else {
      assert EncodeItems(xs, enc).value + rest == rest;
    }
  }

  lemma {:induction false} ItemsTruncated<T(!new)>(xs: seq<T>, enc: T -> Encoded, dec: Bytes -> Decoded<T>, p: Bytes)
    requires RoundTrips(enc, dec) && RejectsTruncated(enc, dec)
    requires EncodeItems(xs, enc).Ok? && IsProperPrefix(p, EncodeItems(xs, enc).value)
    ensures DecodeItems(|xs|, p, dec).Err?
  {
    var init, last := xs[..|xs| - 1], xs[|xs| - 1];
    var h, t := EncodeItems(init, enc).value, enc(last).value;
    SplitPrefix(p, h, t);
    if |p| < |h| {
      ItemsTruncated(init, enc, dec, p);
    } else {
      ItemsRoundTrip(init, enc, dec, p[|h|..]);
    }
  }

  lemma VecRoundTrip<T(!new)>(xs: seq<T>, enc: T -> Encoded, dec: Bytes -> Decoded<T>, rest: Bytes)
    requires RoundTrips(enc, dec)
    requires EncodeVec(xs, enc).Ok?
    ensures DecodeVec(EncodeVec(xs, enc).value + rest, dec) == Ok((xs, rest))
  {
    U32Laws();
    var n, b := EncodeU32(|xs|).value, EncodeItems(xs, enc).value;
    assert EncodeVec(xs, enc).value + rest == n + (b + rest);
    assert DecodeU32(n + (b + rest)) == Ok((|xs|, b + rest));
    ItemsRoundTrip(xs, enc, dec, rest);
  }

  lemma VecTruncated<T(!new)>(xs: seq<T>, enc: T -> Encoded, dec: Bytes -> Decoded<T>, p: Bytes)
    requires RoundTrips(enc, dec) && RejectsTruncated(enc, dec)
    requires EncodeVec(xs, enc).Ok? && IsProperPrefix(p, EncodeVec(xs, enc).value)
    ensures DecodeVec(p, dec).Err?
  {
    U32Laws();
    var n, b := EncodeU32(|xs|).value, EncodeItems(xs, enc).value;
    SplitPrefix(p, n, b);
    if |p| >= |n| {
      assert DecodeU32(n + p[|n|..]) == Ok((|xs|, p[|n|..]));
      ItemsTruncated(xs, enc, dec, p[|n|..]);
    }
  }

  /** Every element a vector decoder returns has each property that every result of `dec` has. */
  lemma {:induction false} DecodedItemsSatisfy<T>(n: nat, s: Bytes, dec: Bytes -> Decoded<T>, P: T -> bool)
    requires forall b :: dec(b).Ok? ==> P(dec(b).value.0)
    requires DecodeItems(n, s, dec).Ok?
    ensures forall i :: 0 <= i < n ==> P(DecodeItems(n, s, dec).value.0[i])
  {
    if n > 0 {
      DecodedItemsSatisfy(n - 1, s, dec, P);
      var h := DecodeItems(n - 1, s, dec).value;
      assert DecodeItems(n, s, dec).value.0 == h.0 + [dec(h.1).value.0];
    }
  }

  lemma DecodedVecSatisfies<T>(s: Bytes, dec: Bytes -> Decoded<T>, P: T -> bool)
    requires forall b :: dec(b).Ok? ==> P(dec(b).value.0)
    ensures DecodeVec(s, dec).Ok? ==> forall i :: 0 <= i < |DecodeVec(s, dec).value.0| ==> P(DecodeVec(s, dec).value.0[i])
  {
    if DecodeVec(s, dec).Ok? {
      var n := DecodeU32(s).value;
      DecodedItemsSatisfy(n.0, n.1, dec, P);
    }
  }

  /** "test", the room name of both schemas' examples, as a present string field. */
  lemma TestStringBytes()
    ensures EncodeOption(Some("test"), EncodeString) == Ok([1, 4, 0, 0, 0, 116, 101, 115, 116])
  {
    assert Utf8.Encode("test") == [116, 101, 115, 116] by {
      assert "test" == ['t'] + "est";
      assert "est" == ['e'] + "st";
      assert "st" == ['s'] + "t";
    }
    assert EncodeU32(4) == Ok([4, 0, 0, 0]);
    assert EncodeString("test") == Ok([4, 0, 0, 0] + [116, 101, 115, 116]);
    assert [1] + ([4, 0, 0, 0] + [116, 101, 115, 116]) == [1, 4, 0, 0, 0, 116, 101, 115, 116];
  }
}
