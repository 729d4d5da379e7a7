/**
 * Concrete inputs on which the generated client, as the build script emits it, goes
 * wrong, next to what the fixed encoder and decoder of ProtoClient do with them.
 */
module ProtoFindings {
  import opened Common
  import opened JsNumbers
  import opened ProtoWire
  import opened ProtoCodegen
  import opened ProtoClient
  import opened ProtoRoundTrip

  /** `message M { int32 a = 1; }` */
  const NumberFields: seq<FieldDesc> := [FieldDesc("a", 1, Int32)]

  const NumberClass: MessageClass := MessageClass(
    "M",
    [CtorLine("a", "0")],
    [WriterCall("a", "0", "writeVarint", 1)],
    [DecodeCase(1, "WIRE_TYPE_VARINT", "a", "readVarint")],
    [JsonLine("a")])

  /** `message S { string s = 1; }` */
  const StringFields: seq<FieldDesc> := [FieldDesc("s", 1, String)]

  const StringClass: MessageClass := MessageClass(
    "S",
    [CtorLine("s", "''")],
    [WriterCall("s", "''", "writeString", 1)],
    [DecodeCase(1, "WIRE_TYPE_LENGTH_DELIMITED", "s", "readString")],
    [JsonLine("s")])

  lemma NumberClassGenerated()
    ensures ClassGeneratedFrom(NumberClass, "M", FieldInfos(NumberFields))
  {
    assert FieldInfos(NumberFields) == [FieldInfo("a", 1, "number", "int32")];
  }

  lemma StringClassGenerated()
    ensures ClassGeneratedFrom(StringClass, "S", FieldInfos(StringFields))
  {
    assert FieldInfos(StringFields) == [FieldInfo("s", 1, "string", "string")];
  }

  lemma NumberDefault()
    ensures DefaultMessage(NumberClass) == map["a" := Num(0)]
  {
    assert NumberClass.ctorLines[..0] == [];
  }

  // ---------------------------------------------------------------------------
  // The encoder writes the field number in place of the value

  /** As generated, a varint field that is not at its default is encoded as the varint
      of its field number, whatever its value. */
  lemma AsWrittenVarintIgnoresValue(line: EncodeLine, v: JsValue, w: JsValue)
    requires line.WriterCall? && line.writer == "writeVarint"
    requires v != DefaultValue(line.default) && w != DefaultValue(line.default)
    ensures LineBytes(line, v) == LineBytes(line, w) == VarintBytes(line.number)
  {
  }

  /** `{a: 5}` encodes as the single byte 1. Read back, that byte is the key of field 0
      with wire type 1: the decoder as written ignores it and gives `{a: 0}`, and the
      fixed decoder throws, as eight bytes of a 64-bit field are missing. */
  lemma AsWrittenEncodingLosesValue(fuel: nat)
    requires fuel >= 2
    ensures EncodeLines(NumberClass.encodeLines, map["a" := Num(5)]) == [1]
    ensures DecodeAsWrittenFrom(NumberClass, [1], 0, DefaultMessage(NumberClass), fuel) == Decoded(map["a" := Num(0)])
    ensures Decode(NumberClass, [1]) == Threw
  {
    var m := map["a" := Num(5)];
    var chunks := LineChunks(NumberClass.encodeLines, m);
    assert chunks == [[1]];
    assert Flatten(chunks) == Flatten(chunks[..0]) + [1];
    NumberDefault();
    VarintRoundTrip([1], 0, 1);
    assert ReadTagAt([1], 0) == Some((Tag(0, 1), 1));
  }

  /** With the fix the same instance comes back unchanged. */
  lemma CorrectedEncodingKeepsValue()
    ensures HasFields(CorrectedClass(NumberClass).encodeLines, map["a" := Num(5)])
    ensures Decode(CorrectedClass(NumberClass),
                   EncodeLines(CorrectedClass(NumberClass).encodeLines, map["a" := Num(5)])) == Decoded(map["a" := Num(5)])
  {
    var m := map["a" := Num(5)];
    NumberClassGenerated();
    assert NumberFields[0].name == "a";
    assert InstanceOf(NumberFields, m);
    MessageRoundTrip(NumberFields, NumberClass, CorrectedClass(NumberClass), m);
    NormalizeKeeps(m);
  }

  /** A message without a `true` field is its own normal form. */
  lemma NormalizeKeeps(m: Message)
    requires forall key :: key in m ==> m[key] != JsValue.Bool(true)
    ensures (map key | key in m :: Normalize(m[key])) == m
  {
  }

  // ---------------------------------------------------------------------------
  // A negative string length moves the reader backwards

  /** The key of string field 1, then the varint of 0xFFFFFFFA, which readVarint reads
      as -6. */
  const Backwards: seq<byte> := [0x0A, 0xFA, 0xFF, 0xFF, 0xFF, 0x0F]

  lemma BackwardsLength()
    ensures ReadTagAt(Backwards, 0) == Some((Tag(1, WIRE_TYPE_LENGTH_DELIMITED), 1))
    ensures ReadVarintAt(Backwards, 1) == Some((-6, 6))
  {
    BackwardsKey();
    NegativeLengthBytes();
    assert BytesAt(Backwards, 1, [0xFA, 0xFF, 0xFF, 0xFF, 0x0F]) by {
      BytesAtSlice(Backwards, 1, [0xFA, 0xFF, 0xFF, 0xFF, 0x0F]);
    }
    VarintRoundTrip(Backwards, 1, 0xFFFF_FFFA);
  }

  lemma BackwardsKey()
    ensures ReadTagAt(Backwards, 0) == Some((Tag(1, WIRE_TYPE_LENGTH_DELIMITED), 1))
  {
    assert VarintBytes(0x0A) == [0x0A];
    VarintRoundTrip(Backwards, 0, 0x0A);
  }

  /** writeVarint(0xFFFFFFFA), one group at a time. */
  lemma NegativeLengthBytes()
    ensures VarintBytes(0xFFFF_FFFA) == [0xFA, 0xFF, 0xFF, 0xFF, 0x0F]
  {
    assert VarintBytes(0xF) == [0x0F];
    GroupOf(0x7FF, 0x7F, 0xF);
    GroupOf(0x3_FFFF, 0x7F, 0x7FF);
    GroupOf(0x1FF_FFFF, 0x7F, 0x3_FFFF);
    GroupOf(0xFFFF_FFFA, 0x7A, 0x1FF_FFFF);
  }

  /** A number of 32 bits or fewer, from 0x80 up, is written as its low group with the
      continuation bit, then the rest. */
  lemma GroupOf(v: int, low: int, rest: int)
    requires 0x80 <= v < 0x1_0000_0000 && low == v % 0x80 && rest == v / 0x80
    ensures VarintBytes(v) == [0x80 + low] + VarintBytes(rest)
  {
  }

  /** One pass of the decode loop as written over that buffer reads an empty string and
      ends back at position 0. */
  lemma BackwardsStep(message: Message)
    ensures DecodeStep(StringClass, Backwards, 0, message, false) == Next(0, message["s" := Str([])])
  {
    BackwardsLength();
    assert ReadStringAt(Backwards, 1) == Some((Slice(Backwards, 6, 0), 0));
  }

  /** A pass of the loop as written that leaves position and message as they were is
      made again and again: the loop never finishes. */
  lemma {:induction false} AsWrittenStuck(c: MessageClass, buf: seq<byte>, pos: int, message: Message, fuel: nat)
    requires pos < |buf| && DecodeStep(c, buf, pos, message, false) == Next(pos, message)
    ensures DecodeAsWrittenFrom(c, buf, pos, message, fuel) == Unfinished
    decreases fuel
  {
    if fuel > 0 {
      DecodeAsWrittenNext(c, buf, pos, message, pos, message, fuel);
      AsWrittenStuck(c, buf, pos, message, fuel - 1);
    }
  }

  /** The same after a first pass that changes the message once and for all. */
  lemma AsWrittenStuckAfter(c: MessageClass, buf: seq<byte>, pos: int, message: Message, next: Message, fuel: nat)
    requires pos < |buf| && DecodeStep(c, buf, pos, message, false) == Next(pos, next)
    requires DecodeStep(c, buf, pos, next, false) == Next(pos, next)
    ensures DecodeAsWrittenFrom(c, buf, pos, message, fuel) == Unfinished
  {
    if fuel > 0 {
      DecodeAsWrittenNext(c, buf, pos, message, pos, next, fuel);
      AsWrittenStuck(c, buf, pos, next, fuel - 1);
    }
  }

  /** So the loop as written never finishes on the buffer. */
  lemma AsWrittenNeverFinishes(message: Message, fuel: nat)
    ensures DecodeAsWrittenFrom(StringClass, Backwards, 0, message, fuel) == Unfinished
  {
    var next := message["s" := Str([])];
    BackwardsStep(message);
    BackwardsStep(next);
    assert next["s" := Str([])] == next;
    AsWrittenStuckAfter(StringClass, Backwards, 0, message, next, fuel);
  }

  /** The fixed decoder throws on it. */
  lemma CorrectedRejectsNegativeLength()
    ensures Decode(StringClass, Backwards) == Threw
  {
    BackwardsLength();
  }

  // ---------------------------------------------------------------------------
  // A string length past the end of the buffer is not noticed

  /** The key of string field 1, a length of 5, and one byte of the five. */
  const Truncated: seq<byte> := [0x0A, 0x05, 0x41]

  lemma TruncatedLength()
    ensures ReadTagAt(Truncated, 0) == Some((Tag(1, WIRE_TYPE_LENGTH_DELIMITED), 1))
    ensures ReadVarintAt(Truncated, 1) == Some((5, 2))
  {
    assert VarintBytes(0x0A) == [0x0A];
    VarintRoundTrip(Truncated, 0, 0x0A);
    VarintRoundTrip(Truncated, 1, 0x05);
  }

  lemma StringDefault()
    ensures DefaultMessage(StringClass) == map["s" := Str([])]
  {
    assert StringClass.ctorLines[..0] == [];
  }

  /** The loop as written takes the one byte there is as the whole string, moves past the
      end and finishes as if the message were complete. */
  lemma AsWrittenAcceptsTruncated(fuel: nat)
    requires fuel >= 2
    ensures DecodeAsWrittenFrom(StringClass, Truncated, 0, DefaultMessage(StringClass), fuel) == Decoded(map["s" := Str([0x41])])
  {
    var m0 := DefaultMessage(StringClass);
    StringDefault();
    TruncatedLength();
    assert Slice(Truncated, 2, 7) == Truncated[2..3] == [0x41];
    assert DecodeStep(StringClass, Truncated, 0, m0, false) == Next(7, m0["s" := Str([0x41])]);
    DecodeAsWrittenNext(StringClass, Truncated, 0, m0, 7, m0["s" := Str([0x41])], fuel);
    assert m0["s" := Str([0x41])] == map["s" := Str([0x41])];
  }

  /** The fixed decoder throws on it. */
  lemma CorrectedRejectsTruncated()
    ensures Decode(StringClass, Truncated) == Threw
  {
    TruncatedLength();
  }

  // ---------------------------------------------------------------------------
  // writeVarint drops all but the low byte of a negative number

  /** With the key written, `{a: -1}` encodes as the key 08 and then FF alone: the loop is
      skipped for a negative number and its low byte is pushed. That byte has the
      continuation bit and nothing follows, so decoding throws. */
  lemma AsWrittenNegativeNumberLost()
    ensures HasFields(CorrectedClass(NumberClass).encodeLines, map["a" := Num(-1)])
    ensures EncodeLines(CorrectedClass(NumberClass).encodeLines, map["a" := Num(-1)]) == [0x08, 0xFF]
    ensures Decode(CorrectedClass(NumberClass), [0x08, 0xFF]) == Threw
  {
    var d := CorrectedClass(NumberClass);
    var m := map["a" := Num(-1)];
    assert d.encodeLines == [TaggedVarint("a", "0", 1)];
    KeySmall(1, WIRE_TYPE_VARINT);
    assert VarintBytes(8) == [0x08] && VarintBytes(-1) == [0xFF];
    assert LineBytes(d.encodeLines[0], Num(-1)) == VarintBytes(8) + VarintBytes(-1) == [0x08, 0xFF];
    var chunks := LineChunks(d.encodeLines, m);
    assert |chunks| == 1 && chunks[0] == LineBytes(d.encodeLines[0], m[d.encodeLines[0].field]);
    assert chunks == [[0x08, 0xFF]];
    assert Flatten(chunks) == Flatten(chunks[..0]) + [0x08, 0xFF];
    VarintRoundTrip([0x08, 0xFF], 0, 8);
    ReadVarintUnterminated([0x08, 0xFF], 1, 0, 0);
  }

  /** With the fix, the same value is written as its 32-bit pattern and read back. */
  lemma CorrectedNegativeNumberKept()
    ensures CorrectedVarintBytes(-1) == [0xFF, 0xFF, 0xFF, 0xFF, 0x0F]
    ensures ReadVarintAt(CorrectedVarintBytes(-1), 0) == Some((-1, 5))
  {
    assert VarintBytes(0xF) == [0x0F];
    GroupOf(0x7FF, 0x7F, 0xF);
    GroupOf(0x3_FFFF, 0x7F, 0x7FF);
    GroupOf(0x1FF_FFFF, 0x7F, 0x3_FFFF);
    GroupOf(0xFFFF_FFFF, 0x7F, 0x1FF_FFFF);
    BytesAtSlice(CorrectedVarintBytes(-1), 0, CorrectedVarintBytes(-1));
    CorrectedVarintRoundTrip(CorrectedVarintBytes(-1), 0, -1);
  }

  // ---------------------------------------------------------------------------
  // The `default` branch skips nothing

  /** Field 2 (unknown to M), length-delimited, holding the bytes 08 05; read as keys and
      values, those bytes say `a = 5`. */
  const UnknownFirst: seq<byte> := [0x12, 0x02, 0x08, 0x05]

  lemma UnknownFirstTags()
    ensures ReadTagAt(UnknownFirst, 0) == Some((Tag(2, WIRE_TYPE_LENGTH_DELIMITED), 1))
    ensures ReadTagAt(UnknownFirst, 1) == Some((Tag(0, WIRE_TYPE_LENGTH_DELIMITED), 2))
    ensures ReadTagAt(UnknownFirst, 2) == Some((Tag(1, WIRE_TYPE_VARINT), 3))
    ensures ReadVarintAt(UnknownFirst, 1) == Some((2, 2))
    ensures ReadVarintAt(UnknownFirst, 3) == Some((5, 4))
  {
    VarintRoundTrip(UnknownFirst, 0, 0x12);
    VarintRoundTrip(UnknownFirst, 1, 0x02);
    VarintRoundTrip(UnknownFirst, 2, 0x08);
    VarintRoundTrip(UnknownFirst, 3, 0x05);
  }

  /** The loop as written steps over the unknown key, then reads its payload as field a. */
  lemma AsWrittenReadsUnknownPayload(fuel: nat)
    requires fuel >= 4
    ensures DecodeAsWrittenFrom(NumberClass, UnknownFirst, 0, DefaultMessage(NumberClass), fuel) == Decoded(map["a" := Num(5)])
  {
    var m0 := DefaultMessage(NumberClass);
    NumberDefault();
    UnknownFirstTags();
    assert DecodeStep(NumberClass, UnknownFirst, 0, m0, false) == Next(1, m0);
    assert DecodeStep(NumberClass, UnknownFirst, 1, m0, false) == Next(2, m0);
    assert DecodeStep(NumberClass, UnknownFirst, 2, m0, false) == Next(4, m0["a" := Num(5)]);
    DecodeAsWrittenNext(NumberClass, UnknownFirst, 0, m0, 1, m0, fuel);
    DecodeAsWrittenNext(NumberClass, UnknownFirst, 1, m0, 2, m0, fuel - 1);
    DecodeAsWrittenNext(NumberClass, UnknownFirst, 2, m0, 4, m0["a" := Num(5)], fuel - 2);
    assert m0["a" := Num(5)] == map["a" := Num(5)];
  }

  /** The fixed decoder skips the unknown field whole and leaves a at its default. */
  lemma CorrectedSkipsUnknownPayload()
    ensures Decode(NumberClass, UnknownFirst) == Decoded(map["a" := Num(0)])
  {
    var m0 := DefaultMessage(NumberClass);
    NumberDefault();
    UnknownFirstTags();
    assert Slice(UnknownFirst, 2, 4) == UnknownFirst[2..4] == [0x08, 0x05];
    assert ReadStringCheckedAt(UnknownFirst, 1) == Some(([0x08, 0x05], 4));
    assert DecodeStep(NumberClass, UnknownFirst, 0, m0, true) == Next(4, m0);
    DecodeFromNext(NumberClass, UnknownFirst, 0, m0, 4, m0);
  }

  /** No case of the switch takes field n with that wire type. */
  predicate Untaken(d: MessageClass, n: int, wireType: int) {
    var found := FindCase(d.decodeCases, n);
    !(found.Some? && WireTypeValue(found.value.wireTypeConstant) == wireType)
  }

  /** A tag that no case takes with its wire type, then a payload that SkipFieldAt steps
      over, is one pass of the fixed loop that changes nothing. */
  lemma SkipStep(d: MessageClass, buf: seq<byte>, pos: int, p: int, q: int, message: Message, n: int, wireType: int)
    requires Untaken(d, n, wireType)
    requires ReadTagAt(buf, pos) == Some((Tag(n, wireType), p))
    requires SkipFieldAt(buf, p, wireType) == Some(q)
    ensures DecodeStep(d, buf, pos, message, true) == Next(q, message)
  {
  }

  /** In general the fixed decoder steps over a whole length-delimited field that no case
      takes with that wire type, and changes nothing. */
  lemma CorrectedSkipsString(d: MessageClass, n: nat, s: seq<byte>, buf: seq<byte>, pos: nat, message: Message)
    requires n < 0x1000_0000 && 0 < |s| < TwoTo31
    requires Untaken(d, n, WIRE_TYPE_LENGTH_DELIMITED)
    requires BytesAt(buf, pos, StringFieldBytes(n, Str(s)))
    ensures DecodeStep(d, buf, pos, message, true) == Next(pos + |StringFieldBytes(n, Str(s))|, message)
  {
    var p := pos + |VarintBytes(Key(n, WIRE_TYPE_LENGTH_DELIMITED))|;
    var q := pos + |StringFieldBytes(n, Str(s))|;
    assert ReadTagAt(buf, pos) == Some((Tag(n, WIRE_TYPE_LENGTH_DELIMITED), p))
        && SkipFieldAt(buf, p, WIRE_TYPE_LENGTH_DELIMITED) == Some(q) by {
      StringFieldRoundTrip(buf, pos, n, s);
      SkipString(buf, p, s, q);
    }
    SkipStep(d, buf, pos, p, q, message, n, WIRE_TYPE_LENGTH_DELIMITED);
  }

  lemma SkipString(buf: seq<byte>, p: int, s: seq<byte>, q: int)
    requires ReadStringCheckedAt(buf, p) == Some((s, q))
    ensures SkipFieldAt(buf, p, WIRE_TYPE_LENGTH_DELIMITED) == Some(q)
  {
  }

  /** The same for a varint field. */
  lemma CorrectedSkipsVarint(d: MessageClass, n: nat, v: int, buf: seq<byte>, pos: nat, message: Message)
    requires n < 0x1000_0000 && 0 <= v < TwoTo31
    requires Untaken(d, n, WIRE_TYPE_VARINT)
    requires BytesAt(buf, pos, VarintBytes(Key(n, WIRE_TYPE_VARINT)) + VarintBytes(v))
    ensures DecodeStep(d, buf, pos, message, true) ==
      Next(pos + |VarintBytes(Key(n, WIRE_TYPE_VARINT)) + VarintBytes(v)|, message)
  {
    var p := pos + |VarintBytes(Key(n, WIRE_TYPE_VARINT))|;
    var q := pos + |VarintBytes(Key(n, WIRE_TYPE_VARINT)) + VarintBytes(v)|;
    VarintFieldRoundTrip(buf, pos, n, v);
    assert SkipFieldAt(buf, p, WIRE_TYPE_VARINT) == Some(q);
    SkipStep(d, buf, pos, p, q, message, n, WIRE_TYPE_VARINT);
  }
}
