/**
 * The encode/decode pair of a generated class. With the encoder fix (a varint field is
 * written as its key and then its value) decoding what a class encodes gives the
 * message back, up to JavaScript's reading of `true` as 1. Without the fix, the value
 * of every non-default varint field is lost.
 */
module ProtoRoundTrip {
  import opened Common
  import opened JsNumbers
  import opened ProtoWire
  import opened ProtoCodegen
  import opened ProtoClient

  /** Field names and numbers are distinct, and numbers stay below 2^28, where the
      key `(fieldNumber << 3) | wireType` does not overflow a signed 32-bit integer. */
  predicate WellFormedFields(fields: seq<FieldDesc>) {
    && (forall i, j :: 0 <= i < j < |fields| ==> fields[i].name != fields[j].name)
    && (forall i, j :: 0 <= i < j < |fields| ==> fields[i].number != fields[j].number)
    && (forall i :: 0 <= i < |fields| ==> fields[i].number < 0x1000_0000)
  }

  /** A value of the JavaScript type of its field, in the range the runtime round-trips:
      numbers below 2^31 and not negative, strings shorter than 2^31 bytes, and null for
      message fields. */
  predicate TypedValue(jsType: string, v: JsValue) {
    match v
    case Str(bs) => jsType == "string" && |bs| < TwoTo31
    case Num(n) => jsType == "number" && 0 <= n < TwoTo31
    case Bool(_) => jsType == "boolean"
    case Null => jsType == "object"
  }

  /** An instance: exactly the fields of the message, each holding a typed value. */
  predicate InstanceOf(fields: seq<FieldDesc>, m: Message) {
    && (forall i :: 0 <= i < |fields| ==> fields[i].name in m && TypedValue(KindTypes(fields[i].kind).0, m[fields[i].name]))
    && (forall key :: key in m ==> exists i :: 0 <= i < |fields| && fields[i].name == key)
  }

  /** What readVarint gives back for a field value: a number; `true` was written as 1. */
  function Normalize(v: JsValue): JsValue {
    if v == JsValue.Bool(true) then Num(1) else v
  }

  /** The class generated for the fields, with the encoder fix applied. */
  predicate Setting(fields: seq<FieldDesc>, c: MessageClass, d: MessageClass) {
    WellFormedFields(fields) && ClassGeneratedFrom(c, c.name, FieldInfos(fields)) && d == CorrectedClass(c)
  }

  /** The message after the decode loop has read what one encode line wrote for v. */
  function Updated(message: Message, line: EncodeLine, v: JsValue): Message {
    if v == DefaultValue(line.default) then message else message[line.field := Normalize(v)]
  }

  /** The message the decode loop holds once it has read what the first k encode lines
      wrote. */
  function PartialMessage(d: MessageClass, m: Message, k: nat): Message
    requires k <= |d.encodeLines| && HasFields(d.encodeLines, m)
  {
    if k == 0 then DefaultMessage(d)
    else Updated(PartialMessage(d, m, k - 1), d.encodeLines[k - 1], m[d.encodeLines[k - 1].field])
  }

  /** The positions where the chunks start, and the end. */
  function Positions(chunks: seq<seq<byte>>): seq<int> {
    seq(|chunks| + 1, k requires 0 <= k <= |chunks| => |Flatten(chunks[..k])|)
  }

  /** The messages the decode loop holds at those positions. */
  function Partials(d: MessageClass, m: Message): seq<Message>
    requires HasFields(d.encodeLines, m)
  {
    seq(|d.encodeLines| + 1, k requires 0 <= k <= |d.encodeLines| => PartialMessage(d, m, k))
  }

  // ---------------------------------------------------------------------------
  // Lemmas

  /** The line of each field in the fixed class. */
  lemma FieldLines(fields: seq<FieldDesc>, c: MessageClass, d: MessageClass, i: int)
    requires Setting(fields, c, d) && 0 <= i < |fields|
    ensures |d.encodeLines| == |fields| && |d.ctorLines| == |fields| && |d.decodeCases| == |fields|
    ensures var info := FieldInfoOf(fields[i]);
      && d.ctorLines[i] == CtorLineOf(info)
      && d.decodeCases[i] == DecodeCaseOf(info)
      && d.encodeLines[i] == CorrectedLine(EncodeLineOf(info))
      && d.encodeLines[i].field == fields[i].name
      && d.encodeLines[i].default == DefaultLiteral(info.jsType)
  {
    assert FieldInfos(fields)[i] == FieldInfoOf(fields[i]);
  }

  /** The switch picks the case of a field whose number no earlier case has. */
  lemma {:induction false} FindCaseAt(cases: seq<DecodeCase>, i: int)
    requires 0 <= i < |cases|
    requires forall j :: 0 <= j < i ==> cases[j].number != cases[i].number
    ensures FindCase(cases, cases[i].number) == Some(cases[i])
  {
    if i > 0 {
      FindCaseAt(cases[1..], i - 1);
    }
  }

  /** The fields of `new C()`: each starts at its default. */
  lemma {:induction false} ConstructDefaults(lines: seq<CtorLine>, k: nat)
    requires k <= |lines|
    requires forall i, j :: 0 <= i < j < |lines| ==> lines[i].field != lines[j].field
    ensures forall j :: 0 <= j < k ==>
      lines[j].field in Construct(lines[..k], map[]) && Construct(lines[..k], map[])[lines[j].field] == DefaultValue(lines[j].default)
    ensures forall key :: key in Construct(lines[..k], map[]) ==> exists j :: 0 <= j < k && lines[j].field == key
  {
    if k > 0 {
      assert lines[..k][..k - 1] == lines[..k - 1];
      ConstructDefaults(lines, k - 1);
    }
  }

  /** The lines of the fixed class, field by field. */
  lemma SettingLines(fields: seq<FieldDesc>, c: MessageClass, d: MessageClass)
    requires Setting(fields, c, d)
    ensures |d.encodeLines| == |fields| && |d.ctorLines| == |fields| && |d.decodeCases| == |fields|
    ensures forall j :: 0 <= j < |fields| ==>
      && d.encodeLines[j].field == fields[j].name
      && d.ctorLines[j] == CtorLine(fields[j].name, d.encodeLines[j].default)
      && d.decodeCases[j].number == fields[j].number
  {
    forall j | 0 <= j < |fields|
      ensures d.encodeLines[j].field == fields[j].name
      ensures d.ctorLines[j] == CtorLine(fields[j].name, d.encodeLines[j].default)
      ensures d.decodeCases[j].number == fields[j].number
    {
      FieldLines(fields, c, d, j);
    }
  }

  /** A tag of a varint field and its value is one pass of the decode loop that stores
      the number. */
  lemma VarintStep(d: MessageClass, buf: seq<byte>, pos: int, p: int, q: int, message: Message, f: string, n: nat, v: int, fixed: bool)
    requires FindCase(d.decodeCases, n) == Some(DecodeCase(n, "WIRE_TYPE_VARINT", f, "readVarint"))
    requires ReadTagAt(buf, pos) == Some((Tag(n, WIRE_TYPE_VARINT), p))
    requires ReadVarintAt(buf, p) == Some((v, q))
    ensures DecodeStep(d, buf, pos, message, fixed) == Next(q, message[f := Num(v)])
  {
  }

  /** A tag of a string field and its bytes is one pass of the decode loop that stores
      the bytes. */
  lemma StringStep(d: MessageClass, buf: seq<byte>, pos: int, p: int, q: int, message: Message, f: string, n: nat, s: seq<byte>, fixed: bool)
    requires FindCase(d.decodeCases, n) == Some(DecodeCase(n, "WIRE_TYPE_LENGTH_DELIMITED", f, "readString"))
    requires ReadTagAt(buf, pos) == Some((Tag(n, WIRE_TYPE_LENGTH_DELIMITED), p))
    requires ReadStringAt(buf, p) == Some((s, q)) && ReadStringCheckedAt(buf, p) == ReadStringAt(buf, p)
    ensures DecodeStep(d, buf, pos, message, fixed) == Next(q, message[f := Str(s)])
  {
  }

  /** A line that writes a key and varint, or a string field, for a value of its type,
      and the decode case the switch picks for its number. */
  predicate LineReadable(d: MessageClass, line: EncodeLine, v: JsValue) {
    && line.number < 0x1000_0000
    && (line.TaggedVarint? || line.writer == "writeString")
    && FindCase(d.decodeCases, line.number) == Some(DecodeCase(line.number,
         if line.TaggedVarint? then "WIRE_TYPE_VARINT" else "WIRE_TYPE_LENGTH_DELIMITED",
         line.field,
         if line.TaggedVarint? then "readVarint" else "readString"))
    && (line.TaggedVarint? && v != DefaultValue(line.default) ==>
          0 < VarintArg(v) < TwoTo31 && Normalize(v) == Num(VarintArg(v)))
    && (!line.TaggedVarint? && v != DefaultValue(line.default) ==>
          v.Str? && 0 < |v.bytes| < TwoTo31 && Normalize(v) == v)
  }

  /** What the generator and the fix make of one field, for a value of its type. */
  lemma FieldShape(f: FieldDesc, v: JsValue)
    requires TypedValue(KindTypes(f.kind).0, v)
    ensures var info := FieldInfoOf(f);
      var line := CorrectedLine(EncodeLineOf(info));
      var case_ := DecodeCaseOf(info);
      && line.field == f.name && line.number == f.number && case_.number == f.number
      && (line.TaggedVarint? || line.writer == "writeString")
      && case_ == DecodeCase(f.number,
           if line.TaggedVarint? then "WIRE_TYPE_VARINT" else "WIRE_TYPE_LENGTH_DELIMITED",
           f.name,
           if line.TaggedVarint? then "readVarint" else "readString")
      && (line.TaggedVarint? && v != DefaultValue(line.default) ==>
            0 < VarintArg(v) < TwoTo31 && Normalize(v) == Num(VarintArg(v)))
      && (!line.TaggedVarint? && v != DefaultValue(line.default) ==>
            v.Str? && 0 < |v.bytes| < TwoTo31 && Normalize(v) == v)
  {
    KindTypesShape(f.kind);
    WriterReaderAgree(KindTypes(f.kind).1);
  }

  /** The decode cases of the fixed class carry distinct numbers. */
  lemma CaseNumbersDistinct(fields: seq<FieldDesc>, c: MessageClass, d: MessageClass)
    requires Setting(fields, c, d)
    ensures |d.decodeCases| == |fields|
    ensures forall i, j :: 0 <= i < j < |fields| ==> d.decodeCases[i].number != d.decodeCases[j].number
  {
    SettingLines(fields, c, d);
  }

  /** The k-th line of the fixed class is readable for the value the instance holds. */
  lemma LineShape(fields: seq<FieldDesc>, c: MessageClass, d: MessageClass, m: Message, k: int)
    requires Setting(fields, c, d) && InstanceOf(fields, m) && 0 <= k < |fields|
    ensures k < |d.encodeLines| && d.encodeLines[k].field in m
    ensures LineReadable(d, d.encodeLines[k], m[d.encodeLines[k].field])
  {
    FieldLines(fields, c, d, k);
    CaseNumbersDistinct(fields, c, d);
    FindCaseAt(d.decodeCases, k);
    assert fields[k].name in m && TypedValue(KindTypes(fields[k].kind).0, m[fields[k].name]);
    FieldShape(fields[k], m[fields[k].name]);
  }

  /** A key of a varint field and the value are one pass of the decode loop that stores
      the number. */
  lemma VarintFieldStep(d: MessageClass, f: string, n: nat, arg: int, buf: seq<byte>, pos: nat, message: Message, fixed: bool)
    requires n < 0x1000_0000 && 0 <= arg < TwoTo31
    requires FindCase(d.decodeCases, n) == Some(DecodeCase(n, "WIRE_TYPE_VARINT", f, "readVarint"))
    requires BytesAt(buf, pos, VarintBytes(Key(n, WIRE_TYPE_VARINT)) + VarintBytes(arg))
    ensures DecodeStep(d, buf, pos, message, fixed) ==
      Next(pos + |VarintBytes(Key(n, WIRE_TYPE_VARINT)) + VarintBytes(arg)|, message[f := Num(arg)])
  {
    VarintFieldRoundTrip(buf, pos, n, arg);
    VarintStep(d, buf, pos, pos + |VarintBytes(Key(n, WIRE_TYPE_VARINT))|,
               pos + |VarintBytes(Key(n, WIRE_TYPE_VARINT)) + VarintBytes(arg)|, message, f, n, arg, fixed);
  }

  /** A string field's bytes are one pass of the decode loop that stores the bytes. */
  lemma StringFieldStep(d: MessageClass, f: string, n: nat, s: seq<byte>, buf: seq<byte>, pos: nat, message: Message, fixed: bool)
    requires n < 0x1000_0000 && 0 < |s| < TwoTo31
    requires FindCase(d.decodeCases, n) == Some(DecodeCase(n, "WIRE_TYPE_LENGTH_DELIMITED", f, "readString"))
    requires BytesAt(buf, pos, StringFieldBytes(n, Str(s)))
    ensures DecodeStep(d, buf, pos, message, fixed) == Next(pos + |StringFieldBytes(n, Str(s))|, message[f := Str(s)])
  {
    var p := pos + |VarintBytes(Key(n, WIRE_TYPE_LENGTH_DELIMITED))|;
    var q := pos + |StringFieldBytes(n, Str(s))|;
    assert ReadTagAt(buf, pos) == Some((Tag(n, WIRE_TYPE_LENGTH_DELIMITED), p))
        && ReadStringAt(buf, p) == Some((s, q)) && ReadStringCheckedAt(buf, p) == ReadStringAt(buf, p) by {
      StringFieldRoundTrip(buf, pos, n, s);
    }
    StringStep(d, buf, pos, p, q, message, f, n, s, fixed);
  }

  /** What a readable key-and-varint line wrote for a value other than the default is a
      pass of the loop that stores the number. */
  lemma VarintLineMoves(d: MessageClass, line: EncodeLine, v: JsValue, buf: seq<byte>, pos: nat, message: Message,
                        q: int, next: Message, fixed: bool)
    requires LineReadable(d, line, v) && line.TaggedVarint? && v != DefaultValue(line.default)
    requires BytesAt(buf, pos, LineBytes(line, v))
    requires q == pos + |LineBytes(line, v)| && next == Updated(message, line, v)
    ensures Moves(d, buf, pos, message, q, next, fixed)
  {
    assert LineBytes(line, v) == VarintBytes(Key(line.number, WIRE_TYPE_VARINT)) + VarintBytes(VarintArg(v));
    VarintFieldStep(d, line.field, line.number, VarintArg(v), buf, pos, message, fixed);
  }

  /** What a readable string line wrote for a value other than the default is a pass of
      the loop that stores the bytes. */
  lemma StringLineMoves(d: MessageClass, line: EncodeLine, v: JsValue, buf: seq<byte>, pos: nat, message: Message,
                        q: int, next: Message, fixed: bool)
    requires LineReadable(d, line, v) && !line.TaggedVarint? && v != DefaultValue(line.default)
    requires BytesAt(buf, pos, LineBytes(line, v))
    requires q == pos + |LineBytes(line, v)| && next == Updated(message, line, v)
    ensures Moves(d, buf, pos, message, q, next, fixed)
  {
    assert LineBytes(line, v) == StringFieldBytes(line.number, Str(v.bytes));
    StringFieldStep(d, line.field, line.number, v.bytes, buf, pos, message, fixed);
  }

  /** What a readable line wrote is one pass of the decode loop, as written or fixed,
      to the message with the value read back, or nothing when the value is the default. */
  lemma LineMoves(d: MessageClass, line: EncodeLine, v: JsValue, buf: seq<byte>, pos: nat, message: Message,
                  q: int, next: Message, fixed: bool)
    requires LineReadable(d, line, v)
    requires BytesAt(buf, pos, LineBytes(line, v))
    requires q == pos + |LineBytes(line, v)| && next == Updated(message, line, v)
    ensures Moves(d, buf, pos, message, q, next, fixed)
  {
    if v == DefaultValue(line.default) {
      assert LineBytes(line, v) == [];
    } else if line.TaggedVarint? {
      VarintLineMoves(d, line, v, buf, pos, message, q, next, fixed);
    } else {
      StringLineMoves(d, line, v, buf, pos, message, q, next, fixed);
    }
  }

  /** Every instance of the fields has all the fields of the class. */
  lemma InstanceHasFields(fields: seq<FieldDesc>, c: MessageClass, d: MessageClass, m: Message)
    requires Setting(fields, c, d) && InstanceOf(fields, m)
    ensures HasFields(d.encodeLines, m)
  {
    SettingLines(fields, c, d);
  }

  /** Every line of the class is readable for the value the message holds. */
  predicate AllReadable(d: MessageClass, m: Message) {
    && HasFields(d.encodeLines, m)
    && forall k :: 0 <= k < |d.encodeLines| ==> LineReadable(d, d.encodeLines[k], m[d.encodeLines[k].field])
  }

  /** Line j's bytes sit at the j-th position, and the next position is past them. */
  lemma ChainBytes(lines: seq<EncodeLine>, m: Message, j: int)
    requires HasFields(lines, m) && 0 <= j < |lines|
    ensures var chunks := LineChunks(lines, m);
      var ps := Positions(chunks);
      && BytesAt(Flatten(chunks), ps[j], LineBytes(lines[j], m[lines[j].field]))
      && ps[j + 1] == ps[j] + |LineBytes(lines[j], m[lines[j].field])|
  {
    var chunks := LineChunks(lines, m);
    ChunkAt(chunks, j);
    assert chunks[j] == LineBytes(lines[j], m[lines[j].field]);
  }

  /** The (j + 1)-th message is the j-th with line j's value read back. */
  lemma ChainMessages(d: MessageClass, m: Message, j: int)
    requires HasFields(d.encodeLines, m) && 0 <= j < |d.encodeLines|
    ensures var ms := Partials(d, m);
      ms[j + 1] == Updated(ms[j], d.encodeLines[j], m[d.encodeLines[j].field])
  {
  }

  /** Line j's bytes take the loop from the j-th state to the next. */
  lemma ChainLink(d: MessageClass, m: Message, j: int, fixed: bool)
    requires AllReadable(d, m) && 0 <= j < |d.encodeLines|
    ensures var chunks := LineChunks(d.encodeLines, m);
      var ps := Positions(chunks);
      var ms := Partials(d, m);
      Moves(d, Flatten(chunks), ps[j], ms[j], ps[j + 1], ms[j + 1], fixed)
  {
    var chunks := LineChunks(d.encodeLines, m);
    var ps := Positions(chunks);
    var ms := Partials(d, m);
    var line := d.encodeLines[j];
    ChainBytes(d.encodeLines, m, j);
    ChainMessages(d, m, j);
    LineMoves(d, line, m[line.field], Flatten(chunks), ps[j], ms[j], ps[j + 1], ms[j + 1], fixed);
  }

  /** The chain starts at position 0 with `new C()` and ends at the end of the buffer. */
  lemma ChainEnds(d: MessageClass, m: Message)
    requires HasFields(d.encodeLines, m)
    ensures var chunks := LineChunks(d.encodeLines, m);
      var ps := Positions(chunks);
      var ms := Partials(d, m);
      && |ps| == |ms| == |d.encodeLines| + 1
      && ps[0] == 0 && ms[0] == DefaultMessage(d)
      && ps[|d.encodeLines|] == |Flatten(chunks)|
  {
    var chunks := LineChunks(d.encodeLines, m);
    assert chunks[..|chunks|] == chunks;
  }

  /** The generated class with the fix reads back every line of an instance. */
  lemma InstanceReadable(fields: seq<FieldDesc>, c: MessageClass, d: MessageClass, m: Message)
    requires Setting(fields, c, d) && InstanceOf(fields, m)
    ensures AllReadable(d, m)
  {
    SettingLines(fields, c, d);
    forall k | 0 <= k < |d.encodeLines|
      ensures LineReadable(d, d.encodeLines[k], m[d.encodeLines[k].field])
    {
      LineShape(fields, c, d, m, k);
    }
  }

  /** The fixed decoder reads the encoding back to the message holding every line's
      value. */
  lemma DecodesToPartial(d: MessageClass, m: Message)
    requires AllReadable(d, m)
    ensures Decode(d, EncodeLines(d.encodeLines, m)) == Decoded(PartialMessage(d, m, |d.encodeLines|))
  {
    var chunks := LineChunks(d.encodeLines, m);
    var ps := Positions(chunks);
    var ms := Partials(d, m);
    forall j | 0 <= j < |d.encodeLines|
      ensures Moves(d, Flatten(chunks), ps[j], ms[j], ps[j + 1], ms[j + 1], true)
    {
      ChainLink(d, m, j, true);
    }
    ChainEnds(d, m);
    DecodeAlong(d, Flatten(chunks), ps, ms, 0);
  }

  /** So does the decoder as written, given one pass per line and one more. */
  lemma AsWrittenDecodesToPartial(d: MessageClass, m: Message, fuel: nat)
    requires AllReadable(d, m) && fuel > |d.encodeLines|
    ensures DecodeAsWrittenFrom(d, EncodeLines(d.encodeLines, m), 0, DefaultMessage(d), fuel) ==
      Decoded(PartialMessage(d, m, |d.encodeLines|))
  {
    var chunks := LineChunks(d.encodeLines, m);
    var ps := Positions(chunks);
    var ms := Partials(d, m);
    forall j | 0 <= j < |d.encodeLines|
      ensures Moves(d, Flatten(chunks), ps[j], ms[j], ps[j + 1], ms[j + 1], false)
    {
      ChainLink(d, m, j, false);
    }
    ChainEnds(d, m);
    DecodeAsWrittenAlong(d, Flatten(chunks), ps, ms, 0, fuel);
  }

  /** The message holds the fields of the instance, the first k with the values read
      back and the others at their defaults. */
  predicate HoldsFirst(fields: seq<FieldDesc>, d: MessageClass, m: Message, message: Message, k: nat) {
    && k <= |fields| == |d.encodeLines|
    && message.Keys == m.Keys
    && (forall j :: 0 <= j < |fields| ==>
          && fields[j].name in m && fields[j].name in message
          && message[fields[j].name] ==
               if j < k then Normalize(m[fields[j].name]) else DefaultValue(d.encodeLines[j].default))
  }

  /** `new C()` holds every field at its default. */
  lemma DefaultHoldsNone(fields: seq<FieldDesc>, d: MessageClass, m: Message)
    requires |d.ctorLines| == |fields| == |d.encodeLines|
    requires forall j :: 0 <= j < |fields| ==> d.ctorLines[j] == CtorLine(fields[j].name, d.encodeLines[j].default)
    requires forall i, j :: 0 <= i < j < |fields| ==> fields[i].name != fields[j].name
    requires InstanceOf(fields, m)
    ensures HoldsFirst(fields, d, m, DefaultMessage(d), 0)
  {
    var lines := d.ctorLines;
    assert lines[..|lines|] == lines;
    ConstructDefaults(lines, |lines|);
    var message := DefaultMessage(d);
    forall key | key in m
      ensures key in message
    {
      var i :| 0 <= i < |fields| && fields[i].name == key;
      assert lines[i].field == key;
    }
    forall key | key in message
      ensures key in m
    {
      var j :| 0 <= j < |lines| && lines[j].field == key;
      assert fields[j].name == key;
    }
  }

  /** The encode lines of the fixed class follow the fields, whose names are distinct. */
  predicate Layout(fields: seq<FieldDesc>, d: MessageClass) {
    && |d.encodeLines| == |fields|
    && (forall j :: 0 <= j < |fields| ==> d.encodeLines[j].field == fields[j].name)
    && (forall i, j :: 0 <= i < j < |fields| ==> fields[i].name != fields[j].name)
  }

  /** Reading back line k's value extends what the message holds by field k. */
  lemma UpdatedHoldsOneMore(fields: seq<FieldDesc>, d: MessageClass, m: Message, message: Message, k: nat)
    requires Layout(fields, d) && HoldsFirst(fields, d, m, message, k) && k < |fields|
    ensures HoldsFirst(fields, d, m, Updated(message, d.encodeLines[k], m[d.encodeLines[k].field]), k + 1)
  {
    var line := d.encodeLines[k];
    var v := m[line.field];
    var next := Updated(message, line, v);
    if v == DefaultValue(line.default) {
      assert next == message && Normalize(v) == v;
    } else {
      assert next == message[line.field := Normalize(v)];
    }
    assert next.Keys == m.Keys;
    forall j | 0 <= j < |fields|
      ensures fields[j].name in next
      ensures next[fields[j].name] ==
        if j < k + 1 then Normalize(m[fields[j].name]) else DefaultValue(d.encodeLines[j].default)
    {
      if j < k {
        assert fields[j].name != fields[k].name;
      } else if j > k {
        assert fields[k].name != fields[j].name;
      }
    }
  }

  /** What PartialMessage holds after k lines. */
  lemma {:induction false} PartialHolds(fields: seq<FieldDesc>, d: MessageClass, m: Message, k: nat)
    requires Layout(fields, d) && HasFields(d.encodeLines, m) && HoldsFirst(fields, d, m, DefaultMessage(d), 0)
    requires k <= |d.encodeLines|
    ensures HoldsFirst(fields, d, m, PartialMessage(d, m, k), k)
  {
    if k > 0 {
      PartialHolds(fields, d, m, k - 1);
      UpdatedHoldsOneMore(fields, d, m, PartialMessage(d, m, k - 1), k - 1);
    }
  }

  /** A message holding every field read back, and nothing else, is the instance with
      `true` read as 1. */
  lemma HoldsAll(fields: seq<FieldDesc>, d: MessageClass, m: Message, message: Message)
    requires HoldsFirst(fields, d, m, message, |fields|)
    requires forall key :: key in m ==> exists i :: 0 <= i < |fields| && fields[i].name == key
    ensures message == map key | key in m :: Normalize(m[key])
  {
    forall key | key in m
      ensures message[key] == Normalize(m[key])
    {
      var i :| 0 <= i < |fields| && fields[i].name == key;
    }
  }

  /** Once every line is read, the message is the instance with `true` read as 1. */
  lemma AllRead(fields: seq<FieldDesc>, c: MessageClass, d: MessageClass, m: Message)
    requires Setting(fields, c, d) && InstanceOf(fields, m) && HasFields(d.encodeLines, m)
    ensures PartialMessage(d, m, |d.encodeLines|) == map key | key in m :: Normalize(m[key])
  {
    SettingLines(fields, c, d);
    DefaultHoldsNone(fields, d, m);
    PartialHolds(fields, d, m, |d.encodeLines|);
    HoldsAll(fields, d, m, PartialMessage(d, m, |d.encodeLines|));
  }

  /** The round trip of a generated class with the encoder fix: for every instance of
      well-formed fields, decode(encode()) gives the instance back, up to `true` read as
      the number 1, with the fixed decoder and with the decoder as written. */
  lemma MessageRoundTrip(fields: seq<FieldDesc>, c: MessageClass, d: MessageClass, m: Message)
    requires Setting(fields, c, d) && InstanceOf(fields, m)
    ensures HasFields(d.encodeLines, m)
    ensures Decode(d, EncodeLines(d.encodeLines, m)) == Decoded(map key | key in m :: Normalize(m[key]))
    ensures forall fuel: nat :: fuel > |fields| ==>
      DecodeAsWrittenFrom(d, EncodeLines(d.encodeLines, m), 0, DefaultMessage(d), fuel) ==
        Decoded(map key | key in m :: Normalize(m[key]))
  {
    InstanceHasFields(fields, c, d, m);
    InstanceReadable(fields, c, d, m);
    SettingLines(fields, c, d);
    AllRead(fields, c, d, m);
    DecodesToPartial(d, m);
    forall fuel: nat | fuel > |fields|
      ensures DecodeAsWrittenFrom(d, EncodeLines(d.encodeLines, m), 0, DefaultMessage(d), fuel) ==
        Decoded(map key | key in m :: Normalize(m[key]))
    {
      AsWrittenDecodesToPartial(d, m, fuel);
    }
  }
}
