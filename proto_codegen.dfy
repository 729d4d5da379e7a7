/**
 * The protobuf JavaScript client generator of the build script: the choices it makes
 * for each field of each message (a JavaScript type, a wire type, a default literal,
 * a writer method, a wire-type constant and a reader method), and the way it collects
 * one class, one registration, one window export and one name per message.
 *
 * The emitted text is kept as its ingredients: each generated line is a small record
 * holding the per-field choices that the generator pastes into its template.
 */
module ProtoCodegen {
  import opened ProtoWire

  /** The field kinds a protobuf descriptor can report. */
  datatype Kind =
    | String | Bytes | Message | Enum | Bool
    | Int32 | Sint32 | Sfixed32 | Int64 | Sint64 | Sfixed64
    | Uint32 | Fixed32 | Uint64 | Fixed64
    | Float | Double

  datatype FieldDesc = FieldDesc(name: string, number: nat, kind: Kind)
  datatype MessageDesc = MessageDesc(name: string, fields: seq<FieldDesc>)

  /** The tuple `(field_name, field_number, js_type, wire_type)` pushed for each field. */
  datatype FieldInfo = FieldInfo(name: string, number: nat, jsType: string, wireType: string)

  // ---------------------------------------------------------------------------
  // The per-field mappings

  /** The `(js_type, wire_type)` pair chosen for a field kind. */
  function KindTypes(k: Kind): (string, string) {
    match k
    case String => ("string", "string")
    case Int32 | Sint32 | Sfixed32 | Enum => ("number", "int32")
    case Int64 | Sint64 | Sfixed64 => ("number", "int64")
    case Uint32 | Fixed32 => ("number", "uint32")
    case Uint64 | Fixed64 => ("number", "uint64")
    case Bool => ("boolean", "bool")
    case Bytes => ("string", "string")
    case Message => ("object", "string")
    case _ => ("string", "string")
  }

  function FieldInfoOf(f: FieldDesc): FieldInfo {
    FieldInfo(f.name, f.number, KindTypes(f.kind).0, KindTypes(f.kind).1)
  }

  /** The wire types written and read as varints. */
  predicate IsVarintWireType(wireType: string) {
    wireType == "int32" || wireType == "int64" || wireType == "uint32" || wireType == "uint64" || wireType == "bool"
  }

  /** The JavaScript literal a field starts from, and that the encoder compares against. */
  function DefaultLiteral(jsType: string): string {
    if jsType == "string" then "''"
    else if jsType == "number" then "0"
    else if jsType == "boolean" then "false"
    else "null"
  }

  function WriterMethod(wireType: string): string {
    if wireType == "string" then "writeString"
    else if IsVarintWireType(wireType) then "writeVarint"
    else "writeString"
  }

  function WireTypeConstant(wireType: string): string {
    if wireType == "string" then "WIRE_TYPE_LENGTH_DELIMITED"
    else if IsVarintWireType(wireType) then "WIRE_TYPE_VARINT"
    else "WIRE_TYPE_LENGTH_DELIMITED"
  }

  function ReaderMethod(wireType: string): string {
    if wireType == "string" then "readString"
    else if IsVarintWireType(wireType) then "readVarint"
    else "readString"
  }

  /** The value of a wire-type constant the generated decoder compares against. */
  function WireTypeValue(constant: string): int {
    if constant == "WIRE_TYPE_VARINT" then WIRE_TYPE_VARINT else WIRE_TYPE_LENGTH_DELIMITED
  }

  // ---------------------------------------------------------------------------
  // The generated lines

  /** `this.F = data.F !== undefined ? data.F : D;` */
  datatype CtorLine = CtorLine(field: string, default: string)

  /** `if (this.F !== D) { writer.W(N, this.F); }` as generated; TaggedVarint is the
      corrected form `if (this.F !== D) { writer.writeTag(N, WIRE_TYPE_VARINT);
      writer.writeVarint(this.F); }` (see ProtoClient). */
  datatype EncodeLine =
    | WriterCall(field: string, default: string, writer: string, number: nat)
    | TaggedVarint(field: string, default: string, number: nat)

  /** `case N: if (tag.wireType === C) { message.F = reader.R(); } break;` */
  datatype DecodeCase = DecodeCase(number: nat, wireTypeConstant: string, field: string, reader: string)

  /** `F: this.F,` */
  datatype JsonLine = JsonLine(field: string)

  datatype MessageClass = MessageClass(
    name: string,
    ctorLines: seq<CtorLine>,
    encodeLines: seq<EncodeLine>,
    decodeCases: seq<DecodeCase>,
    jsonLines: seq<JsonLine>)

  function CtorLineOf(f: FieldInfo): CtorLine {
    CtorLine(f.name, DefaultLiteral(f.jsType))
  }

  function EncodeLineOf(f: FieldInfo): EncodeLine {
    WriterCall(f.name, DefaultLiteral(f.jsType), WriterMethod(f.wireType), f.number)
  }

  function DecodeCaseOf(f: FieldInfo): DecodeCase {
    DecodeCase(f.number, WireTypeConstant(f.wireType), f.name, ReaderMethod(f.wireType))
  }

  /** The class generated for `name` contributes, for the i-th field and at position i,
      one constructor line, one encode line, one decode case and one toJSON line. */
  predicate ClassGeneratedFrom(c: MessageClass, name: string, info: seq<FieldInfo>) {
    && c.name == name
    && |c.ctorLines| == |info| && |c.encodeLines| == |info|
    && |c.decodeCases| == |info| && |c.jsonLines| == |info|
    && (forall i :: 0 <= i < |info| ==> c.ctorLines[i] == CtorLineOf(info[i]))
    && (forall i :: 0 <= i < |info| ==> c.encodeLines[i] == EncodeLineOf(info[i]))
    && (forall i :: 0 <= i < |info| ==> c.decodeCases[i] == DecodeCaseOf(info[i]))
    && (forall i :: 0 <= i < |info| ==> c.jsonLines[i] == JsonLine(info[i].name))
  }

  /** The `field_info` list built for a message: one tuple per field, in field order. */
  function FieldInfos(fields: seq<FieldDesc>): seq<FieldInfo> {
    seq(|fields|, i requires 0 <= i < |fields| => FieldInfoOf(fields[i]))
  }

  function Registration(name: string): string {
    "protoClient.messageTypes['" + name + "'] = " + name + ";"
  }

  function WindowExport(name: string): string {
    "window." + name + " = " + name + ";"
  }

  /** The four lists the client file is assembled from. */
  datatype ClientCode = ClientCode(
    classes: seq<MessageClass>,
    registrations: seq<string>,
    windowExports: seq<string>,
    names: seq<string>)

  // ---------------------------------------------------------------------------
  // The generator loops

  /** generate_message_class: one pass over the field tuples, appending to four parts. */
  method GenerateMessageClass(className: string, fieldInfo: seq<FieldInfo>) returns (c: MessageClass)
    ensures ClassGeneratedFrom(c, className, fieldInfo)
  {
    var ctorLines: seq<CtorLine> := [];
    var encodeLines: seq<EncodeLine> := [];
    var decodeCases: seq<DecodeCase> := [];
    var jsonLines: seq<JsonLine> := [];
    for i := 0 to |fieldInfo|
      invariant |ctorLines| == i && |encodeLines| == i && |decodeCases| == i && |jsonLines| == i
      invariant forall j :: 0 <= j < i ==> ctorLines[j] == CtorLineOf(fieldInfo[j])
      invariant forall j :: 0 <= j < i ==> encodeLines[j] == EncodeLineOf(fieldInfo[j])
      invariant forall j :: 0 <= j < i ==> decodeCases[j] == DecodeCaseOf(fieldInfo[j])
      invariant forall j :: 0 <= j < i ==> jsonLines[j] == JsonLine(fieldInfo[j].name)
    {
      var f := fieldInfo[i];
      ctorLines := ctorLines + [CtorLine(f.name, DefaultLiteral(f.jsType))];
      encodeLines := encodeLines + [WriterCall(f.name, DefaultLiteral(f.jsType), WriterMethod(f.wireType), f.number)];
      decodeCases := decodeCases + [DecodeCase(f.number, WireTypeConstant(f.wireType), f.name, ReaderMethod(f.wireType))];
      jsonLines := jsonLines + [JsonLine(f.name)];
    }
    c := MessageClass(className, ctorLines, encodeLines, decodeCases, jsonLines);
  }

  /** generate_protobuf_client_code: for every message of the pool, in pool order, the
      field tuples are collected, then one class, one registration, one export and one
      name are appended. */
  method GenerateProtobufClientCode(messages: seq<MessageDesc>) returns (code: ClientCode)
    ensures |code.classes| == |messages| && |code.registrations| == |messages|
    ensures |code.windowExports| == |messages| && |code.names| == |messages|
    ensures forall i :: 0 <= i < |messages| ==>
      ClassGeneratedFrom(code.classes[i], messages[i].name, FieldInfos(messages[i].fields))
    ensures forall i :: 0 <= i < |messages| ==>
      && code.registrations[i] == Registration(messages[i].name)
      && code.windowExports[i] == WindowExport(messages[i].name)
      && code.names[i] == messages[i].name
  {
    var classes: seq<MessageClass> := [];
    var registrations: seq<string> := [];
    var windowExports: seq<string> := [];
    var names: seq<string> := [];
    for m := 0 to |messages|
      invariant |classes| == m && |registrations| == m && |windowExports| == m && |names| == m
      invariant forall i :: 0 <= i < m ==>
        ClassGeneratedFrom(classes[i], messages[i].name, FieldInfos(messages[i].fields))
      invariant forall i :: 0 <= i < m ==>
        && registrations[i] == Registration(messages[i].name)
        && windowExports[i] == WindowExport(messages[i].name)
        && names[i] == messages[i].name
    {
      var message := messages[m];
      var fieldInfo: seq<FieldInfo> := [];
      for k := 0 to |message.fields|
        invariant |fieldInfo| == k
        invariant forall j :: 0 <= j < k ==> fieldInfo[j] == FieldInfoOf(message.fields[j])
      {
        var field := message.fields[k];
        var (jsType, wireType) := KindTypes(field.kind);
        fieldInfo := fieldInfo + [FieldInfo(field.name, field.number, jsType, wireType)];
      }
      assert fieldInfo == FieldInfos(message.fields);
      var c := GenerateMessageClass(message.name, fieldInfo);
      classes := classes + [c];
      registrations := registrations + [Registration(message.name)];
      windowExports := windowExports + [WindowExport(message.name)];
      names := names + [message.name];
    }
    code := ClientCode(classes, registrations, windowExports, names);
  }

  // ---------------------------------------------------------------------------
  // What the choices mean

  /** The wire type a writer method puts in front of its payload, when it writes one. */
  function WriterWireType(writer: string): int {
    if writer == "writeVarint" then WIRE_TYPE_VARINT else WIRE_TYPE_LENGTH_DELIMITED
  }

  /** The JavaScript type determines the default literal, and only the four JavaScript
      types the kind mapping produces occur. */
  lemma KindTypesShape(k: Kind)
    ensures KindTypes(k).0 in {"string", "number", "boolean", "object"}
    ensures KindTypes(k).0 == "object" <==> k == Message
    ensures KindTypes(k).0 == "boolean" <==> k == Kind.Bool
    ensures KindTypes(k).0 == "number" <==> IsVarintWireType(KindTypes(k).1) && k != Kind.Bool
    ensures KindTypes(k).1 == "string" <==> !IsVarintWireType(KindTypes(k).1)
  {
  }

  /** Writer, wire-type constant and reader agree for every wire-type string, the fallback
      included: a field is written and read as a varint or as a length-delimited value. */
  lemma WriterReaderAgree(wireType: string)
    ensures WriterMethod(wireType) == "writeVarint" <==> IsVarintWireType(wireType)
    ensures WireTypeConstant(wireType) == "WIRE_TYPE_VARINT" <==> IsVarintWireType(wireType)
    ensures ReaderMethod(wireType) == "readVarint" <==> IsVarintWireType(wireType)
    ensures WriterMethod(wireType) == "writeString" <==> !IsVarintWireType(wireType)
    ensures WireTypeConstant(wireType) == "WIRE_TYPE_LENGTH_DELIMITED" <==> !IsVarintWireType(wireType)
    ensures ReaderMethod(wireType) == "readString" <==> !IsVarintWireType(wireType)
  {
  }

  /** In a generated class, the i-th encode line compares against the default the
      constructor assigns, and the i-th decode case accepts the wire type the writer of
      the i-th encode line is meant to emit, with the matching reader. */
  lemma {:induction false} GeneratedClassAgrees(c: MessageClass, name: string, info: seq<FieldInfo>, i: int)
    requires ClassGeneratedFrom(c, name, info) && 0 <= i < |info|
    ensures c.encodeLines[i].WriterCall? && c.encodeLines[i].field == c.ctorLines[i].field == c.decodeCases[i].field
    ensures c.encodeLines[i].default == c.ctorLines[i].default
    ensures c.encodeLines[i].number == c.decodeCases[i].number
    ensures WireTypeValue(c.decodeCases[i].wireTypeConstant) == WriterWireType(c.encodeLines[i].writer)
    ensures (c.decodeCases[i].reader == "readVarint") == (c.encodeLines[i].writer == "writeVarint")
  {
    WriterReaderAgree(info[i].wireType);
  }

  /** The wire type the Protocol Buffers encoding assigns to each field kind ("Encoding"
      guide, section "Message Structure"): VARINT for the integer kinds, bool and enum,
      I64 for the 64-bit fixed kinds and double, LEN for strings, bytes and messages, I32
      for the 32-bit fixed kinds and float. */
  function ProtobufWireType(k: Kind): int {
    match k
    case Int32 | Int64 | Uint32 | Uint64 | Sint32 | Sint64 | Bool | Enum => WIRE_TYPE_VARINT
    case Fixed64 | Sfixed64 | Double => WIRE_TYPE_FIXED64
    case String | Bytes | Message => WIRE_TYPE_LENGTH_DELIMITED
    case Fixed32 | Sfixed32 | Float => WIRE_TYPE_FIXED32
  }

  /** The wire type the generated decoder expects for a field of kind k. */
  function GeneratedWireType(k: Kind): int {
    WireTypeValue(WireTypeConstant(KindTypes(k).1))
  }

  /** The generated client agrees with the Protocol Buffers wire types except on the
      fixed-width kinds and the floating-point kinds, which it reads as varints or as
      length-delimited strings. */
  lemma WireTypesAgainstProtobuf(k: Kind)
    ensures GeneratedWireType(k) == ProtobufWireType(k) <==>
      k !in {Fixed32, Sfixed32, Fixed64, Sfixed64, Float, Double}
  {
  }
}
