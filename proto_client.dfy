/**
 * What a generated message class does when it runs: its constructor, `encode()` and
 * the static `decode(buffer)`, read off the lines the generator emitted for it
 * (ProtoCodegen) and executed with the runtime classes (ProtoRuntime).
 *
 * A message instance is a map from field name to value. Strings are held as their
 * UTF-8 bytes, so TextEncoder and TextDecoder are the identity here.
 */
module ProtoClient {
  import opened Common
  import opened JsNumbers
  import opened ProtoWire
  import opened ProtoRuntime
  import opened ProtoCodegen

  type Message = map<string, JsValue>

  /** The value a default literal of the generator denotes. */
  function DefaultValue(literal: string): JsValue {
    if literal == "''" then Str([])
    else if literal == "0" then Num(0)
    else if literal == "false" then JsValue.Bool(false)
    else Null
  }

  // ---------------------------------------------------------------------------
  // The constructor

  /** The constructor lines run in order: each field takes `data.F` when it is given,
      and its default otherwise. */
  function Construct(lines: seq<CtorLine>, data: Message): Message
    decreases |lines|
  {
    if |lines| == 0 then map[]
    else
      var l := lines[|lines| - 1];
      Construct(lines[..|lines| - 1], data)[l.field := if l.field in data then data[l.field] else DefaultValue(l.default)]
  }

  /** `new C()`, the message decode starts from. */
  function DefaultMessage(c: MessageClass): Message {
    Construct(c.ctorLines, map[])
  }

  // ---------------------------------------------------------------------------
  // encode()

  /** The number JavaScript's bitwise operators make of a field value: true is 1, and
      false, null and strings are 0. */
  function VarintArg(v: JsValue): int {
    match v
    case Num(n) => n
    case Bool(b) => if b then 1 else 0
    case _ => 0
  }

  /** The bytes one encode line appends for the field value v. The line does nothing
      when the value is its default (`!==` on these values is structural inequality).
      A generated `writer.writeVarint(N, this.F)` passes two arguments to a method that
      takes one: it writes the field number N as a varint, and the value is lost. The
      generator emits only writeString and writeVarint. */
  function LineBytes(line: EncodeLine, v: JsValue): seq<byte> {
    if v == DefaultValue(line.default) then []
    else match line
      case WriterCall(_, _, writer, n) =>
        if writer == "writeVarint" then VarintBytes(n) else StringFieldBytes(n, v)
      case TaggedVarint(_, _, n) =>
        VarintBytes(Key(n, WIRE_TYPE_VARINT)) + VarintBytes(VarintArg(v))
  }

  /** The fields of a class, all present in an instance of it. */
  predicate HasFields(lines: seq<EncodeLine>, m: Message) {
    forall i :: 0 <= i < |lines| ==> lines[i].field in m
  }

  /** The bytes each line appends, line by line. */
  function LineChunks(lines: seq<EncodeLine>, m: Message): seq<seq<byte>>
    requires HasFields(lines, m)
  {
    seq(|lines|, i requires 0 <= i < |lines| => LineBytes(lines[i], m[lines[i].field]))
  }

  /** The chunks one after the other. */
  function Flatten(chunks: seq<seq<byte>>): seq<byte>
    decreases |chunks|
  {
    if |chunks| == 0 then [] else Flatten(chunks[..|chunks| - 1]) + chunks[|chunks| - 1]
  }

  /** The bytes a run of encode lines appends, in line order. */
  function EncodeLines(lines: seq<EncodeLine>, m: Message): seq<byte>
    requires HasFields(lines, m)
  {
    Flatten(LineChunks(lines, m))
  }

  /** One encode line, run against the writer. */
  method RunEncodeLine(writer: ProtobufWriter, line: EncodeLine, v: JsValue)
    modifies writer
    ensures writer.buffer == old(writer.buffer) + LineBytes(line, v)
  {
    if v != DefaultValue(line.default) {
      match line
      case WriterCall(_, _, method_, n) =>
        if method_ == "writeVarint" {
          writer.WriteVarint(n);
        } else {
          writer.WriteString(n, v);
        }
      case TaggedVarint(_, _, n) =>
        writer.WriteTag(n, WIRE_TYPE_VARINT);
        writer.WriteVarint(VarintArg(v));
    }
  }

  /** encode(): a fresh writer, every encode line in order, then getBytes(). */
  method Encode(c: MessageClass, m: Message) returns (bytes: seq<byte>)
    requires HasFields(c.encodeLines, m)
    ensures bytes == EncodeLines(c.encodeLines, m)
  {
    var writer := new ProtobufWriter();
    var lines := c.encodeLines;
    ghost var chunks := LineChunks(lines, m);
    for i := 0 to |lines|
      invariant writer.buffer == Flatten(chunks[..i])
    {
      RunEncodeLine(writer, lines[i], m[lines[i].field]);
      FlattenSnoc(chunks, i);
    }
    assert chunks[..|lines|] == chunks;
    bytes := writer.GetBytes();
  }

  /** One more chunk appends its bytes. */
  lemma FlattenSnoc(chunks: seq<seq<byte>>, i: int)
    requires 0 <= i < |chunks|
    ensures Flatten(chunks[..i + 1]) == Flatten(chunks[..i]) + chunks[i]
  {
    assert chunks[..i + 1][..i] == chunks[..i];
  }

  /** The chunks up to i are a prefix of the chunks up to j, for i <= j. */
  lemma {:induction false} FlattenPrefix(chunks: seq<seq<byte>>, i: int, j: int)
    requires 0 <= i <= j <= |chunks|
    ensures Flatten(chunks[..i]) <= Flatten(chunks[..j])
    decreases j - i
  {
    if i < j {
      FlattenPrefix(chunks, i, j - 1);
      FlattenSnoc(chunks, j - 1);
    }
  }

  /** Chunk k sits in the flattened chunks right after the chunks before it. */
  lemma ChunkAt(chunks: seq<seq<byte>>, k: int)
    requires 0 <= k < |chunks|
    ensures |Flatten(chunks[..k + 1])| == |Flatten(chunks[..k])| + |chunks[k]| <= |Flatten(chunks)|
    ensures BytesAt(Flatten(chunks), |Flatten(chunks[..k])|, chunks[k])
  {
    var all := Flatten(chunks);
    var before := Flatten(chunks[..k]);
    FlattenSnoc(chunks, k);
    FlattenPrefix(chunks, k + 1, |chunks|);
    assert chunks[..|chunks|] == chunks;
    assert all[|before|..|before| + |chunks[k]|] == chunks[k];
    BytesAtSlice(all, |before|, chunks[k]);
  }

  /** The fix of the encoder: a varint field is written as its key and then its value. */
  function CorrectedLine(line: EncodeLine): EncodeLine {
    match line
    case WriterCall(f, d, writer, n) => if writer == "writeVarint" then TaggedVarint(f, d, n) else line
    case TaggedVarint(_, _, _) => line
  }

  function CorrectedClass(c: MessageClass): (d: MessageClass)
    ensures d.name == c.name && d.ctorLines == c.ctorLines && d.decodeCases == c.decodeCases
    ensures |d.encodeLines| == |c.encodeLines|
    ensures forall i :: 0 <= i < |c.encodeLines| ==> d.encodeLines[i] == CorrectedLine(c.encodeLines[i])
  {
    c.(encodeLines := seq(|c.encodeLines|, i requires 0 <= i < |c.encodeLines| => CorrectedLine(c.encodeLines[i])))
  }

  // ---------------------------------------------------------------------------
  // decode(buffer)

  /** The case of the generated switch that a field number selects: the first one whose
      label is that number. */
  function FindCase(cases: seq<DecodeCase>, fieldNumber: int): (r: Option<DecodeCase>)
    ensures r.Some? ==> r.value in cases && r.value.number == fieldNumber
    ensures r.None? ==> forall i :: 0 <= i < |cases| ==> cases[i].number != fieldNumber
    decreases |cases|
  {
    if |cases| == 0 then None
    else if cases[0].number == fieldNumber then Some(cases[0])
    else FindCase(cases[1..], fieldNumber)
  }

  datatype Step = Next(pos: int, message: Message) | Throw

  /** One pass of the decode loop from position pos: read a tag, and either store the
      value the matching case reads or, when no case takes the tag, fall to `default`.
      The generated code as written (fixed false) reads a string whatever the sign of
      its length and skips nothing in `default`; the fixed decoder (fixed true) throws
      on a negative length and skips the payload of a field it does not take. */
  function DecodeStep(c: MessageClass, buf: seq<byte>, pos: int, message: Message, fixed: bool): (r: Step)
    ensures fixed && r.Next? ==> r.pos > pos
  {
    ReadsAdvance(buf, pos, 0);
    match ReadTagAt(buf, pos)
    case None => Throw
    case Some((tag, p)) =>
      ReadsAdvance(buf, p, tag.wireType);
      var found := FindCase(c.decodeCases, tag.fieldNumber);
      if found.Some? && tag.wireType == WireTypeValue(found.value.wireTypeConstant) then
        if found.value.reader == "readVarint" then
          match ReadVarintAt(buf, p)
          case None => Throw
          case Some((v, q)) => Next(q, message[found.value.field := Num(v)])
        else
          match (if fixed then ReadStringCheckedAt(buf, p) else ReadStringAt(buf, p))
          case None => Throw
          case Some((s, q)) => Next(q, message[found.value.field := Str(s)])
      else if fixed then
        match SkipFieldAt(buf, p, tag.wireType)
        case None => Throw
        case Some(q) => Next(q, message)
      else Next(p, message)
  }

  /** What a call of decode ends in: a message, an exception, or (for the loop as
      written, run with a bound on its passes) not finished yet. */
  datatype Outcome = Decoded(message: Message) | Threw | Unfinished

  /** The fixed decode loop: `while (reader.hasMore())`, one step per pass. */
  function DecodeFrom(c: MessageClass, buf: seq<byte>, pos: int, message: Message): (r: Outcome)
    ensures r != Unfinished
    decreases |buf| - pos
  {
    if pos < |buf| then
      match DecodeStep(c, buf, pos, message, true)
      case Throw => Threw
      case Next(q, m) => DecodeFrom(c, buf, q, m)
    else Decoded(message)
  }

  /** A pass that does not throw hands the loop on to the next one. */
  lemma DecodeFromNext(c: MessageClass, buf: seq<byte>, pos: int, message: Message, q: int, next: Message)
    requires pos < |buf| && DecodeStep(c, buf, pos, message, true) == Next(q, next)
    ensures DecodeFrom(c, buf, pos, message) == DecodeFrom(c, buf, q, next)
  {
  }

  /** The same for the loop as written, which spends one pass of its fuel. */
  lemma DecodeAsWrittenNext(c: MessageClass, buf: seq<byte>, pos: int, message: Message, q: int, next: Message, fuel: nat)
    requires fuel > 0 && pos < |buf| && DecodeStep(c, buf, pos, message, false) == Next(q, next)
    ensures DecodeAsWrittenFrom(c, buf, pos, message, fuel) == DecodeAsWrittenFrom(c, buf, q, next, fuel - 1)
  {
  }

  /** From position p holding `message`, the loop (fixed or as written) makes one pass
      that ends at q holding `next`, or (p, message) and (q, next) are the same state. */
  predicate Moves(c: MessageClass, buf: seq<byte>, p: int, message: Message, q: int, next: Message, fixed: bool) {
    (p == q && message == next) || (p < |buf| && DecodeStep(c, buf, p, message, fixed) == Next(q, next))
  }

  /** A run of states, each reached from the one before by a pass of the fixed loop and
      the last at the end of the buffer, is what the fixed loop goes through: started at
      any of them it decodes the last message. */
  lemma {:induction false} DecodeAlong(c: MessageClass, buf: seq<byte>, ps: seq<int>, ms: seq<Message>, i: nat)
    requires |ps| == |ms| && i < |ps|
    requires forall j :: 0 <= j < |ps| - 1 ==> Moves(c, buf, ps[j], ms[j], ps[j + 1], ms[j + 1], true)
    requires ps[|ps| - 1] == |buf|
    ensures DecodeFrom(c, buf, ps[i], ms[i]) == Decoded(ms[|ms| - 1])
    decreases |ps| - i
  {
    if i < |ps| - 1 {
      DecodeAlong(c, buf, ps, ms, i + 1);
      if ps[i] != ps[i + 1] || ms[i] != ms[i + 1] {
        DecodeFromNext(c, buf, ps[i], ms[i], ps[i + 1], ms[i + 1]);
      }
    }
  }

  /** The same for the loop as written, given one pass of fuel per state. */
  lemma {:induction false} DecodeAsWrittenAlong(c: MessageClass, buf: seq<byte>, ps: seq<int>, ms: seq<Message>, i: nat, fuel: nat)
    requires |ps| == |ms| && i < |ps| && fuel >= |ps| - i
    requires forall j :: 0 <= j < |ps| - 1 ==> Moves(c, buf, ps[j], ms[j], ps[j + 1], ms[j + 1], false)
    requires ps[|ps| - 1] == |buf|
    ensures DecodeAsWrittenFrom(c, buf, ps[i], ms[i], fuel) == Decoded(ms[|ms| - 1])
    decreases |ps| - i
  {
    if i < |ps| - 1 {
      var p, m, q, n := ps[i], ms[i], ps[i + 1], ms[i + 1];
      assert Moves(c, buf, p, m, q, n, false);
      if p == q && m == n {
        DecodeAsWrittenAlong(c, buf, ps, ms, i + 1, fuel);
      } else {
        DecodeAsWrittenAlong(c, buf, ps, ms, i + 1, fuel - 1);
        DecodeAsWrittenNext(c, buf, p, m, q, n, fuel);
      }
    }
  }

  function Decode(c: MessageClass, buf: seq<byte>): Outcome {
    DecodeFrom(c, buf, 0, DefaultMessage(c))
  }

  /** The decode loop as generated, run for at most `fuel` passes: once no byte is left it
      finishes with the message it holds, and Unfinished says only that the passes ran out. */
  function DecodeAsWrittenFrom(c: MessageClass, buf: seq<byte>, pos: int, message: Message, fuel: nat): (r: Outcome)
    ensures fuel == 0 ==> r == Unfinished
    ensures 0 < fuel && |buf| <= pos ==> r == Decoded(message)
    decreases fuel
  {
    if fuel == 0 then Unfinished
    else if pos < |buf| then
      match DecodeStep(c, buf, pos, message, false)
      case Throw => Threw
      case Next(q, m) => DecodeAsWrittenFrom(c, buf, q, m, fuel - 1)
    else Decoded(message)
  }

  /** The step bound is only a bound: a result the loop as written reaches within some
      number of passes is its result for every larger number. */
  lemma {:induction false} DecodeAsWrittenMoreFuel(c: MessageClass, buf: seq<byte>, pos: int, message: Message, fuel: nat, more: nat)
    requires fuel <= more && DecodeAsWrittenFrom(c, buf, pos, message, fuel) != Unfinished
    ensures DecodeAsWrittenFrom(c, buf, pos, message, more) == DecodeAsWrittenFrom(c, buf, pos, message, fuel)
    decreases fuel
  {
    if pos < |buf| {
      match DecodeStep(c, buf, pos, message, false)
      case Throw =>
      case Next(q, m) => DecodeAsWrittenMoreFuel(c, buf, q, m, fuel - 1, more - 1);
    }
  }

  /** The fixed decode(buffer), run on a ProtobufReader. */
  method DecodeMessage(c: MessageClass, buf: seq<byte>) returns (r: Outcome)
    ensures r == Decode(c, buf)
  {
    var reader := new ProtobufReader(buf);
    var message := DefaultMessage(c);
    while reader.HasMore()
      invariant reader.buffer == buf
      invariant DecodeFrom(c, buf, reader.pos, message) == Decode(c, buf)
      decreases |buf| - reader.pos
    {
      ghost var step := DecodeStep(c, buf, reader.pos, message, true);
      var tag := reader.ReadTag();
      if tag.None? {
        return Threw;
      }
      var found := FindCase(c.decodeCases, tag.value.fieldNumber);
      if found.Some? && tag.value.wireType == WireTypeValue(found.value.wireTypeConstant) {
        if found.value.reader == "readVarint" {
          var v := reader.ReadVarint();
          if v.None? {
            return Threw;
          }
          message := message[found.value.field := Num(v.value)];
        } else {
          var s := reader.ReadStringChecked();
          if s.None? {
            return Threw;
          }
          message := message[found.value.field := Str(s.value)];
        }
      } else {
        var ok := reader.SkipField(tag.value.wireType);
        if !ok {
          return Threw;
        }
      }
      assert step == Next(reader.pos, message);
    }
    return Decoded(message);
  }
}
