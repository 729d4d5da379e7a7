/**
 * The protobuf runtime that the generated JavaScript client embeds (classes
 * ProtobufWriter and ProtobufReader in the emitted text): base-128 varints, field
 * keys `(field_number << 3) | wire_type`, and length-delimited strings, as in the
 * "Base 128 Varints" and "Message Structure" sections of the Protocol Buffers
 * encoding guide.
 *
 * This module says what the runtime computes, byte by byte, as functions of the
 * buffer; the arithmetic follows JavaScript's 32-bit semantics (module JsNumbers).
 * Module ProtoRuntime holds the classes themselves and proves that their
 * JavaScript expressions compute these functions.
 */
module ProtoWire {
  import opened Common
  import opened JsNumbers

  // The wire-type constants declared at the top of the generated file.
  const WIRE_TYPE_VARINT: int := 0
  const WIRE_TYPE_FIXED64: int := 1
  const WIRE_TYPE_LENGTH_DELIMITED: int := 2
  const WIRE_TYPE_START_GROUP: int := 3
  const WIRE_TYPE_END_GROUP: int := 4
  const WIRE_TYPE_FIXED32: int := 5

  /** A JavaScript value as the generated message classes hold it in a field. A string
      is held as its UTF-8 bytes, which is what `TextEncoder` hands to the writer. */
  datatype JsValue = Str(bytes: seq<byte>) | Num(n: int) | Bool(b: bool) | Null

  /** The bytes writeVarint(value) appends, for any integer-valued number: while the
      number is at least 0x80, its low seven bits with the continuation bit, then the
      unsigned 32-bit pattern shifted right by seven; finally the low byte of what is
      left. A negative number skips the loop and pushes its low byte alone. */
  function VarintBytes(value: int): (bs: seq<byte>)
    ensures |bs| >= 1
    decreases if value >= 0x80 then value else 0
  {
    if value >= 0x80 then [0x80 + ToUint32(value) % 0x80] + VarintBytes(ToUint32(value) / 0x80)
    else [ToUint32(value) % 0x100]
  }

  /** The key writeTag writes, `(fieldNumber << 3) | wireType`: the 32-bit pattern of
      the field number times eight, or-ed with the pattern of the wire type, read as a
      signed 32-bit integer. */
  function Key(fieldNumber: int, wireType: int): int {
    ToInt32(BitOr(ToUint32(8 * ToUint32(fieldNumber)), ToUint32(wireType)))
  }

  /** The bytes writeString(fieldNumber, value) appends: nothing unless value is a
      non-empty string; otherwise the key, the length and the bytes. */
  function StringFieldBytes(fieldNumber: int, value: JsValue): (bs: seq<byte>)
    ensures !(value.Str? && |value.bytes| > 0) ==> bs == []
  {
    if value.Str? && |value.bytes| > 0 then
      VarintBytes(Key(fieldNumber, WIRE_TYPE_LENGTH_DELIMITED)) + VarintBytes(|value.bytes|) + value.bytes
    else []
  }

  /** `this.buffer[this.pos]`: outside the array this is `undefined`, which the bitwise
      operators of readVarint read as 0. */
  function ByteAt(buf: seq<byte>, p: int): byte {
    if 0 <= p < |buf| then buf[p] else 0
  }

  /** The 32-bit pattern of `result | (digit << shift)`, where acc is the pattern of
      result: the shift count is taken modulo 32 and the bits from bit 32 up are dropped. */
  function OrGroup(acc: nat, digit: nat, shift: nat): (r: nat)
    ensures r < TwoTo32
  {
    ToUint32(BitOr(acc, ToUint32(Scaled(digit, shift % 32))))
  }

  /** The loop of readVarint from a state whose `result` has the 32-bit pattern acc:
      None when it runs off the end of the buffer (the `Invalid varint` exception),
      otherwise the value, read as a signed 32-bit integer, and the new position. */
  function ReadVarintFrom(buf: seq<byte>, pos: int, acc: nat, shift: nat): Option<(int, int)>
    decreases |buf| - pos
  {
    if pos < |buf| then
      var b := ByteAt(buf, pos);
      var acc' := OrGroup(acc, b % 0x80, shift);
      if b < 0x80 then Some((ToInt32(acc'), pos + 1))  // (byte & 0x80) === 0
      else ReadVarintFrom(buf, pos + 1, acc', shift + 7)
    else None
  }

  function ReadVarintAt(buf: seq<byte>, pos: int): Option<(int, int)> {
    ReadVarintFrom(buf, pos, 0, 0)
  }

  datatype Tag = Tag(fieldNumber: int, wireType: int)

  /** readTag: a varint split into `tag >>> 3` and `tag & 0x7`, that is, the 32-bit
      pattern of the tag divided by eight and its remainder. */
  function ReadTagAt(buf: seq<byte>, pos: int): Option<(Tag, int)> {
    match ReadVarintAt(buf, pos)
    case None => None
    case Some((t, p)) => Some((Tag(ToUint32(t) / 8, ToUint32(t) % 8), p))
  }

  /** The index that Uint8Array.prototype.slice makes of an argument. */
  function RelativeIndex(i: int, len: nat): (r: nat)
    ensures r <= len
  {
    if i < 0 then (if len + i < 0 then 0 else len + i) else if i < len then i else len
  }

  /** `buf.slice(start, end)` */
  function Slice(buf: seq<byte>, start: int, end: int): seq<byte> {
    var s := RelativeIndex(start, |buf|);
    var e := RelativeIndex(end, |buf|);
    if s <= e then buf[s..e] else []
  }

  /** readString: a varint length, then `slice(pos, pos + length)` and `pos += length`,
      whatever the sign of the length. */
  function ReadStringAt(buf: seq<byte>, pos: int): Option<(seq<byte>, int)> {
    match ReadVarintAt(buf, pos)
    case None => None
    case Some((length, p)) => Some((Slice(buf, p, p + length), p + length))
  }

  /** readString with the checks the decoder needs: a negative length (a varint of 2^31
      or more) throws instead of moving the position backwards, and a length that runs
      past the end of the buffer throws instead of yielding a shortened string. */
  function ReadStringCheckedAt(buf: seq<byte>, pos: int): Option<(seq<byte>, int)> {
    match ReadVarintAt(buf, pos)
    case None => None
    case Some((length, p)) =>
      if length < 0 || p + length > |buf| then None else Some((Slice(buf, p, p + length), p + length))
  }

  /** Skipping the payload of a field that the decoder does not take: a varint, eight
      bytes, a length-delimited run or four bytes, according to the wire type; a payload
      that runs past the end, or a group, throws. */
  function SkipFieldAt(buf: seq<byte>, pos: int, wireType: int): Option<int> {
    if wireType == WIRE_TYPE_VARINT then
      match ReadVarintAt(buf, pos)
      case None => None
      case Some((_, p)) => Some(p)
    else if wireType == WIRE_TYPE_FIXED64 then
      if pos + 8 <= |buf| then Some(pos + 8) else None
    else if wireType == WIRE_TYPE_LENGTH_DELIMITED then
      match ReadStringCheckedAt(buf, pos)
      case None => None
      case Some((_, p)) => Some(p)
    else if wireType == WIRE_TYPE_FIXED32 then
      if pos + 4 <= |buf| then Some(pos + 4) else None
    else None
  }

  // ---------------------------------------------------------------------------
  // Properties of the encoding

  /** A varint that is read consumes at least one byte and stays within the buffer. */
  lemma {:induction false} ReadVarintAdvances(buf: seq<byte>, pos: int, acc: nat, shift: nat)
    requires ReadVarintFrom(buf, pos, acc, shift).Some?
    ensures pos < ReadVarintFrom(buf, pos, acc, shift).value.1 <= |buf|
    decreases |buf| - pos
  {
    var b := ByteAt(buf, pos);
    if b >= 0x80 {
      ReadVarintAdvances(buf, pos + 1, OrGroup(acc, b % 0x80, shift), shift + 7);
    }
  }

  /** Every read the fixed decoder makes moves the position forward and leaves it
      within the buffer. */
  lemma ReadsAdvance(buf: seq<byte>, pos: int, wireType: int)
    ensures ReadVarintAt(buf, pos).Some? ==> pos < ReadVarintAt(buf, pos).value.1 <= |buf|
    ensures ReadTagAt(buf, pos).Some? ==> pos < ReadTagAt(buf, pos).value.1 <= |buf|
    ensures ReadStringCheckedAt(buf, pos).Some? ==> pos < ReadStringCheckedAt(buf, pos).value.1 <= |buf|
    ensures SkipFieldAt(buf, pos, wireType).Some? ==> pos < SkipFieldAt(buf, pos, wireType).value <= |buf|
  {
    if ReadVarintAt(buf, pos).Some? {
      ReadVarintAdvances(buf, pos, 0, 0);
    }
  }

  /** bs occurs in buf from position pos on. */
  predicate BytesAt(buf: seq<byte>, pos: int, bs: seq<byte>)
    decreases |bs|
  {
    |bs| == 0 || (0 <= pos < |buf| && buf[pos] == bs[0] && BytesAt(buf, pos + 1, bs[1..]))
  }

  lemma {:induction false} BytesAtSlice(buf: seq<byte>, pos: int, bs: seq<byte>)
    requires 0 <= pos <= |buf|
    ensures BytesAt(buf, pos, bs) <==> pos + |bs| <= |buf| && buf[pos..pos + |bs|] == bs
    decreases |bs|
  {
    if |bs| > 0 && pos < |buf| {
      BytesAtSlice(buf, pos + 1, bs[1..]);
      if pos + |bs| <= |buf| {
        var slice := buf[pos..pos + |bs|];
        assert slice[0] == buf[pos] && slice[1..] == buf[pos + 1..pos + |bs|];
        assert slice == bs <==> slice[0] == bs[0] && slice[1..] == bs[1..] by {
          if slice[0] == bs[0] && slice[1..] == bs[1..] {
            assert slice == [slice[0]] + slice[1..];
            assert bs == [bs[0]] + bs[1..];
          }
        }
      }
    }
  }

  /** Bytes that occur in the buffer end within it. */
  lemma {:induction false} BytesAtWithin(buf: seq<byte>, pos: int, bs: seq<byte>)
    requires BytesAt(buf, pos, bs) && |bs| > 0
    ensures 0 <= pos && pos + |bs| <= |buf|
    decreases |bs|
  {
    if |bs| > 1 {
      BytesAtWithin(buf, pos + 1, bs[1..]);
    }
  }

  /** Two pieces occur one after the other exactly when their concatenation occurs. */
  lemma {:induction false} BytesAtConcat(buf: seq<byte>, pos: int, a: seq<byte>, b: seq<byte>)
    ensures BytesAt(buf, pos, a + b) <==> BytesAt(buf, pos, a) && BytesAt(buf, pos + |a|, b)
    decreases |a|
  {
    if |a| > 0 {
      assert (a + b)[1..] == a[1..] + b;
      BytesAtConcat(buf, pos + 1, a[1..], b);
    } else {
      assert a + b == b;
    }
  }

  /** Three pieces in a row: the first, then the other two. */
  lemma BytesAtThree(buf: seq<byte>, pos: int, a: seq<byte>, b: seq<byte>, c: seq<byte>)
    requires BytesAt(buf, pos, a + b + c)
    ensures BytesAt(buf, pos, a) && BytesAt(buf, pos + |a|, b + c) && |a + b + c| == |a| + |b| + |c|
  {
    assert a + b + c == a + (b + c);
    BytesAtConcat(buf, pos, a, b + c);
  }

  /** Base-128 groups of a non-negative number, low group first, every group but the
      last with the continuation bit: the varint of the Protocol Buffers encoding. */
  function Groups(w: nat): (bs: seq<byte>)
    decreases w
  {
    if w < 0x80 then [w] else [0x80 + w % 0x80] + Groups(w / 0x80)
  }

  /** Below 2^32, writeVarint writes exactly the base-128 groups of the number. */
  lemma {:induction false} VarintBytesAreGroups(w: int)
    requires 0 <= w < TwoTo32
    ensures VarintBytes(w) == Groups(w)
    decreases w
  {
    if w >= 0x80 {
      VarintBytesAreGroups(w / 0x80);
    }
  }

  /** Every group but the last carries the continuation bit; the last one does not. */
  lemma {:induction false} GroupsContinuationBits(w: nat)
    ensures forall i :: 0 <= i < |Groups(w)| - 1 ==> Groups(w)[i] >= 0x80
    ensures Groups(w)[|Groups(w)| - 1] < 0x80
    decreases w
  {
    if w >= 0x80 {
      GroupsContinuationBits(w / 0x80);
    }
  }

  /** A number below 2^35 takes at most five groups, one below 2^28 at most four. */
  lemma {:induction false} GroupsLength(w: nat)
    ensures w < 0x80 ==> |Groups(w)| == 1
    ensures w < 0x4000 ==> |Groups(w)| <= 2
    ensures w < 0x20_0000 ==> |Groups(w)| <= 3
    ensures w < 0x1000_0000 ==> |Groups(w)| <= 4
    ensures w < 0x8_0000_0000 ==> |Groups(w)| <= 5
    decreases w
  {
    if w >= 0x80 {
      GroupsLength(w / 0x80);
    }
  }

  /** 2^(shift + 7) is 0x80 * 2^shift. */
  lemma NextGroupScale(x: nat, shift: nat)
    ensures Scaled(x, shift + 7) == Scaled(0x80 * x, shift)
  {
    ScaledCompose(x, 7, shift);
    assert Scaled(x, 7) == 0x80 * x;
  }

  /** A group that is not the last one starts below bit 25, since the whole number fits in 32 bits. */
  lemma ShiftBelow25(w: nat, shift: nat)
    requires w >= 0x80 && Scaled(w, shift) < TwoTo32
    ensures shift < 25
  {
    ScaledMonotone(0x80, w, shift);
    NextGroupScale(1, shift);
    if shift >= 25 {
      Pow2Monotone(32, shift + 7);
      Pow2Of32();
    }
  }

  /** The arithmetic of one group: the rest of w, shifted seven bits further, completes it. */
  lemma GroupArithmetic(acc: nat, w: nat, shift: nat)
    requires w >= 0x80
    requires acc < Pow2(shift) && acc + Scaled(w, shift) < TwoTo32
    ensures shift + 7 < 32
    ensures acc + Scaled(w % 0x80, shift) < Pow2(shift + 7)
    ensures acc + Scaled(w % 0x80, shift) + Scaled(w / 0x80, shift + 7) == acc + Scaled(w, shift)
  {
    ShiftBelow25(w, shift);
    NextGroupScale(w / 0x80, shift);
    ScaledAdd(w % 0x80, 0x80 * (w / 0x80), shift);
    ScaledMonotone(w % 0x80, 0x7F, shift);
    ScaledAdd(1, 0x7F, shift);
    NextGroupScale(1, shift);
  }

  /** Or-ing a group into the bits below `shift` adds it, as long as the total stays below 2^32. */
  lemma GroupFits(acc: nat, shift: nat, digit: nat, total: nat)
    requires shift < 32 && acc < Pow2(shift)
    requires total == acc + Scaled(digit, shift) && total < TwoTo32
    ensures OrGroup(acc, digit, shift) == total
  {
    ScaledAtLeast(digit, shift);
    assert shift % 32 == shift;
    BitOrDisjoint(acc, digit, shift);
  }

  /** The groups after the first one of a number of two groups or more. */
  lemma GroupsTail(w: nat)
    requires w >= 0x80
    ensures |Groups(w)| == 1 + |Groups(w / 0x80)| && Groups(w)[1..] == Groups(w / 0x80)
  {
    assert Groups(w) == [0x80 + w % 0x80] + Groups(w / 0x80);
  }

  /** The induction behind the varint round trip: decoding the groups of w after the
      first `shift` bits acc are assembled gives acc + w * 2^shift. */
  lemma {:induction false} ReadVarintFromGroups(buf: seq<byte>, pos: int, acc: nat, shift: nat, w: nat, total: nat)
    requires 0 <= pos && shift < 32
    requires acc < Pow2(shift) && total == acc + Scaled(w, shift) && total < TwoTo32
    requires BytesAt(buf, pos, Groups(w))
    ensures ReadVarintFrom(buf, pos, acc, shift) == Some((ToInt32(total), pos + |Groups(w)|))
    decreases w
  {
    if w < 0x80 {
      LastGroup(buf, pos, acc, shift, w, total);
    } else {
      NextGroup(buf, pos, acc, shift, w, total);
      ReadVarintFromGroups(buf, pos + 1, acc + Scaled(w % 0x80, shift), shift + 7, w / 0x80, total);
    }
  }

  /** The first group of w read at pos, when it is the only one. */
  lemma LastGroup(buf: seq<byte>, pos: int, acc: nat, shift: nat, w: nat, total: nat)
    requires 0 <= pos && shift < 32 && w < 0x80
    requires acc < Pow2(shift) && total == acc + Scaled(w, shift) && total < TwoTo32
    requires BytesAt(buf, pos, Groups(w))
    ensures ReadVarintFrom(buf, pos, acc, shift) == Some((ToInt32(total), pos + |Groups(w)|))
  {
    var b := buf[pos];
    assert b < 0x80 && b % 0x80 == w && |Groups(w)| == 1;
    GroupFits(acc, shift, b % 0x80, total);
  }

  /** The first group of w read at pos, when more follow. */
  lemma NextGroup(buf: seq<byte>, pos: int, acc: nat, shift: nat, w: nat, total: nat)
    requires 0 <= pos && shift < 32 && w >= 0x80
    requires acc < Pow2(shift) && total == acc + Scaled(w, shift) && total < TwoTo32
    requires BytesAt(buf, pos, Groups(w))
    ensures var acc' := acc + Scaled(w % 0x80, shift);
      && ReadVarintFrom(buf, pos, acc, shift) == ReadVarintFrom(buf, pos + 1, acc', shift + 7)
      && shift + 7 < 32 && acc' < Pow2(shift + 7) && total == acc' + Scaled(w / 0x80, shift + 7)
      && BytesAt(buf, pos + 1, Groups(w / 0x80)) && |Groups(w)| == 1 + |Groups(w / 0x80)|
  {
    var b := buf[pos];
    var acc' := acc + Scaled(w % 0x80, shift);
    assert b >= 0x80 && b % 0x80 == w % 0x80 && BytesAt(buf, pos + 1, Groups(w / 0x80)) by {
      GroupsTail(w);
    }
    GroupArithmetic(acc, w, shift);
    GroupFits(acc, shift, b % 0x80, acc');
  }

  /** readVarint inverts writeVarint for every number below 2^32, up to the signed
      32-bit reading of the result: numbers below 2^31 come back unchanged, numbers
      from 2^31 on come back negative. */
  lemma VarintRoundTrip(buf: seq<byte>, pos: nat, v: int)
    requires 0 <= v < TwoTo32
    requires BytesAt(buf, pos, VarintBytes(v))
    ensures ReadVarintAt(buf, pos) == Some((ToInt32(v), pos + |VarintBytes(v)|))
  {
    VarintBytesAreGroups(v);
    assert Scaled(v, 0) == v && Pow2(0) == 1;
    ReadVarintFromGroups(buf, pos, 0, 0, v, v);
  }

  /** writeVarint with `value >>>= 0` done before the loop: every number is written as
      its unsigned 32-bit pattern. */
  function CorrectedVarintBytes(value: int): seq<byte> {
    VarintBytes(ToUint32(value))
  }

  /** readVarint inverts the fixed writeVarint for every signed 32-bit number, negative
      numbers included. */
  lemma CorrectedVarintRoundTrip(buf: seq<byte>, pos: nat, v: int)
    requires -TwoTo31 <= v < TwoTo31
    requires BytesAt(buf, pos, CorrectedVarintBytes(v))
    ensures ReadVarintAt(buf, pos) == Some((v, pos + |CorrectedVarintBytes(v)|))
  {
    VarintRoundTrip(buf, pos, ToUint32(v));
    assert ToInt32(ToUint32(v)) == v by {
      if v < 0 {
        assert ToUint32(v) == v + TwoTo32;
      }
    }
  }

  /** readVarint throws when the buffer ends before a byte without the continuation bit. */
  lemma {:induction false} ReadVarintUnterminated(buf: seq<byte>, pos: nat, acc: nat, shift: nat)
    requires forall i :: pos <= i < |buf| ==> buf[i] >= 0x80
    ensures ReadVarintFrom(buf, pos, acc, shift) == None
    decreases |buf| - pos
  {
    if pos < |buf| {
      ReadVarintUnterminated(buf, pos + 1, OrGroup(acc, buf[pos] % 0x80, shift), shift + 7);
    }
  }

  /** The key of a field number below 2^28 is 8 * fieldNumber + wireType. */
  lemma KeySmall(fieldNumber: int, wireType: int)
    requires 0 <= fieldNumber < 0x1000_0000 && 0 <= wireType < 8
    ensures Key(fieldNumber, wireType) == 8 * fieldNumber + wireType
  {
    Pow2Small();
    assert Scaled(fieldNumber, 3) == 8 * fieldNumber;
    BitOrCommutes(8 * fieldNumber, wireType);
    BitOrDisjoint(wireType, fieldNumber, 3);
  }

  lemma SplitKey(fieldNumber: nat, wireType: nat)
    requires fieldNumber < 0x1000_0000 && wireType < 8
    ensures ToUint32(8 * fieldNumber + wireType) / 8 == fieldNumber
    ensures ToUint32(8 * fieldNumber + wireType) % 8 == wireType
  {
  }

  /** readTag inverts writeTag for field numbers below 2^28 and wire types below 8. */
  lemma TagRoundTrip(buf: seq<byte>, pos: nat, fieldNumber: int, wireType: int)
    requires 0 <= fieldNumber < 0x1000_0000 && 0 <= wireType < 8
    requires BytesAt(buf, pos, VarintBytes(Key(fieldNumber, wireType)))
    ensures ReadTagAt(buf, pos) == Some((Tag(fieldNumber, wireType), pos + |VarintBytes(Key(fieldNumber, wireType))|))
  {
    var t := 8 * fieldNumber + wireType;
    assert Key(fieldNumber, wireType) == t by {
      KeySmall(fieldNumber, wireType);
    }
    assert ReadVarintAt(buf, pos) == Some((t, pos + |VarintBytes(t)|)) by {
      VarintRoundTrip(buf, pos, t);
    }
    assert ToUint32(t) / 8 == fieldNumber && ToUint32(t) % 8 == wireType by {
      SplitKey(fieldNumber, wireType);
    }
  }

  /** After a length that fits the buffer, readString returns that many bytes. */
  lemma ReadStringInRange(buf: seq<byte>, pos: int, len: int, p: int)
    requires ReadVarintAt(buf, pos) == Some((len, p))
    requires 0 <= p && 0 <= len && p + len <= |buf|
    ensures ReadStringAt(buf, pos) == Some((buf[p..p + len], p + len))
  {
  }

  /** readString inverts a non-empty writeString, reading after the key. */
  lemma StringRoundTrip(buf: seq<byte>, pos: nat, s: seq<byte>)
    requires |s| < TwoTo31
    requires BytesAt(buf, pos, VarintBytes(|s|) + s)
    ensures ReadStringAt(buf, pos) == Some((s, pos + |VarintBytes(|s|)| + |s|))
    ensures ReadStringCheckedAt(buf, pos) == ReadStringAt(buf, pos)
  {
    var len := |s|;
    var n := |VarintBytes(len)|;
    assert ReadVarintAt(buf, pos) == Some((len, pos + n)) && pos + n + len <= |buf| && buf[pos + n..pos + n + len] == s by {
      BytesAtConcat(buf, pos, VarintBytes(len), s);
      VarintRoundTrip(buf, pos, len);
      BytesAtSlice(buf, pos + n, s);
    }
    ReadStringInRange(buf, pos, len, pos + n);
  }

  /** A string written after some key reads back after that key. */
  lemma StringAfterKey(buf: seq<byte>, pos: nat, key: seq<byte>, s: seq<byte>)
    requires |s| < TwoTo31
    requires BytesAt(buf, pos, key + VarintBytes(|s|) + s)
    ensures BytesAt(buf, pos, key)
    ensures ReadStringAt(buf, pos + |key|) == Some((s, pos + |key| + |VarintBytes(|s|)| + |s|))
    ensures ReadStringCheckedAt(buf, pos + |key|) == ReadStringAt(buf, pos + |key|)
  {
    BytesAtThree(buf, pos, key, VarintBytes(|s|), s);
    StringRoundTrip(buf, pos + |key|, s);
  }

  /** A string field written by writeString reads back as its tag and then its bytes. */
  lemma StringFieldRoundTrip(buf: seq<byte>, pos: nat, fieldNumber: int, s: seq<byte>)
    requires 0 <= fieldNumber < 0x1000_0000 && 0 < |s| < TwoTo31
    requires BytesAt(buf, pos, StringFieldBytes(fieldNumber, Str(s)))
    ensures ReadTagAt(buf, pos) == Some((Tag(fieldNumber, WIRE_TYPE_LENGTH_DELIMITED), pos + |VarintBytes(Key(fieldNumber, WIRE_TYPE_LENGTH_DELIMITED))|))
    ensures ReadStringAt(buf, pos + |VarintBytes(Key(fieldNumber, WIRE_TYPE_LENGTH_DELIMITED))|) == Some((s, pos + |StringFieldBytes(fieldNumber, Str(s))|))
    ensures ReadStringCheckedAt(buf, pos + |VarintBytes(Key(fieldNumber, WIRE_TYPE_LENGTH_DELIMITED))|) == ReadStringAt(buf, pos + |VarintBytes(Key(fieldNumber, WIRE_TYPE_LENGTH_DELIMITED))|)
  {
    var key := VarintBytes(Key(fieldNumber, WIRE_TYPE_LENGTH_DELIMITED));
    assert StringFieldBytes(fieldNumber, Str(s)) == key + VarintBytes(|s|) + s;
    assert |StringFieldBytes(fieldNumber, Str(s))| == |key| + |VarintBytes(|s|)| + |s|;
    StringAfterKey(buf, pos, key, s);
    TagRoundTrip(buf, pos, fieldNumber, WIRE_TYPE_LENGTH_DELIMITED);
  }

  /** A key followed by a varint value reads back as the tag and then the value. */
  lemma VarintFieldRoundTrip(buf: seq<byte>, pos: nat, fieldNumber: int, v: int)
    requires 0 <= fieldNumber < 0x1000_0000 && 0 <= v < TwoTo31
    requires BytesAt(buf, pos, VarintBytes(Key(fieldNumber, WIRE_TYPE_VARINT)) + VarintBytes(v))
    ensures var p := pos + |VarintBytes(Key(fieldNumber, WIRE_TYPE_VARINT))|;
      && ReadTagAt(buf, pos) == Some((Tag(fieldNumber, WIRE_TYPE_VARINT), p))
      && ReadVarintAt(buf, p) == Some((v, pos + |VarintBytes(Key(fieldNumber, WIRE_TYPE_VARINT)) + VarintBytes(v)|))
  {
    var key := VarintBytes(Key(fieldNumber, WIRE_TYPE_VARINT));
    BytesAtConcat(buf, pos, key, VarintBytes(v));
    TagRoundTrip(buf, pos, fieldNumber, WIRE_TYPE_VARINT);
    VarintRoundTrip(buf, pos + |key|, v);
  }
}
