/**
 * The classes ProtobufWriter and ProtobufReader of the generated JavaScript client,
 * with their own JavaScript expressions. Each bitwise expression is a small method
 * whose contract says what it computes in plain arithmetic; the class methods are
 * proved against the byte-level functions of ProtoWire.
 */
module ProtoRuntime {
  import opened Common
  import opened JsNumbers
  import opened ProtoWire

  // ---------------------------------------------------------------------------
  // The expressions of writeVarint, writeTag, readVarint and readTag

  /** `(value & 0xFF) | 0x80`: the low seven bits of the 32-bit pattern of value, with
      the continuation bit set. */
  method ContinuationByte(value: int) returns (b: int)
    ensures b == 0x80 + ToUint32(value) % 0x80
  {
    b := Or(LowBits(value, 8), 0x80);
    var u := ToUint32(value);
    var x := LowBits(value, 8);
    assert x < 0x100 && x % 0x80 == u % 0x80 by {
      Pow2Small();
      LowSevenOfLowByte(u);
    }
    SetContinuationBit(x);
    assert ToUint32(x) == x && ToUint32(0x80) == 0x80;
  }

  /** `value & 0xFF`: the low byte of the 32-bit pattern of value. */
  method LowByte(value: int) returns (b: int)
    ensures b == ToUint32(value) % 0x100
  {
    b := LowBits(value, 8);
    Pow2Small();
  }

  /** `value >>> 7`: the 32-bit pattern of value without its low seven bits. */
  method DropGroup(value: int) returns (r: int)
    ensures r == ToUint32(value) / 0x80
  {
    r := ShiftRightUnsigned(value, 7);
    var u := ToUint32(value);
    assert Halved(u, 7) == ((((((u / 2) / 2) / 2) / 2) / 2) / 2) / 2;
  }

  /** `(fieldNumber << 3) | wireType` */
  method MakeKey(fieldNumber: int, wireType: int) returns (k: int)
    ensures k == Key(fieldNumber, wireType)
  {
    k := Or(ShiftLeft(fieldNumber, 3), wireType);
    var u := ToUint32(fieldNumber);
    assert Scaled(u, 3) == 8 * u;
    assert ToUint32(ShiftLeft(fieldNumber, 3)) == ToUint32(8 * u);
  }

  /** `result | ((byte & 0x7F) << shift)`: the 32-bit pattern of result with the low
      seven bits of the byte or-ed in at `shift` (taken modulo 32). */
  method AccumulateGroup(result: int, b: byte, shift: nat) returns (r: int)
    ensures r == ToInt32(OrGroup(ToUint32(result), b % 0x80, shift))
  {
    r := Or(result, ShiftLeft(LowBits(b, 7), shift));
    var d := b % 0x80;
    assert LowBits(b, 7) == d by {
      Pow2Small();
    }
    assert ToUint32(shift) % 32 == shift % 32 by {
      ShiftCountModulo(shift);
    }
    var y := ToUint32(Scaled(d, shift % 32));
    assert ToUint32(ShiftLeft(d, shift)) == y;
  }

  /** `tag >>> 3` and `tag & 0x7`: the 32-bit pattern of the tag divided by eight, and
      the remainder. */
  method SplitTag(tag: int) returns (fieldNumber: int, wireType: int)
    ensures fieldNumber == ToUint32(tag) / 8 && wireType == ToUint32(tag) % 8
  {
    fieldNumber := ShiftRightUnsigned(tag, 3);
    wireType := LowBits(tag, 3);
    Pow2Small();
    var u := ToUint32(tag);
    assert Halved(u, 3) == ((u / 2) / 2) / 2 == u / 8;
  }

  /** Or-ing 0x80 into a byte sets its top bit and keeps the seven bits below. */
  lemma SetContinuationBit(x: nat)
    requires x < 0x100
    ensures BitOr(x, 0x80) == x % 0x80 + 0x80
  {
    var lo, hi := x % 0x80, x / 0x80;
    assert Scaled(1, 7) == 0x80 && Pow2(7) == 0x80;
    assert x == lo + Scaled(hi, 7);
    BitOrHigh(lo, hi, 1, 7);
    assert BitOr(hi, 1) == 1 by {
      assert hi == 0 || hi == 1;
    }
  }

  lemma LowSevenOfLowByte(u: nat)
    ensures (u % 0x100) % 0x80 == u % 0x80
  {
    var x := u % 0x100;
    assert u == 0x80 * (2 * (u / 0x100) + x / 0x80) + x % 0x80;
  }

  /** Taking a shift count modulo 32 after ToUint32 is taking it modulo 32. */
  lemma ShiftCountModulo(x: nat)
    ensures ToUint32(x) % 32 == x % 32
  {
    var r := x % TwoTo32;
    assert x == 32 * (0x800_0000 * (x / TwoTo32) + r / 32) + r % 32;
  }

  // ---------------------------------------------------------------------------
  // The classes

  /** ProtobufWriter: appends to a growing byte buffer. */
  class ProtobufWriter {
    var buffer: seq<byte>

    constructor ()
      ensures buffer == []
    {
      buffer := [];
    }

    method WriteVarint(value: int)
      modifies this
      ensures buffer == old(buffer) + VarintBytes(value)
    {
      var v := value;
      while v >= 0x80
        invariant buffer + VarintBytes(v) == old(buffer) + VarintBytes(value)
        decreases if v >= 0x80 then v else 0
      {
        var b := ContinuationByte(v);
        buffer := buffer + [b];
        v := DropGroup(v);
      }
      var last := LowByte(v);
      buffer := buffer + [last];
    }

    method WriteTag(fieldNumber: int, wireType: int)
      modifies this
      ensures buffer == old(buffer) + VarintBytes(Key(fieldNumber, wireType))
    {
      var key := MakeKey(fieldNumber, wireType);
      WriteVarint(key);
    }

    method WriteString(fieldNumber: int, value: JsValue)
      modifies this
      ensures buffer == old(buffer) + StringFieldBytes(fieldNumber, value)
    {
      if value.Str? && |value.bytes| > 0 {
        ghost var start := buffer;
        ghost var key := VarintBytes(Key(fieldNumber, WIRE_TYPE_LENGTH_DELIMITED));
        ghost var length := VarintBytes(|value.bytes|);
        WriteTag(fieldNumber, WIRE_TYPE_LENGTH_DELIMITED);
        WriteVarint(|value.bytes|);
        assert buffer == start + key + length;
        buffer := buffer + value.bytes;
        assert buffer == start + (key + length + value.bytes);
      }
    }

    function GetBytes(): seq<byte>
      reads this
    {
      buffer
    }
  }

  /** ProtobufReader: a cursor over a fixed buffer. A failed read (the `Invalid varint`
      exception) is None. */
  class ProtobufReader {
    const buffer: seq<byte>
    var pos: int

    constructor (buffer: seq<byte>)
      ensures this.buffer == buffer && pos == 0
    {
      this.buffer := buffer;
      pos := 0;
    }

    method ReadVarint() returns (r: Option<int>)
      modifies this
      ensures ReadVarintAt(buffer, old(pos)).None? ==> r.None?
      ensures ReadVarintAt(buffer, old(pos)).Some? ==>
        r == Some(ReadVarintAt(buffer, old(pos)).value.0) && pos == ReadVarintAt(buffer, old(pos)).value.1
    {
      var result := 0;
      var shift: nat := 0;
      while pos < |buffer|
        invariant ReadVarintFrom(buffer, pos, ToUint32(result), shift) == ReadVarintAt(buffer, old(pos))
        decreases |buffer| - pos
      {
        var b := ByteAt(buffer, pos);
        pos := pos + 1;
        result := AccumulateGroup(result, b, shift);
        if b < 0x80 {  // (byte & 0x80) === 0
          return Some(result);
        }
        shift := shift + 7;
      }
      return None;
    }

    method ReadTag() returns (r: Option<Tag>)
      modifies this
      ensures ReadTagAt(buffer, old(pos)).None? ==> r.None?
      ensures ReadTagAt(buffer, old(pos)).Some? ==>
        r == Some(ReadTagAt(buffer, old(pos)).value.0) && pos == ReadTagAt(buffer, old(pos)).value.1
    {
      var t := ReadVarint();
      if t.None? {
        return None;
      }
      var fieldNumber, wireType := SplitTag(t.value);
      r := Some(Tag(fieldNumber, wireType));
    }

    method ReadString() returns (r: Option<seq<byte>>)
      modifies this
      ensures ReadStringAt(buffer, old(pos)).None? ==> r.None?
      ensures ReadStringAt(buffer, old(pos)).Some? ==>
        r == Some(ReadStringAt(buffer, old(pos)).value.0) && pos == ReadStringAt(buffer, old(pos)).value.1
    {
      var length := ReadVarint();
      if length.None? {
        return None;
      }
      var bytes := Slice(buffer, pos, pos + length.value);
      pos := pos + length.value;
      r := Some(bytes);
    }

    /** readString with the length checks of the fixed decoder. */
    method ReadStringChecked() returns (r: Option<seq<byte>>)
      modifies this
      ensures ReadStringCheckedAt(buffer, old(pos)).None? ==> r.None?
      ensures ReadStringCheckedAt(buffer, old(pos)).Some? ==>
        r == Some(ReadStringCheckedAt(buffer, old(pos)).value.0) && pos == ReadStringCheckedAt(buffer, old(pos)).value.1
    {
      var length := ReadVarint();
      if length.None? || length.value < 0 || pos + length.value > |buffer| {
        return None;
      }
      var bytes := Slice(buffer, pos, pos + length.value);
      pos := pos + length.value;
      r := Some(bytes);
    }

    /** Skips the payload of a field of the given wire type; false when that throws. */
    method SkipField(wireType: int) returns (ok: bool)
      modifies this
      ensures ok == SkipFieldAt(buffer, old(pos), wireType).Some?
      ensures ok ==> pos == SkipFieldAt(buffer, old(pos), wireType).value
    {
      if wireType == WIRE_TYPE_VARINT {
        var v := ReadVarint();
        ok := v.Some?;
      } else if wireType == WIRE_TYPE_FIXED64 {
        ok := pos + 8 <= |buffer|;
        if ok {
          pos := pos + 8;
        }
      } else if wireType == WIRE_TYPE_LENGTH_DELIMITED {
        var s := ReadStringChecked();
        ok := s.Some?;
      } else if wireType == WIRE_TYPE_FIXED32 {
        ok := pos + 4 <= |buffer|;
        if ok {
          pos := pos + 4;
        }
      } else {
        ok := false;
      }
    }

    function HasMore(): bool
      reads this
    {
      pos < |buffer|
    }
  }
}
