/** JsonBinaryWriter: methods that append the encoding of a tree to an output
    stream, each proved to append exactly what Codec.Encode prescribes. */
module Writer {
  import opened Wire
  import opened BinaryText
  import opened Codec
  import Varint
  import CodecProperties

  /** The OutputStream the writer appends to: every byte written so far. */
  class OutputStream {
    var bytes: seq<byte>

    constructor()
      ensures bytes == []
    {
      bytes := [];
    }

    /** OutputStream.write(int): one byte. */
    method Write(x: byte)
      modifies this
      ensures bytes == old(bytes) + [x]
    {
      bytes := bytes + [x];
    }

    /** OutputStream.write(byte[]): the bytes in order. */
    method WriteAll(bs: seq<byte>)
      modifies this
      ensures bytes == old(bytes) + bs
    {
      bytes := bytes + bs;
    }
  }

  /** serialize: the tag of the value, then its payload; the elements of an
      array and the entries of an object follow their count recursively. */
  method Serialize(out: OutputStream, v: Value)
    modifies out
    ensures out.bytes == old(out.bytes) + Encode(v)
    decreases v, 1
  {
    match v
    case Obj(entries) =>
      out.Write(TagObject);
      WriteLen(out, |entries|);
      SerializeEntries(out, entries);
    case Bool(b) =>
      WriteBoolean(out, b);
    case Flt(bits) =>
      WriteFloat(out, bits);
    case Dbl(bits) =>
      WriteDouble(out, bits);
    case Int(n) =>
      WriteInt(out, n);
    case Str(s) =>
      WriteString(out, s);
    case Arr(elems) =>
      out.Write(TagArray);
      WriteLen(out, |elems|);
      SerializeElements(out, elems);
  }

  /** The loop over an array's indices: each element in order. */
  method SerializeElements(out: OutputStream, elems: seq<Value>)
    modifies out
    ensures out.bytes == old(out.bytes) + EncodeElements(elems)
    decreases elems, 0
  {
    var i := 0;
    while i < |elems|
      invariant 0 <= i <= |elems|
      invariant out.bytes == old(out.bytes) + EncodeElements(elems[..i])
    {
      Serialize(out, elems[i]);
      CodecProperties.EncodeElementsSnoc(elems[..i], elems[i]);
      assert elems[..i + 1] == elems[..i] + [elems[i]];
      i := i + 1;
    }
    assert elems[..i] == elems;
  }

  /** The number branch of serialize: the text Gson prints for the number
      decides between writeInt, writeFloat and writeDouble. Whether
      Float.parseFloat accepts the text and the three conversions Gson makes
      arrive as parameters. */
  method SerializeNumber(out: OutputStream, text: seq<char>, floatParses: bool,
                         asInt: int32, asFloat: Bytes4, asDouble: Bytes8)
    modifies out
    ensures out.bytes == old(out.bytes) + Encode(NumberValue(text, floatParses, asInt, asFloat, asDouble))
  {
    if '.' in text || ',' in text {
      if floatParses {
        WriteFloat(out, asFloat);
      } else {
        WriteDouble(out, asDouble);
      }
    } else {
      WriteInt(out, asInt);
    }
  }

  /** The loop over an object's entry set: each name, then its value. */
  method SerializeEntries(out: OutputStream, entries: seq<Entry>)
    modifies out
    ensures out.bytes == old(out.bytes) + EncodeEntries(entries)
    decreases entries, 0
  {
    var i := 0;
    while i < |entries|
      invariant 0 <= i <= |entries|
      invariant out.bytes == old(out.bytes) + EncodeEntries(entries[..i])
    {
      var ent := entries[i];
      WriteName(out, ent.name);
      Serialize(out, ent.value);
      CodecProperties.EncodeEntriesSnoc(entries[..i], ent);
      assert entries[..i + 1] == entries[..i] + [ent];
      i := i + 1;
    }
    assert entries[..i] == entries;
  }

  /** writeInt: tag 4, then the int as a 4-byte field. */
  method WriteInt(out: OutputStream, num: int32)
    modifies out
    ensures out.bytes == old(out.bytes) + Encode(Int(num))
  {
    out.Write(TagInt);
    WriteLen(out, num as int);
  }

  /** writeLen: ByteBuffer.putInt in little-endian order. */
  method WriteLen(out: OutputStream, num: int)
    modifies out
    ensures out.bytes == old(out.bytes) + Le32(num)
  {
    out.WriteAll(Le32(num));
  }

  /** writeDouble: tag 5, then the 8 bytes putDouble produced. */
  method WriteDouble(out: OutputStream, bits: Bytes8)
    modifies out
    ensures out.bytes == old(out.bytes) + Encode(Dbl(bits))
  {
    out.Write(TagDouble);
    out.WriteAll(bits);
  }

  /** writeFloat: tag 7, then the 4 bytes putFloat produced. */
  method WriteFloat(out: OutputStream, bits: Bytes4)
    modifies out
    ensures out.bytes == old(out.bytes) + Encode(Flt(bits))
  {
    out.Write(TagFloat);
    out.WriteAll(bits);
  }

  /** writeString: tag 3, then the string as a name. */
  method WriteString(out: OutputStream, s: seq<byte>)
    modifies out
    ensures out.bytes == old(out.bytes) + Encode(Str(s))
  {
    out.Write(TagString);
    WriteName(out, s);
  }

  /** writeBoolean: tag 6, then 1 for true and 0 for false. */
  method WriteBoolean(out: OutputStream, b: bool)
    modifies out
    ensures out.bytes == old(out.bytes) + Encode(Bool(b))
  {
    out.Write(TagBool);
    if b {
      out.Write(1);
    } else {
      out.Write(0);
    }
  }

  /** The inner loop of writeName: seven times, prepend the lowest binary
      digit of len to bin and halve len. The digits spell len's low seven
      bits, and what is left is len with those bits shifted out. */
  method SevenBits(len: nat) returns (bin: seq<char>, rest: nat)
    ensures |bin| == 7 && IsBinary(bin)
    ensures ParseBinary(bin) == len % 0x80 && rest == len / 0x80
  {
    bin := [];
    rest := len;
    for i := 0 to 7
      invariant |bin| == i && IsBinary(bin)
      invariant len == rest * Pow2(i) + ParseBinary(bin)
    {
      var digit: seq<char> := if rest % 2 == 1 then "1" else "0";
      ParseBinaryConcat(digit, bin);
      assert digit[..0] == [];
      HalveStep(rest, Pow2(i), ParseBinary(bin));
      bin := digit + bin;
      rest := rest / 2;
    }
    assert Pow2(7) == 0x80;
    DivideUnique(len, rest, ParseBinary(bin));
  }

  /** Moving the lowest digit of r from the high part to the low part. */
  lemma HalveStep(r: nat, w: nat, low: nat)
    ensures r * w + low == (r / 2) * (2 * w) + ((r % 2) * w + low)
  {
  }

  lemma DivideUnique(n: nat, q: nat, m: nat)
    requires m < 0x80 && n == q * 0x80 + m
    ensures q == n / 0x80 && m == n % 0x80
  {
  }

  /** writeName: the length prefix, one 7-bit group per byte with the
      continuation bit in front, then the bytes of the name. */
  method WriteName(out: OutputStream, s: seq<byte>)
    modifies out
    ensures out.bytes == old(out.bytes) + EncodeName(s)
  {
    var len: nat := |s|;
    while true
      invariant old(out.bytes) + Varint.Encode(|s|) == out.bytes + Varint.Encode(len)
      decreases len
    {
      var bin, rest := SevenBits(len);
      GroupByte(len, bin);
      len := rest;
      if len == 0 {
        bin := "0" + bin;
        out.Write(ParseBinary(bin) as byte);
        break;
      } else {
        bin := "1" + bin;
        out.Write(ParseBinary(bin) as byte);
      }
    }
    out.WriteAll(s);
  }

  /** The byte one pass of writeName emits for the low group of len: with a
      '0' in front when nothing is left above it, which makes it the last
      byte of the prefix, and with a '1' in front otherwise. */
  lemma GroupByte(len: nat, bin: seq<char>)
    requires |bin| == 7 && IsBinary(bin) && ParseBinary(bin) == len % 0x80
    ensures ParseBinary("0" + bin) == len % 0x80
    ensures ParseBinary("1" + bin) == 0x80 + len % 0x80
    ensures len / 0x80 == 0 ==> Varint.Encode(len) == [(len % 0x80) as byte]
    ensures len / 0x80 != 0 ==> Varint.Encode(len) == [(0x80 + len % 0x80) as byte] + Varint.Encode(len / 0x80)
  {
    LeadingDigit("0" + bin);
    LeadingDigit("1" + bin);
    assert ("0" + bin)[1..] == bin && ("1" + bin)[1..] == bin;
    assert Pow2(7) == 0x80;
  }
}
