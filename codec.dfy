/** The wire format as two pure functions: Encode gives the bytes
    JsonBinaryWriter.serialize sends for a tree, Decode gives what
    JsonBinaryReader.deserialize makes of the bytes from a position on, and the
    position right after the value. */
module Codec {
  import opened Wire
  import Varint

  /** A name as writeName sends it: the varint of its byte length, then the
      bytes, with no tag. */
  function EncodeName(s: seq<byte>): seq<byte> {
    Varint.Encode(|s|) + s
  }

  function Encode(v: Value): (r: seq<byte>)
    ensures |r| >= 1 && r[0] == TagOf(v)
    decreases v
  {
    match v
    case Arr(elems) => [TagArray] + Le32(|elems|) + EncodeElements(elems)
    case Obj(entries) => [TagObject] + Le32(|entries|) + EncodeEntries(entries)
    case Str(s) => [TagString] + EncodeName(s)
    case Int(n) => [TagInt] + Le32(n as int)
    case Dbl(bits) => [TagDouble] + bits
    case Bool(b) => [TagBool, if b then 1 else 0]
    case Flt(bits) => [TagFloat] + bits
  }

  /** The elements of an array, each encoded in index order. */
  function EncodeElements(vs: seq<Value>): seq<byte>
    decreases vs
  {
    if vs == [] then [] else Encode(vs[0]) + EncodeElements(vs[1..])
  }

  function EncodeEntry(e: Entry): seq<byte>
    decreases e
  {
    EncodeName(e.name) + Encode(e.value)
  }

  /** The entries of an object in iteration order, each its name then its value. */
  function EncodeEntries(es: seq<Entry>): seq<byte>
    decreases es
  {
    if es == [] then [] else EncodeEntry(es[0]) + EncodeEntries(es[1..])
  }

  /** The variant serialize picks for a Gson number from its text: a text with
      neither '.' nor ',' goes to writeInt; otherwise writeFloat when
      Float.parseFloat accepts the text and writeDouble when it throws. The
      parser's verdict and Gson's conversions arrive as parameters. */
  function NumberValue(text: seq<char>, floatParses: bool, asInt: int32, asFloat: Bytes4, asDouble: Bytes8): (r: Value)
    ensures r.Int? <==> '.' !in text && ',' !in text
    ensures r.Flt? <==> ('.' in text || ',' in text) && floatParses
    ensures r.Dbl? <==> ('.' in text || ',' in text) && !floatParses
  {
    if '.' in text || ',' in text then
      if floatParses then Flt(asFloat) else Dbl(asDouble)
    else
      Int(asInt)
  }

  // ---- Reading primitives: each returns the value read and the next position.

  /** readByte: one byte, or an error at the end of the stream. */
  function ReadByteAt(b: seq<byte>, pos: nat): (r: Result<(byte, nat)>)
    requires pos <= |b|
    ensures r.Ok? <==> pos < |b|
    ensures r.Err? ==> r.error == EndOfStream
    ensures r.Ok? ==> r.value.1 == pos + 1
  {
    if pos < |b| then Ok((b[pos], pos + 1)) else Err(EndOfStream)
  }

  /** read(in, n): exactly n bytes, or an error when fewer remain. */
  function ReadBytesAt(b: seq<byte>, pos: nat, n: nat): (r: Result<(seq<byte>, nat)>)
    requires pos <= |b|
    ensures r.Ok? ==> |r.value.0| == n && r.value.1 == pos + n <= |b|
  {
    if pos + n <= |b| then Ok((b[pos..pos + n], pos + n)) else Err(EndOfStream)
  }

  /** readInt: four bytes read as a little-endian signed int. */
  function ReadIntAt(b: seq<byte>, pos: nat): (r: Result<(int32, nat)>)
    requires pos <= |b|
    ensures r.Ok? ==> r.value.1 == pos + 4 <= |b|
  {
    match ReadBytesAt(b, pos, 4)
    case Err(e) => Err(e)
    case Ok((bs, end)) => Ok((FromLe32(bs), end))
  }

  /** readBoolean: one byte, false exactly when it is zero. */
  function ReadBoolAt(b: seq<byte>, pos: nat): (r: Result<(bool, nat)>)
    requires pos <= |b|
    ensures r.Ok? ==> r.value.1 == pos + 1 <= |b|
  {
    match ReadByteAt(b, pos)
    case Err(e) => Err(e)
    case Ok((x, end)) => Ok((x != 0, end))
  }

  /** readString: a varint length within Integer.MAX_VALUE, then that many bytes. */
  function ReadNameAt(b: seq<byte>, pos: nat): (r: Result<(seq<byte>, nat)>)
    requires pos <= |b|
    ensures r.Ok? ==> |r.value.0| <= MaxInt && pos < r.value.1 <= |b|
  {
    match Varint.ReadLength(b, pos)
    case Err(e) => Err(e)
    case Ok((n, p)) => ReadBytesAt(b, p, n)
  }

  /** deserialize: one tag byte, then the payload the tag announces. */
  function Decode(b: seq<byte>, pos: nat): (r: Result<(Value, nat)>)
    requires pos <= |b|
    ensures r.Ok? ==> pos < r.value.1 <= |b|
    ensures r.Ok? ==> TagOf(r.value.0) == b[pos]
    decreases |b| - pos, 0
  {
    if pos == |b| then Err(EndOfStream)
    else
      var tag := b[pos];
      if tag == TagArray then
        match ReadIntAt(b, pos + 1)
        case Err(e) => Err(e)
        case Ok((n, p)) =>
          match DecodeElements(b, p, n)
          case Err(e) => Err(e)
          case Ok((elems, end)) => Ok((Arr(elems), end))
      else if tag == TagObject then
        match ReadIntAt(b, pos + 1)
        case Err(e) => Err(e)
        case Ok((n, p)) =>
          match DecodeEntries(b, p, n)
          case Err(e) => Err(e)
          case Ok((entries, end)) => Ok((Obj(entries), end))
      else DecodeScalar(tag, b, pos + 1)
  }

  /** The payload of a tag other than array and object. */
  function DecodeScalar(tag: byte, b: seq<byte>, pos: nat): (r: Result<(Value, nat)>)
    requires pos <= |b|
    ensures r.Ok? ==> pos < r.value.1 <= |b| && TagOf(r.value.0) == tag
  {
    if tag == TagString then
      match ReadNameAt(b, pos)
      case Err(e) => Err(e)
      case Ok((s, end)) => Ok((Str(s), end))
    else if tag == TagInt then
      match ReadIntAt(b, pos)
      case Err(e) => Err(e)
      case Ok((n, end)) => Ok((Int(n), end))
    else if tag == TagDouble then
      match ReadBytesAt(b, pos, 8)
      case Err(e) => Err(e)
      case Ok((bits, end)) => Ok((Dbl(bits), end))
    else if tag == TagBool then
      match ReadBoolAt(b, pos)
      case Err(e) => Err(e)
      case Ok((x, end)) => Ok((Bool(x), end))
    else if tag == TagFloat then
      match ReadBytesAt(b, pos, 4)
      case Err(e) => Err(e)
      case Ok((bits, end)) => Ok((Flt(bits), end))
    else
      Err(UnknownTag(SignedByte(tag)))
  }

  /** The loop of the array case: n values one after another; a count of zero
      or less reads nothing. */
  function DecodeElements(b: seq<byte>, pos: nat, n: int32): (r: Result<(seq<Value>, nat)>)
    requires pos <= |b|
    ensures r.Ok? ==> pos <= r.value.1 <= |b|
    ensures r.Ok? ==> |r.value.0| == (if n > 0 then n as int else 0)
    decreases |b| - pos, 1
  {
    if n <= 0 then Ok(([], pos))
    else
      match Decode(b, pos)
      case Err(e) => Err(e)
      case Ok((v, p)) =>
        match DecodeElements(b, p, n - 1)
        case Err(e) => Err(e)
        case Ok((vs, end)) => Ok(([v] + vs, end))
  }

  /** One entry of an object: an untagged name followed by a tagged value. */
  function DecodeEntry(b: seq<byte>, pos: nat): (r: Result<(Entry, nat)>)
    requires pos <= |b|
    ensures r.Ok? ==> pos < r.value.1 <= |b|
    decreases |b| - pos, 0
  {
    match ReadNameAt(b, pos)
    case Err(e) => Err(e)
    case Ok((name, p)) =>
      match Decode(b, p)
      case Err(e) => Err(e)
      case Ok((v, end)) => Ok((Entry(name, v), end))
  }

  /** The loop of the object case: n entries kept in arrival order; a count of
      zero or less reads nothing. */
  function DecodeEntries(b: seq<byte>, pos: nat, n: int32): (r: Result<(seq<Entry>, nat)>)
    requires pos <= |b|
    ensures r.Ok? ==> pos <= r.value.1 <= |b|
    ensures r.Ok? ==> |r.value.0| == (if n > 0 then n as int else 0)
    decreases |b| - pos, 1
  {
    if n <= 0 then Ok(([], pos))
    else
      match DecodeEntry(b, pos)
      case Err(e) => Err(e)
      case Ok((e, p)) =>
        match DecodeEntries(b, p, n - 1)
        case Err(e) => Err(e)
        case Ok((es, end)) => Ok(([e] + es, end))
  }
}
