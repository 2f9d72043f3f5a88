/** The vocabulary shared by the binary JSON writer and reader: bytes, Java's
    32-bit int, the tag table, the value tree, the error kinds, and the fixed
    4-byte little-endian field used for counts and int values. */
module Wire {

  /** One unsigned byte as it travels on the stream. */
  newtype byte = x: int | 0 <= x < 0x100

  /** Java's `int`. */
  newtype int32 = x: int | -0x8000_0000 <= x < 0x8000_0000

  /** Integer.MAX_VALUE: the largest count, array length or string length Java can hold. */
  const MaxInt: int := 0x7FFF_FFFF

  // The tag table, identical in JsonBinaryWriter and JsonBinaryReader.
  const TagArray: byte := 1
  const TagObject: byte := 2
  const TagString: byte := 3
  const TagInt: byte := 4
  const TagDouble: byte := 5
  const TagBool: byte := 6
  const TagFloat: byte := 7

  type Bytes4 = s: seq<byte> | |s| == 4 witness [0, 0, 0, 0]
  type Bytes8 = s: seq<byte> | |s| == 8 witness [0, 0, 0, 0, 0, 0, 0, 0]

  /** The JSON tree as the codec sees it. Strings and names are their UTF-8
      bytes; float and double payloads are the 4 and 8 little-endian bytes of
      their IEEE-754 representation, left uninterpreted. Objects keep their
      entries in iteration order. There is no null variant. */
  datatype Value =
    | Arr(elems: seq<Value>)
    | Obj(entries: seq<Entry>)
    | Str(text: seq<byte>)
    | Int(n: int32)
    | Dbl(bits8: Bytes8)
    | Bool(b: bool)
    | Flt(bits4: Bytes4)

  datatype Entry = Entry(name: seq<byte>, value: Value)

  /** What a failed read reports: the stream ended (IOException "Error reading
      file"), an unknown tag (carrying the tag as Java's signed byte prints it),
      or a length prefix Integer.parseInt rejects. */
  datatype Error = EndOfStream | UnknownTag(tag: int) | LengthOverflow

  datatype Result<T> = Ok(value: T) | Err(error: Error)

  /** The tag byte that announces a value of this kind. */
  function TagOf(v: Value): byte {
    match v
    case Arr(_) => TagArray
    case Obj(_) => TagObject
    case Str(_) => TagString
    case Int(_) => TagInt
    case Dbl(_) => TagDouble
    case Bool(_) => TagBool
    case Flt(_) => TagFloat
  }

  /** A tree Java can hold: every element count and every byte length fits in an `int`. */
  predicate Representable(v: Value)
    decreases v
  {
    match v
    case Arr(elems) => |elems| <= MaxInt && AllRepresentable(elems)
    case Obj(entries) => |entries| <= MaxInt && AllEntriesRepresentable(entries)
    case Str(text) => |text| <= MaxInt
    case _ => true
  }

  predicate AllRepresentable(vs: seq<Value>)
    decreases vs
  {
    vs == [] || (Representable(vs[0]) && AllRepresentable(vs[1..]))
  }

  predicate EntryRepresentable(e: Entry)
    decreases e
  {
    |e.name| <= MaxInt && Representable(e.value)
  }

  predicate AllEntriesRepresentable(es: seq<Entry>)
    decreases es
  {
    es == [] || (EntryRepresentable(es[0]) && AllEntriesRepresentable(es[1..]))
  }

  /** Java's narrowing `(byte)` of an unsigned byte value. */
  function SignedByte(b: byte): (r: int)
    ensures -0x80 <= r < 0x80
    ensures r % 0x100 == b as int
  {
    if b < 0x80 then b as int else b as int - 0x100
  }

  /** ByteBuffer.putInt in LITTLE_ENDIAN order: the low 32 bits of x (for an
      `int`, its two's-complement bits), least significant byte first. */
  function Le32(x: int): Bytes4 {
    var u := x % 0x1_0000_0000;
    var q1 := u / 0x100;
    var q2 := q1 / 0x100;
    var q3 := q2 / 0x100;
    [(u % 0x100) as byte, (q1 % 0x100) as byte, (q2 % 0x100) as byte, (q3 % 0x100) as byte]
  }

  /** ByteBuffer.getInt in LITTLE_ENDIAN order. */
  function FromLe32(bs: Bytes4): (r: int32)
    ensures r < 0 <==> bs[3] >= 0x80
  {
    var u := bs[0] as int + 0x100 * (bs[1] as int + 0x100 * (bs[2] as int + 0x100 * bs[3] as int));
    (if u < 0x8000_0000 then u else u - 0x1_0000_0000) as int32
  }

  /** Writing an int and reading it back gives the same int. */
  lemma Le32RoundTrip(x: int32)
    ensures FromLe32(Le32(x as int)) == x
  {
    var u := x as int % 0x1_0000_0000;
    var q1 := u / 0x100;
    var q2 := q1 / 0x100;
    var q3 := q2 / 0x100;
    var bs := Le32(x as int);
    assert bs[0] as int == u % 0x100 && bs[1] as int == q1 % 0x100;
    assert bs[2] as int == q2 % 0x100 && bs[3] as int == q3;
    assert q2 == q2 % 0x100 + 0x100 * q3;
    assert q1 == q1 % 0x100 + 0x100 * q2;
    assert u == u % 0x100 + 0x100 * q1;
    assert u == bs[0] as int + 0x100 * (bs[1] as int + 0x100 * (bs[2] as int + 0x100 * bs[3] as int));
    assert x >= 0 ==> u == x as int;
    assert x < 0 ==> u == x as int + 0x1_0000_0000;
  }

  /** Every 4-byte field is the encoding of exactly the int read from it. */
  lemma FromLe32RoundTrip(bs: Bytes4)
    ensures Le32(FromLe32(bs) as int) == bs
  {
    var u := bs[0] as int + 0x100 * (bs[1] as int + 0x100 * (bs[2] as int + 0x100 * bs[3] as int));
    assert FromLe32(bs) as int % 0x1_0000_0000 == u;
    assert u / 0x100 == bs[1] as int + 0x100 * (bs[2] as int + 0x100 * bs[3] as int);
    assert u / 0x100 / 0x100 == bs[2] as int + 0x100 * bs[3] as int;
    assert u / 0x100 / 0x100 / 0x100 == bs[3] as int;
  }

  /** Fixed fields are little-endian: 42 is 2A 00 00 00 and -1 is FF FF FF FF. */
  lemma Le32Examples()
    ensures Le32(0) == [0, 0, 0, 0]
    ensures Le32(42) == [0x2A, 0, 0, 0]
    ensures Le32(-1) == [0xFF, 0xFF, 0xFF, 0xFF]
    ensures Le32(-0x8000_0000) == [0, 0, 0, 0x80]
  {
    assert -1 % 0x1_0000_0000 == 0xFFFF_FFFF;
    assert -0x8000_0000 % 0x1_0000_0000 == 0x8000_0000;
  }
}
