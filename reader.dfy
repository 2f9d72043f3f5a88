/** JsonBinaryReader: methods that consume an input stream byte by byte, each
    proved to return what Codec's read functions give at the position where it
    starts and, when it succeeds, to leave the stream right after what it read. */
module Reader {
  import opened Wire
  import opened BinaryText
  import opened Codec
  import Varint

  /** The InputStream the reader consumes: fixed contents and a read position. */
  class InputStream {
    const data: seq<byte>
    var pos: nat

    ghost predicate Valid()
      reads this
    {
      pos <= |data|
    }

    constructor(data: seq<byte>)
      ensures this.data == data && pos == 0 && Valid()
    {
      this.data := data;
      pos := 0;
    }

    /** InputStream.read(): the next byte as 0..255, or -1 at the end. */
    method Read() returns (r: int)
      requires Valid()
      modifies this
      ensures Valid()
      ensures old(pos) < |data| ==> r == data[old(pos)] as int && pos == old(pos) + 1
      ensures old(pos) == |data| ==> r == -1 && pos == old(pos)
    {
      if pos < |data| {
        r := data[pos] as int;
        pos := pos + 1;
      } else {
        r := -1;
      }
    }

    /** InputStream.read(byte[]): fills the front of buf with as many of the
        remaining bytes as fit and returns their number, or -1 when buf is not
        empty and nothing remains. */
    method ReadInto(buf: array<byte>) returns (count: int)
      requires Valid()
      modifies this, buf
      ensures Valid()
      ensures var k := Min(buf.Length, |data| - old(pos));
        pos == old(pos) + k && buf[..k] == data[old(pos)..pos] &&
        count == (if k == 0 && buf.Length > 0 then -1 else k)
    {
      var k := Min(buf.Length, |data| - pos);
      forall i | 0 <= i < k {
        buf[i] := data[pos + i];
      }
      pos := pos + k;
      count := if k == 0 && buf.Length > 0 then -1 else k;
    }
  }

  function Min(a: int, b: int): (r: int)
    ensures r <= a && r <= b && (r == a || r == b)
  {
    if a <= b then a else b
  }

  /** A method result r, and the position pos it left the stream at, agree
      with a read function's verdict: the same error, or the same value with
      the stream right after it. */
  predicate Follows<T(==)>(r: Result<T>, pos: nat, spec: Result<(T, nat)>) {
    match spec
    case Err(e) => r == Err(e)
    case Ok((x, end)) => r == Ok(x) && pos == end
  }

  /** readByte: one byte, or an error at the end of the stream. */
  method ReadByte(input: InputStream) returns (r: Result<byte>)
    requires input.Valid()
    modifies input
    ensures input.Valid() && old(input.pos) <= input.pos
    ensures Follows(r, input.pos, ReadByteAt(input.data, old(input.pos)))
  {
    var out := input.Read();
    if out == -1 {
      return Err(EndOfStream);
    }
    return Ok(out as byte);
  }

  /** readInt: four bytes as a little-endian signed int; fewer is an error. */
  method ReadInt(input: InputStream) returns (r: Result<int32>)
    requires input.Valid()
    modifies input
    ensures input.Valid() && old(input.pos) <= input.pos
    ensures Follows(r, input.pos, ReadIntAt(input.data, old(input.pos)))
  {
    var out := new byte[4];
    var test := input.ReadInto(out);
    if test != 4 {
      return Err(EndOfStream);
    }
    return Ok(FromLe32(out[..]));
  }

  /** readDouble: the eight payload bytes, left uninterpreted. */
  method ReadDouble(input: InputStream) returns (r: Result<Bytes8>)
    requires input.Valid()
    modifies input
    ensures input.Valid() && old(input.pos) <= input.pos
    ensures Follows(r, input.pos, ReadBytesAt(input.data, old(input.pos), 8))
  {
    var out := new byte[8];
    var test := input.ReadInto(out);
    if test != out.Length {
      return Err(EndOfStream);
    }
    assert out[..] == out[..test];
    return Ok(out[..]);
  }

  /** readFloat: the four payload bytes, left uninterpreted. */
  method ReadFloat(input: InputStream) returns (r: Result<Bytes4>)
    requires input.Valid()
    modifies input
    ensures input.Valid() && old(input.pos) <= input.pos
    ensures Follows(r, input.pos, ReadBytesAt(input.data, old(input.pos), 4))
  {
    var out := new byte[4];
    var test := input.ReadInto(out);
    if test != out.Length {
      return Err(EndOfStream);
    }
    assert out[..] == out[..test];
    return Ok(out[..]);
  }

  /** readBoolean: one byte, false exactly when it is zero. */
  method ReadBoolean(input: InputStream) returns (r: Result<bool>)
    requires input.Valid()
    modifies input
    ensures input.Valid() && old(input.pos) <= input.pos
    ensures Follows(r, input.pos, ReadBoolAt(input.data, old(input.pos)))
  {
    var out := new byte[1];
    var test := input.ReadInto(out);
    if test == -1 {
      return Err(EndOfStream);
    }
    assert out[0] == out[..test][0];
    return Ok(if out[0] == 0 then false else true);
  }

  /** read(in, len): exactly len bytes; fewer is an error. */
  method ReadBytes(input: InputStream, len: nat) returns (r: Result<seq<byte>>)
    requires input.Valid()
    modifies input
    ensures input.Valid() && old(input.pos) <= input.pos
    ensures Follows(r, input.pos, ReadBytesAt(input.data, old(input.pos), len))
  {
    var out := new byte[len];
    var test := input.ReadInto(out);
    if test != len {
      return Err(EndOfStream);
    }
    assert out[..] == out[..test];
    return Ok(out[..]);
  }

  /** readString: the digits of the length prefix, Integer.parseInt's range
      check, then exactly that many bytes. */
  method ReadString(input: InputStream) returns (r: Result<seq<byte>>)
    requires input.Valid()
    modifies input
    ensures input.Valid() && old(input.pos) <= input.pos
    ensures Follows(r, input.pos, ReadNameAt(input.data, old(input.pos)))
  {
    var str := ReadLengthDigits(input);
    if str.Err? {
      return Err(str.error);
    }
    var len := ParseBinary(str.value);
    NameAfterLength(input.data, old(input.pos), len, input.pos);
    if len > MaxInt {
      return Err(LengthOverflow);
    }
    r := ReadBytes(input, len);
  }

  /** The do-while loop of readString: bytes are taken while the first of
      their eight binary digits is '1'; the other seven digits of each are put
      in front of str, so later groups are more significant. The digits spell
      the varint the bytes carry. */
  method ReadLengthDigits(input: InputStream) returns (r: Result<seq<char>>)
    requires input.Valid()
    modifies input
    ensures input.Valid() && old(input.pos) <= input.pos
    ensures match Varint.Read(input.data, old(input.pos))
      case Err(e) => r == Err(e)
      case Ok((n, end)) => r.Ok? && ParseBinary(r.value) == n && input.pos == end
  {
    ghost var start := input.pos;
    var c: char;
    var str: seq<char> := "";
    while true
      invariant input.Valid() && start <= input.pos
      invariant Varint.Continues(input.data, start, input.pos)
      invariant |str| == 7 * (input.pos - start)
      invariant ParseBinary(str) == Varint.Groups(input.data[start..input.pos])
      decreases |input.data| - input.pos
    {
      ghost var p := input.pos;
      var z := ReadByte(input);
      if z.Err? {
        Varint.ReadUnterminated(input.data, start);
        return Err(z.error);
      }
      var tmp := z.value as nat;
      assert Pow2(8) == 0x100;
      var s := Bits(tmp, 8);
      c := s[0];
      TakeGroup(input.data, start, p, str, s);
      str := s[1..] + str;
      if c != '1' {
        Varint.ReadUpToFinalByte(input.data, start, p);
        break;
      }
    }
    return Ok(str);
  }

  /** Once the length prefix is read, what remains of readString is the range
      check and the read of that many bytes. */
  lemma NameAfterLength(b: seq<byte>, start: nat, len: nat, p: nat)
    requires start <= |b| && Varint.Read(b, start) == Ok((len, p))
    ensures p <= |b|
    ensures ReadNameAt(b, start) == if len > MaxInt then Err(LengthOverflow) else ReadBytesAt(b, p, len)
  {
  }

  /** One pass of readString's loop over the byte at p: its seven low digits go
      in front of str, which then spells the groups of the bytes so far; a
      leading '1' continues the prefix and a leading '0' ends it there. */
  lemma TakeGroup(b: seq<byte>, start: nat, p: nat, str: seq<char>, s: seq<char>)
    requires start <= p < |b|
    requires |str| == 7 * (p - start) && ParseBinary(str) == Varint.Groups(b[start..p])
    requires Pow2(8) == 0x100 && s == Bits(b[p] as nat, 8)
    ensures s[0] == '1' <==> b[p] >= 0x80
    ensures |s[1..] + str| == 7 * (p + 1 - start)
    ensures ParseBinary(s[1..] + str) == Varint.Groups(b[start..p + 1])
  {
    ByteBits(b[p] as nat);
    var front := b[start..p];
    assert b[start..p + 1] == front + [b[p]];
    GroupsPrepend(s[1..], str, front, b[p]);
  }

  /** Seven digits for the group x, put in front of the digits of the groups
      before it, spell all of the groups. */
  lemma GroupsPrepend(t: seq<char>, str: seq<char>, front: seq<byte>, x: byte)
    requires |t| == 7 && ParseBinary(t) == x as nat % 0x80
    requires |str| == 7 * |front| && ParseBinary(str) == Varint.Groups(front)
    ensures ParseBinary(t + str) == Varint.Groups(front + [x])
  {
    var w := Pow2(|str|);
    var g := x as nat % 0x80;
    assert ParseBinary(t + str) == g * w + Varint.Groups(front) by {
      ParseBinaryConcat(t, str);
    }
    assert Varint.Groups(front + [x]) == Varint.Groups(front) + w * g by {
      Varint.GroupsSnoc(front, x);
    }
  }

  /** deserialize: a tag byte, then the payload it announces; any other tag
      is an error that names the tag as a signed byte. */
  method Deserialize(input: InputStream) returns (r: Result<Value>)
    requires input.Valid()
    modifies input
    ensures input.Valid() && old(input.pos) <= input.pos
    ensures Follows(r, input.pos, Decode(input.data, old(input.pos)))
    decreases |input.data| - input.pos, 0
  {
    var z := ReadByte(input);
    if z.Err? {
      return Err(z.error);
    }
    var tag := z.value;
    if tag == TagArray {
      var num := ReadInt(input);
      if num.Err? {
        return Err(num.error);
      }
      var jarr := DeserializeElements(input, num.value);
      if jarr.Err? {
        return Err(jarr.error);
      }
      return Ok(Arr(jarr.value));
    } else if tag == TagObject {
      var num := ReadInt(input);
      if num.Err? {
        return Err(num.error);
      }
      var jobj := DeserializeEntries(input, num.value);
      if jobj.Err? {
        return Err(jobj.error);
      }
      return Ok(Obj(jobj.value));
    } else if tag == TagString {
      var s := ReadString(input);
      if s.Err? {
        return Err(s.error);
      }
      return Ok(Str(s.value));
    } else if tag == TagInt {
      var n := ReadInt(input);
      if n.Err? {
        return Err(n.error);
      }
      return Ok(Int(n.value));
    } else if tag == TagDouble {
      var d := ReadDouble(input);
      if d.Err? {
        return Err(d.error);
      }
      return Ok(Dbl(d.value));
    } else if tag == TagBool {
      var x := ReadBoolean(input);
      if x.Err? {
        return Err(x.error);
      }
      return Ok(Bool(x.value));
    } else if tag == TagFloat {
      var f := ReadFloat(input);
      if f.Err? {
        return Err(f.error);
      }
      return Ok(Flt(f.value));
    } else {
      return Err(UnknownTag(SignedByte(tag)));
    }
  }

  /** The read that remains after some of a loop's items are in hand: the
      items already read come first. */
  function Prefixed<T>(done: seq<T>, rest: Result<(seq<T>, nat)>): Result<(seq<T>, nat)> {
    match rest
    case Err(e) => Err(e)
    case Ok((xs, end)) => Ok((done + xs, end))
  }

  lemma PrefixedNothing<T>(r: Result<(seq<T>, nat)>)
    ensures Prefixed([], r) == r
  {
    if r.Ok? {
      assert [] + r.value.0 == r.value.0;
    }
  }

  lemma PrefixedAppend<T>(done: seq<T>, x: T, r: Result<(seq<T>, nat)>)
    ensures Prefixed(done, Prefixed([x], r)) == Prefixed(done + [x], r)
  {
    if r.Ok? {
      assert done + ([x] + r.value.0) == (done + [x]) + r.value.0;
    }
  }

  /** The loop of the array case: num values appended to jarr in order. */
  method DeserializeElements(input: InputStream, num: int32) returns (r: Result<seq<Value>>)
    requires input.Valid()
    modifies input
    ensures input.Valid() && old(input.pos) <= input.pos
    ensures Follows(r, input.pos, DecodeElements(input.data, old(input.pos), num))
    decreases |input.data| - input.pos, 1
  {
    var jarr: seq<Value> := [];
    PrefixedNothing(DecodeElements(input.data, input.pos, num));
    var i: int := 0;
    while i < num as int
      invariant input.Valid() && old(input.pos) <= input.pos
      invariant 0 <= i <= if num > 0 then num as int else 0
      invariant Prefixed(jarr, DecodeElements(input.data, input.pos, (num as int - i) as int32))
        == DecodeElements(input.data, old(input.pos), num)
      decreases num as int - i
    {
      ghost var p := input.pos;
      ghost var rem := (num as int - i) as int32;
      var x := Deserialize(input);
      if x.Err? {
        ElementsStop(input.data, p, rem, x.error);
        return Err(x.error);
      }
      ElementsStep(input.data, p, rem, x.value, input.pos);
      PrefixedAppend(jarr, x.value, DecodeElements(input.data, input.pos, rem - 1));
      jarr := jarr + [x.value];
      i := i + 1;
    }
    assert jarr + [] == jarr;
    return Ok(jarr);
  }

  /** The body of the object loop: readString for the name, then
      deserialize for its value. */
  method DeserializeEntry(input: InputStream) returns (r: Result<Entry>)
    requires input.Valid()
    modifies input
    ensures input.Valid() && old(input.pos) <= input.pos
    ensures Follows(r, input.pos, DecodeEntry(input.data, old(input.pos)))
    decreases |input.data| - input.pos, 1
  {
    var name := ReadString(input);
    if name.Err? {
      return Err(name.error);
    }
    var x := Deserialize(input);
    if x.Err? {
      return Err(x.error);
    }
    return Ok(Entry(name.value, x.value));
  }

  /** The loop of the object case: num names, each followed by its value,
      added to jobj in arrival order. */
  method DeserializeEntries(input: InputStream, num: int32) returns (r: Result<seq<Entry>>)
    requires input.Valid()
    modifies input
    ensures input.Valid() && old(input.pos) <= input.pos
    ensures Follows(r, input.pos, DecodeEntries(input.data, old(input.pos), num))
    decreases |input.data| - input.pos, 2
  {
    var jobj: seq<Entry> := [];
    PrefixedNothing(DecodeEntries(input.data, input.pos, num));
    var i: int := 0;
    while i < num as int
      invariant input.Valid() && old(input.pos) <= input.pos
      invariant 0 <= i <= if num > 0 then num as int else 0
      invariant Prefixed(jobj, DecodeEntries(input.data, input.pos, (num as int - i) as int32))
        == DecodeEntries(input.data, old(input.pos), num)
      decreases num as int - i
    {
      ghost var p := input.pos;
      ghost var rem := (num as int - i) as int32;
      var ent := DeserializeEntry(input);
      if ent.Err? {
        EntriesStop(input.data, p, rem, ent.error);
        return Err(ent.error);
      }
      EntriesStep(input.data, p, rem, ent.value, input.pos);
      PrefixedAppend(jobj, ent.value, DecodeEntries(input.data, input.pos, rem - 1));
      jobj := jobj + [ent.value];
      i := i + 1;
    }
    assert jobj + [] == jobj;
    return Ok(jobj);
  }

  /** One pass of the array loop: a value read at p puts itself in front of
      the rest. */
  lemma ElementsStep(b: seq<byte>, p: nat, rem: int32, v: Value, end: nat)
    requires p <= |b| && rem > 0
    requires Decode(b, p) == Ok((v, end))
    ensures DecodeElements(b, p, rem) == Prefixed([v], DecodeElements(b, end, rem - 1))
  {
  }

  /** One pass of the object loop: an entry read at p puts itself in front
      of the rest. */
  lemma EntriesStep(b: seq<byte>, p: nat, rem: int32, e: Entry, end: nat)
    requires p <= |b| && rem > 0
    requires DecodeEntry(b, p) == Ok((e, end))
    ensures DecodeEntries(b, p, rem) == Prefixed([e], DecodeEntries(b, end, rem - 1))
  {
  }

  /** A failed read of one value ends the array loop with its error. */
  lemma ElementsStop(b: seq<byte>, p: nat, rem: int32, e: Error)
    requires p <= |b| && rem > 0
    requires Decode(b, p) == Err(e)
    ensures DecodeElements(b, p, rem) == Err(e)
  {
  }

  /** A failed read of one entry ends the object loop with its error. */
  lemma EntriesStop(b: seq<byte>, p: nat, rem: int32, e: Error)
    requires p <= |b| && rem > 0
    requires DecodeEntry(b, p) == Err(e)
    ensures DecodeEntries(b, p, rem) == Err(e)
  {
  }
}
