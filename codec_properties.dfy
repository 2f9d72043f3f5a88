/** What the wire format promises: every tree comes back from its bytes,
    decoding reads exactly the bytes encoding wrote and no further, a stream cut
    short anywhere is an end-of-stream error, and the tag and layout rules. */
module CodecProperties {
  import opened Wire
  import opened Codec
  import Varint

  /** x is written in b starting at position p. */
  predicate At(x: seq<byte>, b: seq<byte>, p: nat) {
    p + |x| <= |b| && b[p..p + |x|] == x
  }

  lemma AtSplit(x: seq<byte>, y: seq<byte>, b: seq<byte>, p: nat)
    requires At(x + y, b, p)
    ensures At(x, b, p) && At(y, b, p + |x|)
  {
    assert b[p..p + |x|] == (x + y)[..|x|];
    assert b[p + |x|..p + |x| + |y|] == (x + y)[|x|..];
  }

  lemma ReadNameEncoded(s: seq<byte>, b: seq<byte>, pos: nat)
    requires |s| <= MaxInt && At(EncodeName(s), b, pos)
    ensures ReadNameAt(b, pos) == Ok((s, pos + |EncodeName(s)|))
  {
    AtSplit(Varint.Encode(|s|), s, b, pos);
    Varint.ReadLengthEncode(|s|, b, pos);
  }

  /** Decoding what Encode wrote, wherever it sits in a stream, gives back the
      same tree and stops right after its last byte. */
  lemma {:induction false} RoundTrip(v: Value, b: seq<byte>, pos: nat)
    requires Representable(v) && At(Encode(v), b, pos)
    ensures Decode(b, pos) == Ok((v, pos + |Encode(v)|))
    decreases v, 1
  {
    match v
    case Arr(elems) => RoundTripArray(elems, b, pos);
    case Obj(entries) => RoundTripObject(entries, b, pos);
    case _ =>
      assert b[pos] == TagOf(v);
      RoundTripScalar(v, b, pos);
  }

  /** The payload after a scalar's tag reads back as the same scalar. */
  lemma RoundTripScalar(v: Value, b: seq<byte>, pos: nat)
    requires !v.Arr? && !v.Obj?
    requires Representable(v) && At(Encode(v), b, pos)
    ensures DecodeScalar(TagOf(v), b, pos + 1) == Ok((v, pos + |Encode(v)|))
  {
    match v
    case Str(s) => RoundTripString(s, b, pos);
    case Int(n) => RoundTripInt(n, b, pos);
    case Dbl(bits) => RoundTripDouble(bits, b, pos);
    case Bool(x) => RoundTripBool(x, b, pos);
    case Flt(bits) => RoundTripFloat(bits, b, pos);
  }

  lemma RoundTripDouble(bits: Bytes8, b: seq<byte>, pos: nat)
    requires At(Encode(Dbl(bits)), b, pos)
    ensures DecodeScalar(TagDouble, b, pos + 1) == Ok((Dbl(bits), pos + 9))
  {
    AtSplit([TagDouble], bits, b, pos);
    assert ReadBytesAt(b, pos + 1, 8) == Ok((bits, pos + 9));
  }

  lemma RoundTripFloat(bits: Bytes4, b: seq<byte>, pos: nat)
    requires At(Encode(Flt(bits)), b, pos)
    ensures DecodeScalar(TagFloat, b, pos + 1) == Ok((Flt(bits), pos + 5))
  {
    AtSplit([TagFloat], bits, b, pos);
    assert ReadBytesAt(b, pos + 1, 4) == Ok((bits, pos + 5));
  }

  lemma RoundTripBool(x: bool, b: seq<byte>, pos: nat)
    requires At(Encode(Bool(x)), b, pos)
    ensures DecodeScalar(TagBool, b, pos + 1) == Ok((Bool(x), pos + 2))
  {
    assert b[pos + 1] == Encode(Bool(x))[1];
  }

  lemma RoundTripString(s: seq<byte>, b: seq<byte>, pos: nat)
    requires |s| <= MaxInt && At(Encode(Str(s)), b, pos)
    ensures DecodeScalar(TagString, b, pos + 1) == Ok((Str(s), pos + |Encode(Str(s))|))
  {
    AtSplit([TagString], EncodeName(s), b, pos);
    ReadNameEncoded(s, b, pos + 1);
  }

  lemma RoundTripInt(n: int32, b: seq<byte>, pos: nat)
    requires At(Encode(Int(n)), b, pos)
    ensures DecodeScalar(TagInt, b, pos + 1) == Ok((Int(n), pos + 5))
  {
    AtSplit([TagInt], Le32(n as int), b, pos);
    ReadIntEncoded(n, b, pos + 1);
  }

  lemma {:induction false} RoundTripArray(elems: seq<Value>, b: seq<byte>, pos: nat)
    requires Representable(Arr(elems)) && At(Encode(Arr(elems)), b, pos)
    ensures Decode(b, pos) == Ok((Arr(elems), pos + |Encode(Arr(elems))|))
    decreases Arr(elems), 0
  {
    var p := CountHeader(TagArray, |elems|, EncodeElements(elems), b, pos);
    RoundTripElements(elems, b, p);
  }

  lemma {:induction false} RoundTripObject(entries: seq<Entry>, b: seq<byte>, pos: nat)
    requires Representable(Obj(entries)) && At(Encode(Obj(entries)), b, pos)
    ensures Decode(b, pos) == Ok((Obj(entries), pos + |Encode(Obj(entries))|))
    decreases Obj(entries), 0
  {
    var p := CountHeader(TagObject, |entries|, EncodeEntries(entries), b, pos);
    RoundTripEntries(entries, b, p);
  }

  /** A tag and a count written by writeLen: the tag is the first byte, readInt
      gives the count back, and what was written after them starts at p. */
  lemma CountHeader(tag: byte, count: nat, rest: seq<byte>, b: seq<byte>, pos: nat) returns (p: nat)
    requires count <= MaxInt && At([tag] + Le32(count) + rest, b, pos)
    ensures p == pos + 5 && b[pos] == tag
    ensures ReadIntAt(b, pos + 1) == Ok((count as int32, p)) && At(rest, b, p)
  {
    AtSplit([tag] + Le32(count), rest, b, pos);
    AtSplit([tag], Le32(count), b, pos);
    ReadIntEncoded(count as int32, b, pos + 1);
    p := pos + 5;
  }

  lemma ReadIntEncoded(x: int32, b: seq<byte>, pos: nat)
    requires At(Le32(x as int), b, pos)
    ensures ReadIntAt(b, pos) == Ok((x, pos + 4))
  {
    Le32RoundTrip(x);
  }

  lemma {:induction false} RoundTripElements(vs: seq<Value>, b: seq<byte>, pos: nat)
    requires |vs| <= MaxInt && AllRepresentable(vs)
    requires At(EncodeElements(vs), b, pos)
    ensures DecodeElements(b, pos, |vs| as int32) == Ok((vs, pos + |EncodeElements(vs)|))
    decreases vs, 1
  {
    if vs != [] {
      var p := ElementsHead(vs, b, pos);
      RoundTripElements(vs[1..], b, p);
      assert [vs[0]] + vs[1..] == vs;
    }
  }

  /** The first element decodes where it was written and the rest follow it. */
  lemma {:induction false} ElementsHead(vs: seq<Value>, b: seq<byte>, pos: nat) returns (p: nat)
    requires vs != [] && AllRepresentable(vs) && At(EncodeElements(vs), b, pos)
    ensures Decode(b, pos) == Ok((vs[0], p))
    ensures At(EncodeElements(vs[1..]), b, p)
    ensures pos + |EncodeElements(vs)| == p + |EncodeElements(vs[1..])|
    decreases vs, 0
  {
    AtSplit(Encode(vs[0]), EncodeElements(vs[1..]), b, pos);
    RoundTrip(vs[0], b, pos);
    p := pos + |Encode(vs[0])|;
  }

  lemma {:induction false} RoundTripEntries(es: seq<Entry>, b: seq<byte>, pos: nat)
    requires |es| <= MaxInt
    requires AllEntriesRepresentable(es)
    requires At(EncodeEntries(es), b, pos)
    ensures DecodeEntries(b, pos, |es| as int32) == Ok((es, pos + |EncodeEntries(es)|))
    decreases es, 1
  {
    if es != [] {
      var p := EntriesHead(es, b, pos);
      RoundTripEntries(es[1..], b, p);
      assert [es[0]] + es[1..] == es;
    }
  }

  /** The first entry decodes where it was written and the rest follow it. */
  lemma {:induction false} EntriesHead(es: seq<Entry>, b: seq<byte>, pos: nat) returns (p: nat)
    requires es != [] && AllEntriesRepresentable(es) && At(EncodeEntries(es), b, pos)
    ensures DecodeEntry(b, pos) == Ok((es[0], p))
    ensures At(EncodeEntries(es[1..]), b, p)
    ensures pos + |EncodeEntries(es)| == p + |EncodeEntries(es[1..])|
    decreases es, 0
  {
    AtSplit(EncodeEntry(es[0]), EncodeEntries(es[1..]), b, pos);
    RoundTripEntry(es[0], b, pos);
    p := pos + |EncodeEntry(es[0])|;
  }

  lemma {:induction false} RoundTripEntry(e: Entry, b: seq<byte>, pos: nat)
    requires EntryRepresentable(e)
    requires At(EncodeEntry(e), b, pos)
    ensures DecodeEntry(b, pos) == Ok((e, pos + |EncodeEntry(e)|))
    decreases e
  {
    var p := NameHead(e, b, pos);
    RoundTrip(e.value, b, p);
  }

  /** The name of an entry reads back where it was written and its value
      follows it. */
  lemma NameHead(e: Entry, b: seq<byte>, pos: nat) returns (p: nat)
    requires EntryRepresentable(e)
    requires At(EncodeEntry(e), b, pos)
    ensures ReadNameAt(b, pos) == Ok((e.name, p))
    ensures At(Encode(e.value), b, p)
    ensures pos + |EncodeEntry(e)| == p + |Encode(e.value)|
  {
    AtSplit(EncodeName(e.name), Encode(e.value), b, pos);
    ReadNameEncoded(e.name, b, pos);
    p := pos + |EncodeName(e.name)|;
  }

  /** The whole-stream form: decode(encode(v)) == v, every byte consumed. */
  lemma DecodeEncode(v: Value)
    requires Representable(v)
    ensures Decode(Encode(v), 0) == Ok((v, |Encode(v)|))
  {
    RoundTrip(v, Encode(v), 0);
  }

  /** Everything the reader builds is a tree Java can hold, so it can be
      written out again. */
  lemma {:induction false} DecodeRepresentable(b: seq<byte>, pos: nat)
    requires pos <= |b| && Decode(b, pos).Ok?
    ensures Representable(Decode(b, pos).value.0)
    decreases |b| - pos, 0
  {
    var tag := b[pos];
    if tag == TagArray {
      ElementsRepresentable(b, pos + 5, ReadIntAt(b, pos + 1).value.0);
    } else if tag == TagObject {
      EntriesRepresentable(b, pos + 5, ReadIntAt(b, pos + 1).value.0);
    }
  }

  lemma {:induction false} ElementsRepresentable(b: seq<byte>, pos: nat, n: int32)
    requires pos <= |b| && DecodeElements(b, pos, n).Ok?
    ensures AllRepresentable(DecodeElements(b, pos, n).value.0)
    decreases |b| - pos, 1
  {
    if n > 0 {
      DecodeRepresentable(b, pos);
      ElementsRepresentable(b, Decode(b, pos).value.1, n - 1);
      var vs := DecodeElements(b, pos, n).value.0;
      assert vs[1..] == DecodeElements(b, Decode(b, pos).value.1, n - 1).value.0;
    }
  }

  lemma {:induction false} EntryDecodedRepresentable(b: seq<byte>, pos: nat)
    requires pos <= |b| && DecodeEntry(b, pos).Ok?
    ensures EntryRepresentable(DecodeEntry(b, pos).value.0)
    decreases |b| - pos, 0
  {
    DecodeRepresentable(b, ReadNameAt(b, pos).value.1);
  }

  lemma {:induction false} EntriesRepresentable(b: seq<byte>, pos: nat, n: int32)
    requires pos <= |b| && DecodeEntries(b, pos, n).Ok?
    ensures AllEntriesRepresentable(DecodeEntries(b, pos, n).value.0)
    decreases |b| - pos, 1
  {
    if n > 0 {
      EntryDecodedRepresentable(b, pos);
      EntriesRepresentable(b, DecodeEntry(b, pos).value.1, n - 1);
      var es := DecodeEntries(b, pos, n).value.0;
      assert es[1..] == DecodeEntries(b, DecodeEntry(b, pos).value.1, n - 1).value.0;
    }
  }

  // ---- Decoding reads nothing past the end of the value.

  lemma ReadBytesPrefix(b: seq<byte>, pos: nat, n: nat, k: nat)
    requires pos <= k <= |b|
    ensures ReadBytesAt(b[..k], pos, n) ==
              if pos + n <= k then ReadBytesAt(b, pos, n) else Err(EndOfStream)
  {
    if pos + n <= k {
      assert b[..k][pos..pos + n] == b[pos..pos + n];
    }
  }

  lemma ReadNamePrefix(b: seq<byte>, pos: nat, k: nat)
    requires pos <= k <= |b| && ReadNameAt(b, pos).Ok?
    ensures ReadNameAt(b[..k], pos) ==
              if ReadNameAt(b, pos).value.1 <= k then ReadNameAt(b, pos) else Err(EndOfStream)
  {
    Varint.ReadPrefix(b, pos, k);
    var p := Varint.ReadLength(b, pos).value.1;
    if p <= k {
      ReadBytesPrefix(b, p, Varint.ReadLength(b, pos).value.0, k);
    }
  }

  /** Cutting the stream at k changes nothing if the value ends by k, and
      otherwise turns the result into an end-of-stream error: the decoder
      reads exactly the bytes of the value and fails, rather than guessing,
      when they are not all there. */
  lemma {:induction false} DecodePrefix(b: seq<byte>, pos: nat, k: nat)
    requires pos <= k <= |b| && Decode(b, pos).Ok?
    ensures Decode(b[..k], pos) ==
              if Decode(b, pos).value.1 <= k then Decode(b, pos) else Err(EndOfStream)
    decreases |b| - pos, 0
  {
    if pos < k {
      var tag := b[pos];
      if tag == TagArray || tag == TagObject {
        ReadBytesPrefix(b, pos + 1, 4, k);
        if pos + 5 <= k {
          var n := ReadIntAt(b, pos + 1).value.0;
          if tag == TagArray {
            ElementsPrefix(b, pos + 5, n, k);
          } else {
            EntriesPrefix(b, pos + 5, n, k);
          }
        }
      } else {
        ScalarPrefix(tag, b, pos + 1, k);
      }
    }
  }

  lemma ScalarPrefix(tag: byte, b: seq<byte>, pos: nat, k: nat)
    requires pos <= k <= |b| && DecodeScalar(tag, b, pos).Ok?
    ensures DecodeScalar(tag, b[..k], pos) ==
              if DecodeScalar(tag, b, pos).value.1 <= k then DecodeScalar(tag, b, pos) else Err(EndOfStream)
  {
    if tag == TagString {
      ReadNamePrefix(b, pos, k);
    } else if tag == TagInt || tag == TagFloat {
      ReadBytesPrefix(b, pos, 4, k);
    } else if tag == TagDouble {
      ReadBytesPrefix(b, pos, 8, k);
    }
  }

  lemma {:induction false} ElementsPrefix(b: seq<byte>, pos: nat, n: int32, k: nat)
    requires pos <= k <= |b| && DecodeElements(b, pos, n).Ok?
    ensures DecodeElements(b[..k], pos, n) ==
              if DecodeElements(b, pos, n).value.1 <= k then DecodeElements(b, pos, n) else Err(EndOfStream)
    decreases |b| - pos, 1
  {
    if n > 0 {
      DecodePrefix(b, pos, k);
      var p := Decode(b, pos).value.1;
      if p <= k {
        ElementsPrefix(b, p, n - 1, k);
      }
    }
  }

  lemma {:induction false} EntryPrefix(b: seq<byte>, pos: nat, k: nat)
    requires pos <= k <= |b| && DecodeEntry(b, pos).Ok?
    ensures DecodeEntry(b[..k], pos) ==
              if DecodeEntry(b, pos).value.1 <= k then DecodeEntry(b, pos) else Err(EndOfStream)
    decreases |b| - pos, 0
  {
    ReadNamePrefix(b, pos, k);
    var p := ReadNameAt(b, pos).value.1;
    if p <= k {
      DecodePrefix(b, p, k);
    }
  }

  lemma {:induction false} EntriesPrefix(b: seq<byte>, pos: nat, n: int32, k: nat)
    requires pos <= k <= |b| && DecodeEntries(b, pos, n).Ok?
    ensures DecodeEntries(b[..k], pos, n) ==
              if DecodeEntries(b, pos, n).value.1 <= k then DecodeEntries(b, pos, n) else Err(EndOfStream)
    decreases |b| - pos, 1
  {
    if n > 0 {
      var p := EntriesCons(b, pos, n);
      EntryPrefix(b, pos, k);
      if p <= k {
        EntriesPrefix(b, p, n - 1, k);
      }
    }
  }

  /** A successful object loop with a positive count read one member and then
      the remaining count from where that member ended. */
  lemma EntriesCons(b: seq<byte>, pos: nat, n: int32) returns (p: nat)
    requires pos <= |b| && n > 0 && DecodeEntries(b, pos, n).Ok?
    ensures DecodeEntry(b, pos).Ok? && p == DecodeEntry(b, pos).value.1 <= |b|
    ensures DecodeEntries(b, p, n - 1).Ok?
    ensures DecodeEntries(b, pos, n).value.1 == DecodeEntries(b, p, n - 1).value.1
  {
    p := DecodeEntry(b, pos).value.1;
  }

  /** Any encoding cut short by one byte or more is an end-of-stream error,
      never a silently different tree. */
  lemma TruncatedEncoding(v: Value, k: nat)
    requires Representable(v) && k < |Encode(v)|
    ensures Decode(Encode(v)[..k], 0) == Err(EndOfStream)
  {
    DecodeEncode(v);
    DecodePrefix(Encode(v), 0, k);
  }

  lemma ReadBytesExtend(b: seq<byte>, extra: seq<byte>, pos: nat, n: nat)
    requires pos <= |b| && ReadBytesAt(b, pos, n).Ok?
    ensures ReadBytesAt(b + extra, pos, n) == ReadBytesAt(b, pos, n)
  {
    assert (b + extra)[pos..pos + n] == b[pos..pos + n];
  }

  lemma ReadNameExtend(b: seq<byte>, extra: seq<byte>, pos: nat)
    requires pos <= |b| && ReadNameAt(b, pos).Ok?
    ensures ReadNameAt(b + extra, pos) == ReadNameAt(b, pos)
  {
    Varint.ReadExtend(b, extra, pos);
    var r := Varint.ReadLength(b, pos).value;
    ReadBytesExtend(b, extra, r.1, r.0);
  }

  /** Bytes after a value do not change how it decodes. */
  lemma {:induction false} DecodeExtend(b: seq<byte>, extra: seq<byte>, pos: nat)
    requires pos <= |b| && Decode(b, pos).Ok?
    ensures Decode(b + extra, pos) == Decode(b, pos)
    decreases |b| - pos, 0
  {
    var tag := b[pos];
    assert (b + extra)[pos] == tag;
    if tag == TagArray || tag == TagObject {
      ReadBytesExtend(b, extra, pos + 1, 4);
      var n := ReadIntAt(b, pos + 1).value.0;
      if tag == TagArray {
        ElementsExtend(b, extra, pos + 5, n);
      } else {
        EntriesExtend(b, extra, pos + 5, n);
      }
    } else {
      ScalarExtend(tag, b, extra, pos + 1);
    }
  }

  lemma ScalarExtend(tag: byte, b: seq<byte>, extra: seq<byte>, pos: nat)
    requires pos <= |b| && DecodeScalar(tag, b, pos).Ok?
    ensures DecodeScalar(tag, b + extra, pos) == DecodeScalar(tag, b, pos)
  {
    if tag == TagString {
      ReadNameExtend(b, extra, pos);
    } else if tag == TagInt || tag == TagFloat {
      ReadBytesExtend(b, extra, pos, 4);
    } else if tag == TagDouble {
      ReadBytesExtend(b, extra, pos, 8);
    } else if tag == TagBool {
      assert (b + extra)[pos] == b[pos];
    }
  }

  lemma {:induction false} ElementsExtend(b: seq<byte>, extra: seq<byte>, pos: nat, n: int32)
    requires pos <= |b| && DecodeElements(b, pos, n).Ok?
    ensures DecodeElements(b + extra, pos, n) == DecodeElements(b, pos, n)
    decreases |b| - pos, 1
  {
    if n > 0 {
      DecodeExtend(b, extra, pos);
      ElementsExtend(b, extra, Decode(b, pos).value.1, n - 1);
    }
  }

  lemma {:induction false} EntryExtend(b: seq<byte>, extra: seq<byte>, pos: nat)
    requires pos <= |b| && DecodeEntry(b, pos).Ok?
    ensures DecodeEntry(b + extra, pos) == DecodeEntry(b, pos)
    decreases |b| - pos, 0
  {
    ReadNameExtend(b, extra, pos);
    DecodeExtend(b, extra, ReadNameAt(b, pos).value.1);
  }

  lemma {:induction false} EntriesExtend(b: seq<byte>, extra: seq<byte>, pos: nat, n: int32)
    requires pos <= |b| && DecodeEntries(b, pos, n).Ok?
    ensures DecodeEntries(b + extra, pos, n) == DecodeEntries(b, pos, n)
    decreases |b| - pos, 1
  {
    if n > 0 {
      EntryExtend(b, extra, pos);
      EntriesExtend(b, extra, DecodeEntry(b, pos).value.1, n - 1);
    }
  }

  /** Encoding one more element at the back appends its bytes: the writer's
      loop over an array produces EncodeElements one element at a time. */
  lemma {:induction false} EncodeElementsSnoc(vs: seq<Value>, v: Value)
    ensures EncodeElements(vs + [v]) == EncodeElements(vs) + Encode(v)
    decreases vs
  {
    if vs == [] {
      assert [v][1..] == [];
      assert vs + [v] == [v];
    } else {
      assert (vs + [v])[1..] == vs[1..] + [v];
      EncodeElementsSnoc(vs[1..], v);
    }
  }

  /** The same for the entries of an object. */
  lemma {:induction false} EncodeEntriesSnoc(es: seq<Entry>, e: Entry)
    ensures EncodeEntries(es + [e]) == EncodeEntries(es) + EncodeEntry(e)
    decreases es
  {
    if es == [] {
      assert [e][1..] == [];
      assert es + [e] == [e];
    } else {
      assert (es + [e])[1..] == es[1..] + [e];
      EncodeEntriesSnoc(es[1..], e);
    }
  }

  /** The reader's dispatch: nothing left is an end-of-stream error, a tag
      byte outside 1..7 is an unknown-tag error carrying the byte as Java's
      signed byte, and only tags 1..7 can give a value. */
  lemma DecodeDispatch(b: seq<byte>, pos: nat)
    requires pos <= |b|
    ensures pos == |b| ==> Decode(b, pos) == Err(EndOfStream)
    ensures pos < |b| && !(TagArray <= b[pos] <= TagFloat) ==>
      Decode(b, pos) == Err(UnknownTag(SignedByte(b[pos])))
    ensures Decode(b, pos).Ok? ==> pos < |b| && TagArray <= b[pos] <= TagFloat
  {
    if pos < |b| && !(TagArray <= b[pos] <= TagFloat) {
      assert Decode(b, pos) == DecodeScalar(b[pos], b, pos + 1);
    }
  }

  /** A count of zero or less gives an empty array or object after the five
      header bytes, whatever follows them. */
  lemma NonPositiveCount(b: seq<byte>, pos: nat)
    requires pos + 5 <= |b| && (b[pos] == TagArray || b[pos] == TagObject)
    requires FromLe32(b[pos + 1..pos + 5]) <= 0
    ensures Decode(b, pos) == Ok((if b[pos] == TagArray then Arr([]) else Obj([]), pos + 5))
  {
    assert ReadIntAt(b, pos + 1) == Ok((FromLe32(b[pos + 1..pos + 5]), pos + 5));
  }

  /** How a number reaches the stream: a text with neither '.' nor ',' is
      always an int (tag 4, 5 bytes); otherwise a float (tag 7, 5 bytes) when
      Float.parseFloat accepts the text and a double (tag 5, 9 bytes) when it
      does not. */
  lemma NumberEncoding(text: seq<char>, floatParses: bool, asInt: int32, asFloat: Bytes4, asDouble: Bytes8)
    ensures var r := Encode(NumberValue(text, floatParses, asInt, asFloat, asDouble));
      (r[0] == TagInt <==> '.' !in text && ',' !in text) &&
      (r[0] == TagFloat <==> ('.' in text || ',' in text) && floatParses) &&
      (r[0] == TagDouble <==> ('.' in text || ',' in text) && !floatParses) &&
      ('.' !in text && ',' !in text ==> r == [TagInt] + Le32(asInt as int)) &&
      |r| == (if r[0] == TagDouble then 9 else 5)
  {
  }

  /** Byte-for-byte layouts: an empty object is its tag and a zero count; a
      string is tag 3, its length prefix and its bytes; an int is tag 4 and
      four little-endian bytes; an array's elements and an object's entries
      follow the count in order; a bool is two bytes. */
  /** Reading and writing again need not give the same bytes: the reader
      makes tag 5 a double, and the writer, seeing its text with a '.' that
      Float.parseFloat accepts, writes tag 7; a text with neither '.' nor ','
      (such as "NaN") is written with tag 4. */
  lemma NumberKindDrift(bits: Bytes8, asInt: int32, asFloat: Bytes4, asDouble: Bytes8)
    ensures Decode([TagDouble] + bits, 0) == Ok((Dbl(bits), 9))
    ensures Encode(NumberValue("2.5", true, asInt, asFloat, asDouble))[0] == TagFloat
    ensures Encode(NumberValue("NaN", true, asInt, asFloat, asDouble))[0] == TagInt
  {
    var payload: seq<byte> := bits;
    assert ReadBytesAt([TagDouble] + bits, 1, 8) == Ok((payload, 9)) by {
      assert ([TagDouble] + bits)[1..9] == bits;
    }
    assert '.' in "2.5";
    assert '.' !in "NaN" && ',' !in "NaN";
  }

  lemma EncodeExamples()
    ensures Encode(Obj([])) == [2, 0, 0, 0, 0]
    ensures Encode(Str([0x41])) == [3, 1, 0x41]
    ensures Encode(Int(42)) == [4, 0x2A, 0, 0, 0]
    ensures Encode(Bool(false)) == [6, 0]
    ensures Encode(Arr([Bool(true), Int(-1)])) == [1, 2, 0, 0, 0, 6, 1, 4, 0xFF, 0xFF, 0xFF, 0xFF]
    ensures Encode(Obj([Entry([0x61], Bool(true))])) == [2, 1, 0, 0, 0, 1, 0x61, 6, 1]
  {
    Le32Examples();
    assert Le32(1) == [1, 0, 0, 0];
    assert Le32(2) == [2, 0, 0, 0];
    assert EncodeElements([Int(-1)]) == Encode(Int(-1));
  }

  /** What the reader makes of some hand-written streams: any nonzero bool
      byte is true, a negative count is an empty array, a non-minimal length
      prefix is accepted, and unknown tags are reported as signed bytes. */
  lemma DecodeExamples()
    ensures Decode([], 0) == Err(EndOfStream)
    ensures Decode([0], 0) == Err(UnknownTag(0))
    ensures Decode([0x80], 0) == Err(UnknownTag(-128))
    ensures Decode([6, 0x2A], 0) == Ok((Bool(true), 2))
    ensures Decode([1, 0xFF, 0xFF, 0xFF, 0xFF], 0) == Ok((Arr([]), 5))
    ensures Decode([3, 0x80, 0x00], 0) == Ok((Str([]), 3))
    ensures Decode([4, 0x2A, 0, 0], 0) == Err(EndOfStream)
  {
    var neg: seq<byte> := [1, 0xFF, 0xFF, 0xFF, 0xFF];
    assert neg[1..5] == [0xFF, 0xFF, 0xFF, 0xFF];
    NonPositiveCount(neg, 0);
    assert Varint.Read([3, 0x80, 0x00], 1) == Ok((0, 3));
  }
}
