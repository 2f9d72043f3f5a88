/** saveToStream followed by loadFromStream on the bytes it produced: the two
    halves of the format compose to the identity on every Value tree whose
    counts and lengths fit in an `int`. A Value already carries the kind of
    each number (int, float or double), as NumberValue chose it when the tree
    was written; Java works that kind out again from the number's text each
    time it writes. */
module Session {
  import opened Wire
  import opened Codec
  import CodecProperties
  import Writer
  import Reader

  /** Writes v to a fresh output stream, then reads one value back from a
      stream over exactly those bytes. The value read is v, and the reader
      stops at the end of the stream. */
  method SaveThenLoad(v: Value) returns (r: Result<Value>, written: seq<byte>, consumed: nat)
    requires Representable(v)
    ensures written == Encode(v)
    ensures r == Ok(v) && consumed == |written|
  {
    var out := new Writer.OutputStream();
    Writer.Serialize(out, v);
    written := out.bytes;
    var input := new Reader.InputStream(written);
    r := Reader.Deserialize(input);
    consumed := input.pos;
    CodecProperties.DecodeEncode(v);
  }
}
