# SimpleJson binary format in Dafny

SimpleJson stores a Gson JSON tree in a compact binary form. `JsonBinaryWriter`
serializes a tree into an output stream and `JsonBinaryReader` deserializes it
back. Every value starts with a one-byte tag: array 1, object 2, string 3,
int 4, double 5, boolean 6, float 7. Array and object sizes and int values
follow as four little-endian bytes. Strings and object member names start
with their UTF-8 byte length, written as a base-128 varint that the Java code
builds and parses through binary digit strings. A boolean is one byte. Floats
and doubles are their 4 and 8 little-endian IEEE-754 bytes.

This project models both classes and proves that they agree with each other.

- `wire.dfy` (module `Wire`): bytes, Java's `int`, the tag table, the value
  tree, the error kinds, and the little-endian int field.
- `binarytext.dfy` (module `BinaryText`): binary digit strings, as
  `Integer.toBinaryString`, `String.format("%8s")` and
  `Integer.parseInt(s, 2)` use them.
- `varint.dfy` (module `Varint`): the length prefix as a pure encoder and a
  pure reader, with their properties.
- `codec.dfy` (module `Codec`): the whole format as two pure functions.
  `Encode` is what `serialize` writes. `Decode` is what `deserialize` reads
  from a position, returned as a value or an error plus the position after it.
- `codec_properties.dfy` (module `CodecProperties`): the round trip
  `Decode(Encode(v)) == v` for every `Value` tree, the converse bound (every
  `Value` tree the decoder builds satisfies the round trip's precondition),
  behaviour on truncated and extended input, the error cases, and worked
  examples. A `Value` fixes the kind of each number. The Java writer instead
  works the kind out from the number's text (see "## Left out").
- `writer.dfy` (module `Writer`): the writer as imperative methods over an
  `OutputStream` class holding the bytes written so far. Every method is
  proved to append exactly what `Encode` prescribes. The bit-by-bit loop of
  `writeName` is kept.
- `reader.dfy` (module `Reader`): the reader as imperative methods over an
  `InputStream` class holding fixed contents and a read position. Every method
  is proved to return what `Decode` or the matching read function gives, and to
  leave the position right after what it read. The do-while loop of
  `readString`, with its binary strings, is kept.
- `session.dfy` (module `Session`): a write followed by a read of the
  same bytes.

Errors are values. `EndOfStream` stands for the `IOException` "Error
reading file". `UnknownTag(t)` stands for the exception naming the tag as a
signed byte. `LengthOverflow` stands for the `NumberFormatException` that
`Integer.parseInt` raises for a length above `Integer.MAX_VALUE`.

## Model

| member | source | states |
|---|---|---|
| Wire.Le32RoundTrip | src/main/java/com/csharp/SimpleJson/JsonBinaryWriter.java:109-113 | The four bytes writeLen puts for an int, read back as a little-endian int (readInt), give the same int. |
| Wire.TagOf | src/main/java/com/csharp/SimpleJson/JsonBinaryWriter.java:20-26 | The tag table shared by both classes (array 1, object 2, string 3, int 4, double 5, boolean 6, float 7) as the map from variant to tag. Codec.Encode ensures its first byte is this tag. Codec.Decode ensures the variant it builds has the tag it read. |
| Wire.Le32 | src/main/java/com/csharp/SimpleJson/JsonBinaryWriter.java:109-113 | putInt in little-endian order: the low 32 bits of the argument, least significant byte first. Its properties are Wire.Le32RoundTrip, Wire.FromLe32RoundTrip and Wire.Le32Examples. |
| Wire.FromLe32 | src/main/java/com/csharp/SimpleJson/JsonBinaryReader.java:103 | getInt in little-endian order. The result is negative exactly when the high bit of the last byte is set, i.e. the field is two's complement. It inverts Le32 (Wire.Le32RoundTrip, Wire.FromLe32RoundTrip). |
| Wire.FromLe32RoundTrip | src/main/java/com/csharp/SimpleJson/JsonBinaryReader.java:97-104 | Every four bytes readInt turns into an int are exactly the bytes writeLen writes for that int, so the int field has no redundancy. |
| Wire.Le32Examples | src/main/java/com/csharp/SimpleJson/JsonBinaryWriter.java:109-113 | 0, 42, -1 and Integer.MIN_VALUE as putInt writes them in little-endian order. |
| Wire.SignedByte | src/main/java/com/csharp/SimpleJson/JsonBinaryReader.java:91-93 | The tag in the unknown-tag error is the byte as Java's signed byte: in -128..127 and equal to the unsigned byte modulo 256. |
| BinaryText.ParseBinary | src/main/java/com/csharp/SimpleJson/JsonBinaryReader.java:150 | The value Integer.parseInt(s, 2) gives a digit string is below 2 to the power of its length. |
| BinaryText.ParseBinaryConcat | src/main/java/com/csharp/SimpleJson/JsonBinaryReader.java:148 | Prepending digits to a binary string adds their value shifted past the digits already there. |
| BinaryText.LeadingDigit | src/main/java/com/csharp/SimpleJson/JsonBinaryWriter.java:143-150 | The digit put in front of the seven data digits carries weight 2^(length-1), i.e. 0x80 for a byte. |
| BinaryText.Bits | src/main/java/com/csharp/SimpleJson/JsonBinaryReader.java:146 | toBinaryString padded with zeros to w digits: exactly w digits, all '0' or '1', which parse back to n. |
| BinaryText.ByteBits | src/main/java/com/csharp/SimpleJson/JsonBinaryReader.java:145-148 | For an unsigned byte, the first padded digit is '1' exactly when the byte is 0x80 or above; the other seven parse to its low seven bits. |
| Varint.Read | src/main/java/com/csharp/SimpleJson/JsonBinaryReader.java:144-149 | A successful prefix read consumes at least one byte and stays inside the input. |
| Varint.Encode | src/main/java/com/csharp/SimpleJson/JsonBinaryWriter.java:137-151 | The length prefix writeName emits: the low seven bits of the length in one byte, with the high bit set when more groups follow. Its shape, value and minimality are Varint.EncodeShape, Varint.EncodeValue and Varint.EncodeMinimal. Varint.ReadEncode proves readString's loop reads it back. Writer.WriteName proves the Java loop emits exactly it. |
| Varint.ReadLength | src/main/java/com/csharp/SimpleJson/JsonBinaryReader.java:150 | A length that parseInt accepts is at most Integer.MAX_VALUE. |
| Varint.ReadStopsAtFinalByte | src/main/java/com/csharp/SimpleJson/JsonBinaryReader.java:144-149 | When the loop succeeds, it stopped at the first byte whose high bit is clear, every earlier byte had the high bit set, and the value is those bytes' seven-bit groups, least significant first. |
| Varint.ReadUpToFinalByte | src/main/java/com/csharp/SimpleJson/JsonBinaryReader.java:144-149 | Conversely, bytes with the high bit set followed by one with it clear are read as exactly those bytes, with the value of their groups. |
| Varint.GroupsSnoc | src/main/java/com/csharp/SimpleJson/JsonBinaryReader.java:148 | A group read later is more significant: it adds its seven bits shifted by 7 times the number of groups before it. |
| Varint.EncodeShape | src/main/java/com/csharp/SimpleJson/JsonBinaryWriter.java:137-151 | writeName's prefix is non-empty, its last byte has the high bit clear and every other byte has it set. |
| Varint.EncodeValue | src/main/java/com/csharp/SimpleJson/JsonBinaryWriter.java:137-151 | The seven-bit groups of writeName's prefix, least significant first, denote the length. |
| Varint.EncodeMinimal | src/main/java/com/csharp/SimpleJson/JsonBinaryWriter.java:137-151 | The prefix has no redundant groups: the length needs all of them, and the last group is zero only for length 0. |
| Varint.ReadEncode | src/main/java/com/csharp/SimpleJson/JsonBinaryReader.java:144-149 | readString's loop reads writeName's prefix back as the same length and stops right after it. |
| Varint.ReadLengthEncode | src/main/java/com/csharp/SimpleJson/JsonBinaryReader.java:150 | The same, including parseInt's range check, for every length up to Integer.MAX_VALUE. |
| Varint.ReadUnterminated | src/main/java/com/csharp/SimpleJson/JsonBinaryReader.java:145 | When the input ends while every remaining byte has the high bit set, readByte fails and so does the prefix. |
| Varint.ReadPrefix | src/main/java/com/csharp/SimpleJson/JsonBinaryReader.java:144-149 | Cutting the input after position k keeps the prefix read when it ends by k, and makes it an end-of-stream error otherwise. |
| Varint.ReadExtend | src/main/java/com/csharp/SimpleJson/JsonBinaryReader.java:144-149 | Bytes after a complete prefix do not change what is read. |
| Varint.Examples | src/main/java/com/csharp/SimpleJson/JsonBinaryWriter.java:134-153 | Lengths 0, 127 and 130 encoded. The non-minimal 0x80 0x00 reads as 0. A prefix worth 2^31 is refused and one worth 2^31-1 is accepted. |
| Codec.Encode | src/main/java/com/csharp/SimpleJson/JsonBinaryWriter.java:64-102 | The first byte serialize writes for a value is that value's tag. |
| Codec.EncodeName | src/main/java/com/csharp/SimpleJson/JsonBinaryWriter.java:134-153 | A name as writeName writes it: Varint.Encode of the byte length, then the bytes, with no tag. CodecProperties.ReadNameEncoded proves readString reads it back. Writer.WriteName proves writeName appends exactly it. |
| Codec.EncodeElements | src/main/java/com/csharp/SimpleJson/JsonBinaryWriter.java:98-100 | The array loop's output: each element's encoding in index order. CodecProperties.EncodeElementsSnoc gives one more iteration. CodecProperties.RoundTripElements proves the reader's loop reads it back. |
| Codec.EncodeEntry | src/main/java/com/csharp/SimpleJson/JsonBinaryWriter.java:71-73 | One object member: its name as writeName writes it, then its value. CodecProperties.RoundTripEntry proves it reads back as the same member. |
| Codec.EncodeEntries | src/main/java/com/csharp/SimpleJson/JsonBinaryWriter.java:70-74 | The member loop's output: each member in iteration order. CodecProperties.EncodeEntriesSnoc gives one more iteration. CodecProperties.RoundTripEntries proves it reads back. |
| Codec.NumberValue | src/main/java/com/csharp/SimpleJson/JsonBinaryWriter.java:79-90 | The variant the number branch writes: int exactly when the text has neither '.' nor ','; otherwise float exactly when Float.parseFloat accepts the text, and double exactly when it throws. |
| Codec.ReadByteAt | src/main/java/com/csharp/SimpleJson/JsonBinaryReader.java:133-139 | readByte succeeds exactly when a byte remains, and then advances one position. Otherwise it reports end of stream. |
| Codec.ReadBytesAt | src/main/java/com/csharp/SimpleJson/JsonBinaryReader.java:153-160 | read(in, n) yields exactly n bytes and moves n positions, or fails. |
| Codec.ReadIntAt | src/main/java/com/csharp/SimpleJson/JsonBinaryReader.java:97-104 | readInt consumes exactly four bytes. |
| Codec.ReadBoolAt | src/main/java/com/csharp/SimpleJson/JsonBinaryReader.java:124-131 | readBoolean consumes exactly one byte. |
| Codec.ReadNameAt | src/main/java/com/csharp/SimpleJson/JsonBinaryReader.java:141-151 | readString yields at most Integer.MAX_VALUE bytes and consumes at least one byte. |
| Codec.Decode | src/main/java/com/csharp/SimpleJson/JsonBinaryReader.java:56-95 | A successful deserialize consumes at least one byte, and the variant it builds is the one the first byte's tag names. |
| Codec.DecodeScalar | src/main/java/com/csharp/SimpleJson/JsonBinaryReader.java:76-93 | The scalar cases build the variant of their tag and consume at least one byte. |
| Codec.DecodeElements | src/main/java/com/csharp/SimpleJson/JsonBinaryReader.java:59-66 | The array loop reads exactly num elements, and none when num is zero or negative. |
| Codec.DecodeEntry | src/main/java/com/csharp/SimpleJson/JsonBinaryReader.java:70-73 | One object member (a name, then a value) consumes at least one byte. |
| Codec.DecodeEntries | src/main/java/com/csharp/SimpleJson/JsonBinaryReader.java:67-75 | The object loop reads exactly num members, and none when num is zero or negative. |
| CodecProperties.ReadNameEncoded | src/main/java/com/csharp/SimpleJson/JsonBinaryReader.java:141-151 | readString reads a name written by writeName back, with the position right after it. |
| CodecProperties.RoundTrip | src/main/java/com/csharp/SimpleJson/JsonBinaryReader.java:56-95 | deserialize, started at the first byte of serialize's output for a tree Java can hold, returns that tree and stops right after the encoding, whatever follows it. |
| CodecProperties.RoundTripScalar | src/main/java/com/csharp/SimpleJson/JsonBinaryReader.java:76-90 | The same for strings, ints, doubles, booleans and floats. |
| CodecProperties.RoundTripString | src/main/java/com/csharp/SimpleJson/JsonBinaryReader.java:76-78 | A string value comes back as the same bytes. |
| CodecProperties.RoundTripInt | src/main/java/com/csharp/SimpleJson/JsonBinaryReader.java:79-81 | An int value comes back as the same int, five bytes later. |
| CodecProperties.RoundTripDouble | src/main/java/com/csharp/SimpleJson/JsonBinaryReader.java:82-84 | A double's eight payload bytes come back unchanged. |
| CodecProperties.RoundTripBool | src/main/java/com/csharp/SimpleJson/JsonBinaryReader.java:85-87 | A boolean written as 1 or 0 comes back as the same boolean. |
| CodecProperties.RoundTripFloat | src/main/java/com/csharp/SimpleJson/JsonBinaryReader.java:88-90 | A float's four payload bytes come back unchanged. |
| CodecProperties.RoundTripArray | src/main/java/com/csharp/SimpleJson/JsonBinaryReader.java:59-66 | An array comes back with the same elements in the same order. |
| CodecProperties.RoundTripObject | src/main/java/com/csharp/SimpleJson/JsonBinaryReader.java:67-75 | An object comes back with the same members, names and values, in the same order. |
| CodecProperties.ReadIntEncoded | src/main/java/com/csharp/SimpleJson/JsonBinaryReader.java:97-104 | readInt reads an int written by writeLen back, four bytes later. |
| CodecProperties.RoundTripElements | src/main/java/com/csharp/SimpleJson/JsonBinaryReader.java:62-64 | The array loop reads the encodings of n values back as those n values. |
| CodecProperties.ElementsHead | src/main/java/com/csharp/SimpleJson/JsonBinaryReader.java:63 | The first iteration of the array loop yields the first element and stops where the others' encodings begin. |
| CodecProperties.RoundTripEntries | src/main/java/com/csharp/SimpleJson/JsonBinaryReader.java:70-73 | The object loop reads the encodings of n members back as those members. |
| CodecProperties.EntriesHead | src/main/java/com/csharp/SimpleJson/JsonBinaryReader.java:71-72 | The first iteration of the object loop yields the first member and stops where the others begin. |
| CodecProperties.RoundTripEntry | src/main/java/com/csharp/SimpleJson/JsonBinaryReader.java:71-72 | One name followed by one value reads back as the member that was written. |
| CodecProperties.NameHead | src/main/java/com/csharp/SimpleJson/JsonBinaryReader.java:71 | In a written member, readString yields the name and stops where the value's encoding starts. |
| CodecProperties.DecodeEncode | src/main/java/com/csharp/SimpleJson/JsonBinaryReader.java:56-95 | deserialize of exactly serialize's output returns the tree and consumes all of it. |
| CodecProperties.DecodeRepresentable | src/main/java/com/csharp/SimpleJson/JsonBinaryReader.java:56-95 | Every Value tree deserialize builds has counts and lengths that fit in an int, so Encode of that Value is covered by the round trip. |
| CodecProperties.ElementsRepresentable | src/main/java/com/csharp/SimpleJson/JsonBinaryReader.java:59-66 | Every element list the array loop builds holds only such trees. |
| CodecProperties.EntryDecodedRepresentable | src/main/java/com/csharp/SimpleJson/JsonBinaryReader.java:71-72 | Every member read has a name of at most Integer.MAX_VALUE bytes and a value Java can hold. |
| CodecProperties.EntriesRepresentable | src/main/java/com/csharp/SimpleJson/JsonBinaryReader.java:67-75 | Every member list the object loop builds holds only such members. |
| CodecProperties.ReadBytesPrefix | src/main/java/com/csharp/SimpleJson/JsonBinaryReader.java:153-160 | read(in, n) on input cut at k keeps its result when the n bytes end by k, and is an end-of-stream error otherwise. |
| CodecProperties.ReadNamePrefix | src/main/java/com/csharp/SimpleJson/JsonBinaryReader.java:141-151 | readString on cut input keeps its result when the name ends by the cut, and is an end-of-stream error otherwise. |
| CodecProperties.DecodePrefix | src/main/java/com/csharp/SimpleJson/JsonBinaryReader.java:56-95 | deserialize on input cut at k keeps its result when the value ends by k, and is an end-of-stream error otherwise. |
| CodecProperties.ScalarPrefix | src/main/java/com/csharp/SimpleJson/JsonBinaryReader.java:76-90 | The same for the scalar cases. |
| CodecProperties.ElementsPrefix | src/main/java/com/csharp/SimpleJson/JsonBinaryReader.java:62-64 | The same for the array loop. |
| CodecProperties.EntryPrefix | src/main/java/com/csharp/SimpleJson/JsonBinaryReader.java:71-72 | The same for one object member. |
| CodecProperties.EntriesPrefix | src/main/java/com/csharp/SimpleJson/JsonBinaryReader.java:70-73 | The same for the object loop. |
| CodecProperties.TruncatedEncoding | src/main/java/com/csharp/SimpleJson/JsonBinaryReader.java:56-95 | Every proper prefix of serialize's output makes deserialize fail with an end-of-stream error. |
| CodecProperties.ReadBytesExtend | src/main/java/com/csharp/SimpleJson/JsonBinaryReader.java:153-160 | Bytes after the n read do not change read(in, n). |
| CodecProperties.ReadNameExtend | src/main/java/com/csharp/SimpleJson/JsonBinaryReader.java:141-151 | Bytes after a complete name do not change readString. |
| CodecProperties.DecodeExtend | src/main/java/com/csharp/SimpleJson/JsonBinaryReader.java:56-95 | Bytes after a complete value do not change what deserialize returns, so the reader never looks past a value. |
| CodecProperties.ScalarExtend | src/main/java/com/csharp/SimpleJson/JsonBinaryReader.java:76-90 | The same for the scalar cases. |
| CodecProperties.ElementsExtend | src/main/java/com/csharp/SimpleJson/JsonBinaryReader.java:62-64 | The same for the array loop. |
| CodecProperties.EntryExtend | src/main/java/com/csharp/SimpleJson/JsonBinaryReader.java:71-72 | The same for one object member. |
| CodecProperties.EntriesExtend | src/main/java/com/csharp/SimpleJson/JsonBinaryReader.java:70-73 | The same for the object loop. |
| CodecProperties.EncodeElementsSnoc | src/main/java/com/csharp/SimpleJson/JsonBinaryWriter.java:98-100 | Serializing one more array element appends that element's encoding. |
| CodecProperties.EncodeEntriesSnoc | src/main/java/com/csharp/SimpleJson/JsonBinaryWriter.java:70-74 | Serializing one more object member appends that member's name and value. |
| CodecProperties.DecodeDispatch | src/main/java/com/csharp/SimpleJson/JsonBinaryReader.java:56-93 | With no byte left, deserialize reports end of stream. A byte outside 1..7 is an unknown tag, reported as a signed byte. Success implies a known tag. |
| CodecProperties.NonPositiveCount | src/main/java/com/csharp/SimpleJson/JsonBinaryReader.java:59-75 | An array or object whose count is zero or negative is empty and ends right after the count. |
| CodecProperties.NumberEncoding | src/main/java/com/csharp/SimpleJson/JsonBinaryWriter.java:79-90 | A number whose text has neither '.' nor ',' is written as an int with tag 4. Otherwise it is a float (tag 7) when Float.parseFloat accepts the text, and a double (tag 5) when it does not. Int and float take 5 bytes, double 9. |
| CodecProperties.EncodeExamples | src/main/java/com/csharp/SimpleJson/JsonBinaryWriter.java:64-102 | Encodings of an empty object, a one-byte string, 42, false, an array of true and -1, and an object with one member. |
| CodecProperties.DecodeExamples | src/main/java/com/csharp/SimpleJson/JsonBinaryReader.java:56-95 | Decoding empty input, tags 0 and 0x80 (reported as -128), a boolean byte 0x2A read as true, an array with count -1 read as empty, a string with a non-minimal zero length, and an int cut short. |
| Writer.Serialize | src/main/java/com/csharp/SimpleJson/JsonBinaryWriter.java:64-102 | serialize appends exactly Encode(v) to the stream: the tag, then the count and the elements or members for an array or object, otherwise the scalar's payload. |
| Writer.SerializeNumber | src/main/java/com/csharp/SimpleJson/JsonBinaryWriter.java:79-90 | The number branch appends the encoding of the int, float or double that the text and Float.parseFloat select. |
| Writer.SerializeElements | src/main/java/com/csharp/SimpleJson/JsonBinaryWriter.java:98-100 | The array loop appends each element's encoding in index order. Its invariant is "the encodings of the elements written so far". |
| Writer.SerializeEntries | src/main/java/com/csharp/SimpleJson/JsonBinaryWriter.java:69-74 | The member loop appends each name and its value, in iteration order. |
| Writer.WriteInt | src/main/java/com/csharp/SimpleJson/JsonBinaryWriter.java:104-107 | writeInt appends tag 4 and the four little-endian bytes. |
| Writer.WriteLen | src/main/java/com/csharp/SimpleJson/JsonBinaryWriter.java:109-113 | writeLen appends the four little-endian bytes of its argument. |
| Writer.WriteDouble | src/main/java/com/csharp/SimpleJson/JsonBinaryWriter.java:115-120 | writeDouble appends tag 5 and the eight payload bytes. |
| Writer.WriteFloat | src/main/java/com/csharp/SimpleJson/JsonBinaryWriter.java:122-127 | writeFloat appends tag 7 and the four payload bytes. |
| Writer.WriteString | src/main/java/com/csharp/SimpleJson/JsonBinaryWriter.java:129-132 | writeString appends tag 3 and the name encoding of the string. |
| Writer.WriteBoolean | src/main/java/com/csharp/SimpleJson/JsonBinaryWriter.java:155-162 | writeBoolean appends tag 6 and then 1 for true or 0 for false. |
| Writer.SevenBits | src/main/java/com/csharp/SimpleJson/JsonBinaryWriter.java:138-142 | The inner loop's seven digits are the low seven bits of len, and len is left shifted right by seven. |
| Writer.GroupByte | src/main/java/com/csharp/SimpleJson/JsonBinaryWriter.java:143-150 | The byte written is the low group with a leading '0' exactly when nothing is left, which makes it the last byte of the prefix. Otherwise it has a leading '1' and the rest of the length follows. |
| Writer.WriteName | src/main/java/com/csharp/SimpleJson/JsonBinaryWriter.java:134-153 | writeName appends the varint of the byte length and then the bytes. The loop keeps "written so far + prefix of what is left = the prefix of the whole length". |
| Reader.ReadByte | src/main/java/com/csharp/SimpleJson/JsonBinaryReader.java:133-139 | readByte returns the next byte and advances one position, or reports end of stream. |
| Reader.ReadInt | src/main/java/com/csharp/SimpleJson/JsonBinaryReader.java:97-104 | readInt returns the little-endian int of the next four bytes, or reports end of stream when fewer remain. |
| Reader.ReadDouble | src/main/java/com/csharp/SimpleJson/JsonBinaryReader.java:106-113 | readDouble returns the next eight bytes, or reports end of stream when fewer remain. |
| Reader.ReadFloat | src/main/java/com/csharp/SimpleJson/JsonBinaryReader.java:115-122 | readFloat returns the next four bytes, or reports end of stream when fewer remain. |
| Reader.ReadBoolean | src/main/java/com/csharp/SimpleJson/JsonBinaryReader.java:124-131 | readBoolean returns whether the next byte is nonzero, or reports end of stream. |
| Reader.ReadBytes | src/main/java/com/csharp/SimpleJson/JsonBinaryReader.java:153-160 | read(in, len) returns the next len bytes, or reports end of stream when fewer remain. |
| Reader.ReadString | src/main/java/com/csharp/SimpleJson/JsonBinaryReader.java:141-151 | readString returns the name ReadNameAt describes: the length prefix, then parseInt's range check, then that many bytes. The stream ends right after them. |
| Reader.ReadLengthDigits | src/main/java/com/csharp/SimpleJson/JsonBinaryReader.java:144-149 | The do-while loop consumes exactly the prefix, and the binary string it builds parses to the prefix's value. It fails as the prefix read does. |
| Reader.NameAfterLength | src/main/java/com/csharp/SimpleJson/JsonBinaryReader.java:150 | After the prefix, readString either fails parseInt's range check or reads exactly len bytes. |
| Reader.TakeGroup | src/main/java/com/csharp/SimpleJson/JsonBinaryReader.java:145-148 | One pass of the do-while loop: the leading digit tells whether the byte continues the prefix, and prepending its seven digits keeps the string equal to the groups read so far. |
| Reader.GroupsPrepend | src/main/java/com/csharp/SimpleJson/JsonBinaryReader.java:148 | Prepending the seven digits of a later byte to the string adds that byte's group as the most significant one. |
| Reader.Deserialize | src/main/java/com/csharp/SimpleJson/JsonBinaryReader.java:56-95 | deserialize returns the tree or the error Decode gives, and on success leaves the stream right after the value. |
| Reader.DeserializeElements | src/main/java/com/csharp/SimpleJson/JsonBinaryReader.java:62-64 | The array loop returns the num elements DecodeElements gives, or its error. |
| Reader.DeserializeEntry | src/main/java/com/csharp/SimpleJson/JsonBinaryReader.java:71-72 | One object member, read as a name then a value, as DecodeEntry gives it. |
| Reader.DeserializeEntries | src/main/java/com/csharp/SimpleJson/JsonBinaryReader.java:70-73 | The object loop returns the members DecodeEntries gives, or its error. |
| Reader.ElementsStep | src/main/java/com/csharp/SimpleJson/JsonBinaryReader.java:62-64 | After one element is read, the rest of the array loop is the loop over the remaining count. |
| Reader.ElementsStop | src/main/java/com/csharp/SimpleJson/JsonBinaryReader.java:63 | A failing element ends the array loop with that element's error. |
| Reader.EntriesStep | src/main/java/com/csharp/SimpleJson/JsonBinaryReader.java:70-73 | After one member is read, the rest of the object loop is the loop over the remaining count. |
| Reader.EntriesStop | src/main/java/com/csharp/SimpleJson/JsonBinaryReader.java:71-72 | A failing member ends the object loop with that member's error. |
| Session.SaveThenLoad | src/main/java/com/csharp/SimpleJson/JsonBinaryWriter.java:60-62 | Writing a Value tree whose counts and lengths fit in an int, with each number's kind as the Value gives it, to a stream and reading one value from those bytes returns the same Value. The reader consumes every byte written. |
| CodecProperties.NumberKindDrift | src/main/java/com/csharp/SimpleJson/JsonBinaryWriter.java:79-90 | The reader turns tag 5 into a double. When the writer sees that double again as text with a '.' that Float.parseFloat accepts, it picks tag 7. A text with no '.' or ',' (such as "NaN" or "Infinity") gets tag 4. |

## Left out

- File and compressed-stream entry points: `saveToFile`, the BZip2 variants and
  `loadFromFile`. They open streams and delegate to `serialize` and
  `deserialize`, and the streams are parameters here.
- UTF-8: strings and names are their byte sequences. `String.getBytes` and
  `new String(bytes, UTF_8)` are not modelled. Malformed UTF-8 is replaced by
  U+FFFD in Java, so the string round trip is only proved at the byte level.
- IEEE-754: `putFloat`/`putDouble` and `getFloat`/`getDouble` are taken to
  map the payload bytes one to one. The model carries those bytes
  uninterpreted, so NaN payload canonicalisation is not modelled.
- Gson's number conversions (`getAsInt`, `getAsFloat`, `getAsDouble`) and
  the verdict of `Float.parseFloat`: `SerializeNumber` and `NumberValue`
  receive them as parameters.
- Gson's JSON null: `serialize` writes nothing for it, and the value tree has
  no null variant.
- Duplicate member names: Gson's `JsonObject.add` keeps only the last value
  for a repeated name. The model keeps every member in arrival order, so an
  object with repeated names decodes to the list that was written.
- Short reads: `InputStream.read(byte[])` is modelled as filling as much of
  the buffer as the remaining input allows. A stream that returns fewer bytes
  while more are still to come is not modelled. A read into an empty buffer is
  taken to return 0, as `FileInputStream` and the BZip2 stream do.
  `ByteArrayInputStream` returns -1 for it once the stream is at its end, so
  over such a stream Java's `read(in, 0)` fails on an empty string that ends
  the input (for example the bytes 3, 0), which the model decodes.
- The stream position after an error is left unspecified. Callers discard
  the stream when an exception is thrown.
- Recursion depth (a `StackOverflowError` on deeply nested input) and
  allocation failure (`new byte[len]` for a huge length) are not modelled.
- Writer.Serialize: takes each number's kind (int, float or double) from the
  `Value`, as `NumberValue` chose it. Java's `serialize` works the kind out
  again from the number's text. So reading a stream and writing the tree back
  turns a tag-5 double into a tag-7 float, narrowed by `putFloat`, because a
  finite double prints with a '.' that `Float.parseFloat` accepts. It turns a
  NaN or infinite float or double into a tag-4 int, because "NaN" and
  "Infinity" contain no '.'. The round trip is proved only for `Value` trees
  (`CodecProperties.NumberKindDrift` states the tag change).
- Writer.WriteLen: Java's `int` size is taken as the low 32 bits of the
  unbounded count. Codec.Encode does the same. The round-trip lemmas require
  `Representable` (every count and byte length at most Integer.MAX_VALUE),
  which every Java collection satisfies.
- Codec.ReadNameAt: the `NumberFormatException` of `Integer.parseInt` is
  reported as `LengthOverflow` rather than as a Java exception type.
- Helper members that mirror parts of a Java method rather than a method
  of their own: `SerializeElements`, `SerializeEntries` and `SevenBits` in the
  writer, and `DeserializeElements`, `DeserializeEntries`, `DeserializeEntry` and
  `ReadLengthDigits` in the reader. The loops they hold are the source's
  loops.
