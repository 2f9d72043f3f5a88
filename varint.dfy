/** The length prefix of names and strings: an unsigned base-128 varint, seven
    payload bits per byte, least significant group first, the high bit set on
    every byte but the last. */
module Varint {
  import opened Wire
  import opened BinaryText

  /** The prefix JsonBinaryWriter.writeName emits for a byte length n. */
  function Encode(n: nat): (r: seq<byte>)
    decreases n
  {
    if n < 0x80 then [n as byte] else [(0x80 + n % 0x80) as byte] + Encode(n / 0x80)
  }

  /** The number a run of groups denotes, earlier groups less significant. */
  function Groups(bs: seq<byte>): nat {
    if bs == [] then 0 else (bs[0] as nat % 0x80) + 0x80 * Groups(bs[1..])
  }

  /** The do-while loop of JsonBinaryReader.readString: read bytes up to and
      including the first one whose high bit is 0 and return the value of their
      low seven bits together with the position after them. */
  function Read(b: seq<byte>, pos: nat): (r: Result<(nat, nat)>)
    requires pos <= |b|
    ensures r.Ok? ==> pos < r.value.1 <= |b|
    decreases |b| - pos
  {
    if pos == |b| then Err(EndOfStream)
    else if b[pos] < 0x80 then Ok((b[pos] as nat, pos + 1))
    else
      match Read(b, pos + 1)
      case Err(e) => Err(e)
      case Ok((v, end)) => Ok(((b[pos] - 0x80) as nat + 0x80 * v, end))
  }

  /** Read followed by Integer.parseInt's range check: a length above
      Integer.MAX_VALUE is refused. */
  function ReadLength(b: seq<byte>, pos: nat): (r: Result<(nat, nat)>)
    requires pos <= |b|
    ensures r.Ok? ==> r.value.0 <= MaxInt && pos < r.value.1 <= |b|
  {
    match Read(b, pos)
    case Err(e) => Err(e)
    case Ok((n, end)) => if n > MaxInt then Err(LengthOverflow) else Ok((n, end))
  }

  /** Every byte of b[lo..hi] has its continuation bit set. */
  predicate Continues(b: seq<byte>, lo: nat, hi: nat)
    requires lo <= hi <= |b|
    decreases hi
  {
    lo == hi || (b[hi - 1] >= 0x80 && Continues(b, lo, hi - 1))
  }

  lemma {:induction false} ContinuesFront(b: seq<byte>, lo: nat, hi: nat)
    requires lo < hi <= |b|
    ensures Continues(b, lo, hi) <==> b[lo] >= 0x80 && Continues(b, lo + 1, hi)
    decreases hi
  {
    if lo + 1 < hi {
      ContinuesFront(b, lo, hi - 1);
    }
  }

  /** The reader stops at the first byte whose high bit is clear, and the
      value is the groups of the bytes it took, earlier ones less significant. */
  lemma {:induction false} ReadStopsAtFinalByte(b: seq<byte>, pos: nat)
    requires pos <= |b| && Read(b, pos).Ok?
    ensures var end := Read(b, pos).value.1;
      b[end - 1] < 0x80 && Continues(b, pos, end - 1) &&
      Read(b, pos).value.0 == Groups(b[pos..end])
    decreases |b| - pos
  {
    var end := Read(b, pos).value.1;
    if b[pos] < 0x80 {
      assert b[pos..end][1..] == [];
    } else {
      ReadStopsAtFinalByte(b, pos + 1);
      ContinuesFront(b, pos, end - 1);
      assert b[pos..end][1..] == b[pos + 1..end];
    }
  }

  /** Conversely, a run of continuation bytes closed by a byte whose high bit
      is clear is read as the groups of exactly those bytes. */
  lemma {:induction false} ReadUpToFinalByte(b: seq<byte>, pos: nat, q: nat)
    requires pos <= q < |b|
    requires Continues(b, pos, q) && b[q] < 0x80
    ensures Read(b, pos) == Ok((Groups(b[pos..q + 1]), q + 1))
    decreases q - pos
  {
    if pos < q {
      ContinuesFront(b, pos, q);
      ReadUpToFinalByte(b, pos + 1, q);
      assert b[pos..q + 1][1..] == b[pos + 1..q + 1];
    } else {
      assert b[pos..q + 1][1..] == [];
    }
  }

  /** A group after the others is the most significant so far. */
  lemma {:induction false} GroupsSnoc(bs: seq<byte>, x: byte)
    ensures Groups(bs + [x]) == Groups(bs) + Pow2(7 * |bs|) * (x as nat % 0x80)
    decreases bs
  {
    if bs == [] {
      assert bs + [x] == [x];
      assert [x][1..] == [];
    } else {
      var g := x as nat % 0x80;
      var w := Pow2(7 * (|bs| - 1));
      assert (bs + [x])[1..] == bs[1..] + [x];
      GroupsSnoc(bs[1..], x);
      Pow2Add(7, 7 * (|bs| - 1));
      assert Pow2(7) == 0x80;
      assert Pow2(7 * |bs|) == 0x80 * w;
      assert 0x80 * (Groups(bs[1..]) + w * g) == 0x80 * Groups(bs[1..]) + (0x80 * w) * g;
    }
  }

  /** Every byte but the last carries the continuation bit; the last does not. */
  lemma {:induction false} EncodeShape(n: nat)
    ensures |Encode(n)| >= 1
    ensures Encode(n)[|Encode(n)| - 1] < 0x80
    ensures forall i | 0 <= i < |Encode(n)| - 1 :: Encode(n)[i] >= 0x80
    decreases n
  {
    if n >= 0x80 {
      EncodeShape(n / 0x80);
    }
  }

  /** The groups of the prefix spell out n. */
  lemma {:induction false} EncodeValue(n: nat)
    ensures Groups(Encode(n)) == n
    decreases n
  {
    if n >= 0x80 {
      EncodeValue(n / 0x80);
      assert Encode(n)[1..] == Encode(n / 0x80);
    }
  }

  /** The prefix is minimal: it has no more groups than n needs, so its last
      byte is zero only when n itself is zero. */
  lemma {:induction false} EncodeMinimal(n: nat)
    ensures n < Pow2(7 * |Encode(n)|)
    ensures |Encode(n)| > 1 ==> Pow2(7 * (|Encode(n)| - 1)) <= n
    ensures Encode(n)[|Encode(n)| - 1] == 0 <==> n == 0
    decreases n
  {
    if n < 0x80 {
      assert Pow2(7) == 0x80;
    } else {
      var m := n / 0x80;
      EncodeMinimal(m);
      var j := |Encode(m)|;
      assert |Encode(n)| == j + 1;
      assert Encode(n)[j] == Encode(m)[j - 1];
      Pow2Add(7, 7 * j);
      assert Pow2(7) == 0x80;
      assert Pow2(7 * (j + 1)) == 0x80 * Pow2(7 * j);
      ScaleUpper(n, Pow2(7 * j));
      if j > 1 {
        Pow2Add(7, 7 * (j - 1));
        assert Pow2(7 * j) == 0x80 * Pow2(7 * (j - 1));
        ScaleLower(n, Pow2(7 * (j - 1)));
      }
    }
  }

  lemma ScaleUpper(n: nat, w: nat)
    requires n / 0x80 < w
    ensures n < 0x80 * w
  {
  }

  lemma ScaleLower(n: nat, w: nat)
    requires w <= n / 0x80
    ensures 0x80 * w <= n
  {
  }

  /** Reading the prefix of n back from any position where it was written
      yields n and stops right after it. */
  lemma {:induction false} ReadEncode(n: nat, b: seq<byte>, pos: nat)
    requires pos + |Encode(n)| <= |b| && b[pos..pos + |Encode(n)|] == Encode(n)
    ensures Read(b, pos) == Ok((n, pos + |Encode(n)|))
    decreases n
  {
    assert b[pos] == Encode(n)[0];
    if n >= 0x80 {
      var rest := Encode(n / 0x80);
      assert b[pos + 1..pos + 1 + |rest|] == Encode(n)[1..];
      ReadEncode(n / 0x80, b, pos + 1);
    }
  }

  /** The same for the length check: every length Java can hold survives it. */
  lemma ReadLengthEncode(n: nat, b: seq<byte>, pos: nat)
    requires n <= MaxInt
    requires pos + |Encode(n)| <= |b| && b[pos..pos + |Encode(n)|] == Encode(n)
    ensures ReadLength(b, pos) == Ok((n, pos + |Encode(n)|))
  {
    ReadEncode(n, b, pos);
  }

  /** A stream that ends while every remaining byte has its continuation bit
      set is an end-of-stream error, never a value. */
  lemma {:induction false} ReadUnterminated(b: seq<byte>, pos: nat)
    requires pos <= |b| && Continues(b, pos, |b|)
    ensures Read(b, pos) == Err(EndOfStream)
    decreases |b| - pos
  {
    if pos < |b| {
      ContinuesFront(b, pos, |b|);
      ReadUnterminated(b, pos + 1);
    }
  }

  /** Cutting the stream at k leaves a prefix that ends by k unchanged and
      turns one that does not into an end-of-stream error. */
  lemma {:induction false} ReadPrefix(b: seq<byte>, pos: nat, k: nat)
    requires pos <= k <= |b| && Read(b, pos).Ok?
    ensures Read(b[..k], pos) == if Read(b, pos).value.1 <= k then Read(b, pos) else Err(EndOfStream)
    ensures ReadLength(b[..k], pos) == if Read(b, pos).value.1 <= k then ReadLength(b, pos) else Err(EndOfStream)
    decreases |b| - pos
  {
    if pos < k && b[pos] >= 0x80 {
      ReadPrefix(b, pos + 1, k);
    }
  }

  /** Bytes after a complete prefix do not change what is read. */
  lemma {:induction false} ReadExtend(b: seq<byte>, extra: seq<byte>, pos: nat)
    requires pos <= |b| && Read(b, pos).Ok?
    ensures Read(b + extra, pos) == Read(b, pos)
    ensures ReadLength(b + extra, pos) == ReadLength(b, pos)
    decreases |b| - pos
  {
    assert (b + extra)[pos] == b[pos];
    if b[pos] >= 0x80 {
      ReadExtend(b, extra, pos + 1);
    }
  }

  /** Worked values: 0 is the single byte 00, 130 is 82 01; the reader also
      takes the non-minimal 80 00 as 0, and refuses 2^31 (80 80 80 80 08). */
  lemma Examples()
    ensures Encode(0) == [0x00]
    ensures Encode(127) == [0x7F]
    ensures Encode(130) == [0x82, 0x01]
    ensures Read([0x82, 0x01], 0) == Ok((130, 2))
    ensures Read([0x80, 0x00], 0) == Ok((0, 2))
    ensures ReadLength([0x80, 0x80, 0x80, 0x80, 0x08], 0) == Err(LengthOverflow)
    ensures ReadLength([0xFF, 0xFF, 0xFF, 0xFF, 0x07], 0) == Ok((0x7FFF_FFFF, 5))
  {
    assert Read([0x80, 0x80, 0x80, 0x80, 0x08], 0).value.0 == 0x8000_0000;
  }
}
