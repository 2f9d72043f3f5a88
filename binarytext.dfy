/** The binary *strings* through which both sides of the codec build and take
    apart length-prefix bytes: the writer prepends '0'/'1' characters and calls
    Integer.parseInt(bin, 2); the reader formats each byte with
    Integer.toBinaryString padded to 8 characters and parses the concatenated
    7-bit groups with Integer.parseInt(str, 2). */
module BinaryText {

  function Pow2(k: nat): (r: nat)
    ensures r >= 1
  {
    if k == 0 then 1 else 2 * Pow2(k - 1)
  }

  lemma {:induction false} Pow2Add(a: nat, b: nat)
    ensures Pow2(a + b) == Pow2(a) * Pow2(b)
  {
    if b > 0 {
      Pow2Add(a, b - 1);
      assert Pow2(a + b) == 2 * Pow2(a + b - 1);
    }
  }

  predicate IsBinary(s: seq<char>) {
    forall i | 0 <= i < |s| :: s[i] == '0' || s[i] == '1'
  }

  function DigitValue(c: char): nat {
    if c == '1' then 1 else 0
  }

  /** The number a string of binary digits denotes, most significant digit
      first: what Integer.parseInt(s, 2) computes before its range check. */
  function ParseBinary(s: seq<char>): (r: nat)
    ensures r < Pow2(|s|)
  {
    if s == [] then 0 else 2 * ParseBinary(s[..|s| - 1]) + DigitValue(s[|s| - 1])
  }

  /** Digits written before a string shift its value by their own weight. */
  lemma {:induction false} ParseBinaryConcat(x: seq<char>, y: seq<char>)
    ensures ParseBinary(x + y) == ParseBinary(x) * Pow2(|y|) + ParseBinary(y)
  {
    if y != [] {
      var y' := y[..|y| - 1];
      assert (x + y)[..|x + y| - 1] == x + y';
      ParseBinaryConcat(x, y');
      assert Pow2(|y|) == 2 * Pow2(|y'|);
      ShiftStep(ParseBinary(x), ParseBinary(y'), DigitValue(y[|y| - 1]), Pow2(|y'|));
    } else {
      assert x + y == x;
    }
  }

  /** One more digit d after a number split as px * w + py: the high part
      px now weighs twice as much and d joins the low part. */
  lemma ShiftStep(px: nat, py: nat, d: nat, w: nat)
    ensures 2 * (px * w + py) + d == px * (2 * w) + (2 * py + d)
  {
  }

  /** The leading digit of a binary string carries weight 2^(|s|-1). */
  lemma LeadingDigit(s: seq<char>)
    requires s != []
    ensures ParseBinary(s) == DigitValue(s[0]) * Pow2(|s| - 1) + ParseBinary(s[1..])
  {
    var head := [s[0]];
    assert s == head + s[1..];
    assert head[..0] == [];
    assert ParseBinary(head) == DigitValue(s[0]);
    ParseBinaryConcat(head, s[1..]);
  }

  /** n in binary, left-padded with '0' to exactly w digits: for w = 8 the
      reader's String.format("%8s", Integer.toBinaryString(n)).replace(' ', '0'). */
  function Bits(n: nat, w: nat): (r: seq<char>)
    requires n < Pow2(w)
    ensures |r| == w && IsBinary(r) && ParseBinary(r) == n
  {
    if w == 0 then [] else Bits(n / 2, w - 1) + [if n % 2 == 1 then '1' else '0']
  }

  /** For a byte written as 8 binary digits, the first digit is its high bit and
      the remaining seven are its low seven bits. */
  lemma ByteBits(n: nat)
    requires n < 0x100
    ensures Pow2(8) == 0x100
    ensures Bits(n, 8)[0] == (if n >= 0x80 then '1' else '0')
    ensures |Bits(n, 8)[1..]| == 7
    ensures ParseBinary(Bits(n, 8)[1..]) == n % 0x80
  {
    assert Pow2(8) == 0x100;
    HighDigit(Bits(n, 8));
  }

  /** In an 8-digit binary string, the first digit says whether the value
      reaches 0x80 and the other seven hold the value modulo 0x80. */
  lemma HighDigit(s: seq<char>)
    requires |s| == 8 && IsBinary(s)
    ensures s[0] == (if ParseBinary(s) >= 0x80 then '1' else '0')
    ensures ParseBinary(s[1..]) == ParseBinary(s) % 0x80
  {
    assert Pow2(7) == 0x80;
    LeadingDigit(s);
    var low := ParseBinary(s[1..]);
    assert low < 0x80;
    assert s[0] == '0' || s[0] == '1';
  }
}
