/**
 Canonical base64 (sections 3.5 and 4 of RFC 4648), in which the override list of a duplicate request
 travels. The decoder is lenient quad by quad and then re-encodes what it read, so that it accepts
 exactly the texts the encoder writes. Text is the bytes of the string.
 */
module Base64 {
  import opened Bits
  import opened Wrappers

  const PAD: byte := '=' as int
  const NO_DIGIT: byte := 255

  type digit = x: int | 0 <= x < 64

  /** The alphabet: upper case, lower case, decimal digits, plus and slash. */
  function Symbol(d: digit): byte {
    if d < 26 then 'A' as int + d
    else if d < 52 then 'a' as int + (d - 26)
    else if d < 62 then '0' as int + (d - 52)
    else if d == 62 then '+' as int
    else '/' as int
  }

  function DigitOf(b: byte): (d: byte)
    ensures d < 64 || d == NO_DIGIT
  {
    if 'A' as int <= b <= 'Z' as int then b - 'A' as int
    else if 'a' as int <= b <= 'z' as int then b - 'a' as int + 26
    else if '0' as int <= b <= '9' as int then b - '0' as int + 52
    else if b == '+' as int then 62
    else if b == '/' as int then 63
    else NO_DIGIT
  }

  const UPPER := "ABCDEFGHIJKLMNOPQRSTUVWXYZ"
  const LOWER := "abcdefghijklmnopqrstuvwxyz"
  const DIGITS := "0123456789"

  /** Table 1 of RFC 4648. */
  lemma SymbolIsAlphabet(d: digit)
    ensures |UPPER| == 26 && |LOWER| == 26 && |DIGITS| == 10
    ensures d < 26 ==> UPPER[d] as int == Symbol(d)
    ensures 26 <= d < 52 ==> LOWER[d - 26] as int == Symbol(d)
    ensures 52 <= d < 62 ==> DIGITS[d - 52] as int == Symbol(d)
    ensures Symbol(62) == '+' as int && Symbol(63) == '/' as int
  {
    assert forall i :: 0 <= i < 26 ==> UPPER[i] as int == 'A' as int + i;
    assert forall i :: 0 <= i < 26 ==> LOWER[i] as int == 'a' as int + i;
    assert forall i :: 0 <= i < 10 ==> DIGITS[i] as int == '0' as int + i;
  }

  lemma DigitOfSymbol(b: byte, d: digit)
    ensures DigitOf(b) == d <==> Symbol(d) == b
    ensures Symbol(d) != PAD
  {
  }

  // ---------- bits ----------

  // Four 6-bit digits of three bytes, and the bytes of four digits.

  function Digit0(first: byte): digit { first / 4 }

  function Digit1(first: byte, second: byte): digit { first % 4 * 16 + second / 16 }

  function Digit2(second: byte, third: byte): digit { second % 16 * 4 + third / 64 }

  function Digit3(third: byte): digit { third % 64 }

  function Byte0(a: int, b: int): byte
    requires 0 <= a < 64 && 0 <= b < 64
  {
    a * 4 % 256 + b / 16
  }

  function Byte1(b: int, c: int): byte
    requires 0 <= b < 64 && 0 <= c < 64
  {
    b * 16 % 256 + c / 4
  }

  function Byte2(c: int, d: int): byte
    requires 0 <= c < 64 && 0 <= d < 64
  {
    c * 64 % 256 + d
  }

  /** A digit made of high and low bits. */
  lemma Bits2And4(l: int, m: int)
    requires 0 <= l < 4 && 0 <= m < 16
    ensures (l * 16 + m) / 16 == l && (l * 16 + m) % 16 == m
    ensures (m * 4 + l) / 4 == m && (m * 4 + l) % 4 == l
    ensures (l * 16 + m) * 16 % 256 == m * 16
    ensures (m * 4 + l) * 64 % 256 == l * 64
  {
    assert (l * 16 + m) * 16 == l * 256 + m * 16;
    assert (m * 4 + l) * 64 == m * 256 + l * 64;
  }

  /** A byte split after its sixth, fourth or second bit. */
  lemma Bits6And2(h: int, l: int)
    requires 0 <= h < 64 && 0 <= l < 4
    ensures (h * 4 + l) / 4 == h && (h * 4 + l) % 4 == l
    ensures (l * 64 + h) / 64 == l && (l * 64 + h) % 64 == h
  {
  }

  lemma Bits4And4(h: int, l: int)
    requires 0 <= h < 16 && 0 <= l < 16
    ensures (h * 16 + l) / 16 == h && (h * 16 + l) % 16 == l
  {
  }

  lemma FirstOfDigits(first: byte, second: byte)
    ensures Byte0(Digit0(first), Digit1(first, second)) == first
  {
    Bits2And4(first % 4, second / 16);
  }

  lemma SecondOfDigits(first: byte, second: byte, third: byte)
    ensures Byte1(Digit1(first, second), Digit2(second, third)) == second
  {
    Bits2And4(first % 4, second / 16);
    Bits2And4(third / 64, second % 16);
  }

  lemma ThirdOfDigits(second: byte, third: byte)
    ensures Byte2(Digit2(second, third), Digit3(third)) == third
  {
    Bits2And4(third / 64, second % 16);
  }

  lemma DigitsOfFirst(a: digit, b: digit)
    ensures Byte0(a, b) / 4 == a && Byte0(a, b) % 4 == b / 16
  {
    Bits6And2(a, b / 16);
  }

  lemma DigitsOfSecond(b: digit, c: digit)
    ensures Byte1(b, c) / 16 == b % 16 && Byte1(b, c) % 16 == c / 4
  {
    Bits2And4(b / 16, b % 16);
    Bits4And4(b % 16, c / 4);
  }

  lemma DigitsOfThird(c: digit, d: digit)
    ensures Byte2(c, d) / 64 == c % 4 && Byte2(c, d) % 64 == d
  {
    Bits2And4(c % 4, c / 4);
    Bits6And2(d, c % 4);
  }

  // ---------- encoding ----------

  function ByteOrZero(chunk: seq<byte>, i: nat): byte {
    if i < |chunk| then chunk[i] else 0
  }

  function Quad(chunk: seq<byte>): (q: seq<byte>)
    requires 1 <= |chunk| <= 3
    ensures |q| == 4
  {
    var first, second, third := chunk[0], ByteOrZero(chunk, 1), ByteOrZero(chunk, 2);
    [Symbol(Digit0(first)), Symbol(Digit1(first, second)),
     if |chunk| > 1 then Symbol(Digit2(second, third)) else PAD,
     if |chunk| > 2 then Symbol(Digit3(third)) else PAD]
  }

  function ChunkSize(n: nat): nat {
    if n < 3 then n else 3
  }

  function Encode(bytes: seq<byte>): seq<byte> {
    if bytes == [] then []
    else
      var n := ChunkSize(|bytes|);
      Quad(bytes[..n]) + Encode(bytes[n..])
  }

  method EncodeChunks(bytes: seq<byte>) returns (output: seq<byte>)
    ensures output == Encode(bytes)
  {
    output := [];
    var i := 0;
    while i < |bytes|
      invariant 0 <= i <= |bytes|
      invariant output + Encode(bytes[i..]) == Encode(bytes)
    {
      var n := ChunkSize(|bytes| - i);
      assert bytes[i..][..n] == bytes[i..i + n] && bytes[i..][n..] == bytes[i + n..];
      ghost var rest := Encode(bytes[i + n..]);
      assert output + (Quad(bytes[i..i + n]) + rest) == (output + Quad(bytes[i..i + n])) + rest;
      output := output + Quad(bytes[i..i + n]);
      i := i + n;
    }
  }

  /** A quad read as a number in base 64, padding counting zero. */
  function Base64Number(q: seq<byte>): int
    requires |q| == 4
  {
    ((DigitOrZero(q[0]) * 64 + DigitOrZero(q[1])) * 64 + DigitOrZero(q[2])) * 64 + DigitOrZero(q[3])
  }

  function DigitOrZero(b: byte): int {
    if b == PAD then 0 else DigitOf(b)
  }

  lemma DigitsOfQuad(chunk: seq<byte>)
    requires 1 <= |chunk| <= 3
    ensures var q := Quad(chunk);
            && DigitOf(q[0]) == Digit0(chunk[0]) && DigitOf(q[1]) == Digit1(chunk[0], ByteOrZero(chunk, 1))
            && (if |chunk| > 1 then DigitOf(q[2]) == Digit2(chunk[1], ByteOrZero(chunk, 2)) && q[2] != PAD
                else q[2] == PAD)
            && (if |chunk| > 2 then DigitOf(q[3]) == Digit3(chunk[2]) && q[3] != PAD else q[3] == PAD)
  {
    var first, second, third := chunk[0], ByteOrZero(chunk, 1), ByteOrZero(chunk, 2);
    DigitOfSymbol(Symbol(Digit0(first)), Digit0(first));
    DigitOfSymbol(Symbol(Digit1(first, second)), Digit1(first, second));
    DigitOfSymbol(Symbol(Digit2(second, third)), Digit2(second, third));
    DigitOfSymbol(Symbol(Digit3(third)), Digit3(third));
  }

  /** A quad is its three bytes as one 24-bit number, missing bytes counting zero and shown as padding. */
  lemma QuadMeaning(chunk: seq<byte>)
    requires 1 <= |chunk| <= 3
    ensures Base64Number(Quad(chunk)) == (chunk[0] * 256 + ByteOrZero(chunk, 1)) * 256 + ByteOrZero(chunk, 2)
    ensures Quad(chunk)[2] == PAD <==> |chunk| == 1
    ensures Quad(chunk)[3] == PAD <==> |chunk| <= 2
  {
    DigitsOfQuad(chunk);
  }

  lemma {:induction false} EncodedLength(bytes: seq<byte>)
    ensures |Encode(bytes)| == 4 * ((|bytes| + 2) / 3) && |Encode(bytes)| % 4 == 0
  {
    if bytes != [] {
      EncodedLength(bytes[ChunkSize(|bytes|)..]);
      Thirds(|bytes|);
    }
  }

  lemma Thirds(n: nat)
    requires n > 0
    ensures (n + 2) / 3 == 1 + (n - ChunkSize(n) + 2) / 3
  {
  }

  // ---------- decoding ----------

  /** Reads one quad. Padding may only be trailing; spare bits are not looked at here. */
  function DecodeQuad(q: seq<byte>): Option<seq<byte>>
    requires |q| == 4
  {
    var a, b := DigitOf(q[0]), DigitOf(q[1]);
    if a == NO_DIGIT || b == NO_DIGIT then None
    else
      var c := if q[2] == PAD then 0 else DigitOf(q[2]);
      var d := if q[3] == PAD then 0 else DigitOf(q[3]);
      if c == NO_DIGIT || d == NO_DIGIT || (q[2] == PAD && q[3] != PAD) then None
      else Some([Byte0(a, b)] + (if q[2] != PAD then [Byte1(b, c)] else [])
                + (if q[3] != PAD then [Byte2(c, d)] else []))
  }

  /** Reads full quads; a shorter remainder is ignored. */
  function DecodeQuads(text: seq<byte>): Option<seq<byte>> {
    if |text| < 4 then Some([])
    else
      var first, rest := DecodeQuad(text[..4]), DecodeQuads(text[4..]);
      if first.None? || rest.None? then None else Some(first.value + rest.value)
  }

  function Decode(text: seq<byte>): Option<seq<byte>> {
    if |text| % 4 != 0 then None
    else
      var read := DecodeQuads(text);
      if read.None? || Encode(read.value) != text then None else read
  }

  /** Inverts the alphabet; every other byte maps to 255. */
  method BuildTable() returns (table: array<byte>)
    ensures fresh(table) && table.Length == 256
    ensures forall b: byte :: table[b] == DigitOf(b)
  {
    table := new byte[256](_ => NO_DIGIT);
    var i := 0;
    while i < 64
      invariant 0 <= i <= 64 && fresh(table)
      invariant forall b: byte :: table[b] == if DigitOf(b) < i then DigitOf(b) else NO_DIGIT
    {
      table[Symbol(i)] := i;
      forall b: byte ensures table[b] == if DigitOf(b) < i + 1 then DigitOf(b) else NO_DIGIT {
        DigitOfSymbol(b, i);
      }
      i := i + 1;
    }
  }

  method ReadQuad(table: array<byte>, q: seq<byte>) returns (r: Option<seq<byte>>)
    requires |q| == 4 && table.Length == 256 && forall b: byte :: table[b] == DigitOf(b)
    ensures r == DecodeQuad(q)
  {
    var a, b := table[q[0]], table[q[1]];
    if a == NO_DIGIT || b == NO_DIGIT {
      return None;
    }
    var c := if q[2] == PAD then 0 else table[q[2]];
    var d := if q[3] == PAD then 0 else table[q[3]];
    if c == NO_DIGIT || d == NO_DIGIT || (q[2] == PAD && q[3] != PAD) {
      return None;
    }
    var output := [Byte0(a, b)];
    if q[2] != PAD {
      output := output + [Byte1(b, c)];
    }
    if q[3] != PAD {
      output := output + [Byte2(c, d)];
    }
    assert output
      == [Byte0(a, b)] + (if q[2] != PAD then [Byte1(b, c)] else []) + (if q[3] != PAD then [Byte2(c, d)] else []);
    return Some(output);
  }

  method ReadQuads(text: seq<byte>) returns (r: Option<seq<byte>>)
    ensures r == DecodeQuads(text)
  {
    var table := BuildTable();
    var output: seq<byte> := [];
    var i := 0;
    assert text[0..] == text;
    PrependNothing(DecodeQuads(text));
    while i + 4 <= |text|
      invariant 0 <= i <= |text|
      invariant forall b: byte :: table[b] == DigitOf(b)
      invariant Prepend(output, DecodeQuads(text[i..])) == DecodeQuads(text)
    {
      DecodeRest(text, i);
      var chunk := ReadQuad(table, text[i..i + 4]);
      if chunk.None? {
        return None;
      }
      PrependStep(output, chunk.value, DecodeQuads(text[i + 4..]));
      output := output + chunk.value;
      i := i + 4;
    }
    assert output + [] == output;
    return Some(output);
  }

  lemma DecodeRest(text: seq<byte>, i: nat)
    requires i + 4 <= |text|
    ensures DecodeQuads(text[i..]) ==
            if DecodeQuad(text[i..i + 4]).None? then None
            else Prepend(DecodeQuad(text[i..i + 4]).value, DecodeQuads(text[i + 4..]))
  {
    assert text[i..][..4] == text[i..i + 4] && text[i..][4..] == text[i + 4..];
  }

  method DecodeText(text: seq<byte>) returns (r: Option<seq<byte>>)
    ensures r == Decode(text)
  {
    if |text| % 4 != 0 {
      return None;
    }
    r := ReadQuads(text);
    if r.Some? {
      var again := EncodeChunks(r.value);
      if again != text {
        return None;
      }
    }
  }

  function Prepend(output: seq<byte>, rest: Option<seq<byte>>): Option<seq<byte>> {
    if rest.None? then None else Some(output + rest.value)
  }

  lemma PrependNothing(rest: Option<seq<byte>>)
    ensures Prepend([], rest) == rest
  {
    if rest.Some? {
      assert [] + rest.value == rest.value;
    }
  }

  lemma PrependStep(before: seq<byte>, chunk: seq<byte>, rest: Option<seq<byte>>)
    ensures Prepend(before, Prepend(chunk, rest)) == Prepend(before + chunk, rest)
  {
    if rest.Some? {
      assert before + (chunk + rest.value) == before + chunk + rest.value;
    }
  }

  // ---------- the two are inverse ----------

  lemma QuadRoundTrip(chunk: seq<byte>)
    requires 1 <= |chunk| <= 3
    ensures DecodeQuad(Quad(chunk)) == Some(chunk)
  {
    DigitsOfQuad(chunk);
    var first, second, third := chunk[0], ByteOrZero(chunk, 1), ByteOrZero(chunk, 2);
    FirstOfDigits(first, second);
    SecondOfDigits(first, second, third);
    ThirdOfDigits(second, third);
    DigitsDecode(Quad(chunk), chunk, Digit0(first), Digit1(first, second), Digit2(second, third), Digit3(third));
  }

  lemma DigitsDecode(q: seq<byte>, chunk: seq<byte>, a: digit, b: digit, c: digit, d: digit)
    requires |q| == 4 && 1 <= |chunk| <= 3
    requires DigitOf(q[0]) == a && DigitOf(q[1]) == b && Byte0(a, b) == chunk[0]
    requires if |chunk| > 1 then q[2] != PAD && DigitOf(q[2]) == c && Byte1(b, c) == chunk[1] else q[2] == PAD
    requires if |chunk| > 2 then q[3] != PAD && DigitOf(q[3]) == d && Byte2(c, d) == chunk[2] else q[3] == PAD
    ensures DecodeQuad(q) == Some(chunk)
  {
    if |chunk| == 1 {
      assert chunk == [Byte0(a, b)] + [] + [];
    } else if |chunk| == 2 {
      assert chunk == [Byte0(a, b)] + [Byte1(b, c)] + [];
    } else {
      assert chunk == [Byte0(a, b)] + [Byte1(b, c)] + [Byte2(c, d)];
    }
  }

  lemma DecodeFirst(q: seq<byte>, rest: seq<byte>, chunk: seq<byte>, bytes: seq<byte>)
    requires |q| == 4
    requires DecodeQuad(q) == Some(chunk) && DecodeQuads(rest) == Some(bytes)
    ensures DecodeQuads(q + rest) == Some(chunk + bytes)
  {
    assert (q + rest)[..4] == q && (q + rest)[4..] == rest;
  }

  lemma FirstRoundTrip(chunk: seq<byte>, rest: seq<byte>, bytes: seq<byte>)
    requires 1 <= |chunk| <= 3 && DecodeQuads(rest) == Some(bytes)
    ensures DecodeQuads(Quad(chunk) + rest) == Some(chunk + bytes)
  {
    QuadRoundTrip(chunk);
    DecodeFirst(Quad(chunk), rest, chunk, bytes);
  }

  lemma {:induction false} QuadsRoundTrip(bytes: seq<byte>)
    ensures DecodeQuads(Encode(bytes)) == Some(bytes)
  {
    if bytes != [] {
      var n := ChunkSize(|bytes|);
      var chunk, tail := bytes[..n], bytes[n..];
      QuadsRoundTrip(tail);
      FirstRoundTrip(chunk, Encode(tail), tail);
      assert chunk + tail == bytes;
    }
  }

  /** Decoding gives bytes back exactly from the text that encodes them, for every text and all bytes. */
  lemma DecodeInvertsEncode(text: seq<byte>, bytes: seq<byte>)
    ensures Decode(text) == Some(bytes) <==> text == Encode(bytes)
  {
    QuadsRoundTrip(bytes);
    EncodedLength(bytes);
  }

  /** The canonical texts: full quads, then at most one padded quad whose spare bits are zero. */
  predicate CanonicalText(text: seq<byte>) {
    if text == [] then true
    else if |text| < 4 then false
    else if |text| == 4 then FullQuad(text) || PaddedQuad(text)
    else FullQuad(text[..4]) && CanonicalText(text[4..])
  }

  predicate FullQuad(q: seq<byte>)
    requires |q| == 4
  {
    forall i :: 0 <= i < 4 ==> DigitOf(q[i]) != NO_DIGIT
  }

  predicate PaddedQuad(q: seq<byte>)
    requires |q| == 4
  {
    && DigitOf(q[0]) != NO_DIGIT && DigitOf(q[1]) != NO_DIGIT && q[3] == PAD
    && if q[2] == PAD then DigitOf(q[1]) % 16 == 0 else DigitOf(q[2]) != NO_DIGIT && DigitOf(q[2]) % 4 == 0
  }

  /** The quads the encoder writes, and the only ones. */
  lemma QuadIsCanonical(chunk: seq<byte>)
    requires 1 <= |chunk| <= 3
    ensures if |chunk| == 3 then FullQuad(Quad(chunk)) else PaddedQuad(Quad(chunk))
  {
    DigitsOfQuad(chunk);
  }

  lemma CanonicalQuad(q: seq<byte>) returns (chunk: seq<byte>)
    requires |q| == 4 && (FullQuad(q) || PaddedQuad(q))
    ensures 1 <= |chunk| <= 3 && Quad(chunk) == q && (FullQuad(q) ==> |chunk| == 3)
  {
    forall i | 0 <= i < 4 && DigitOf(q[i]) != NO_DIGIT ensures Symbol(DigitOf(q[i])) == q[i] {
      DigitOfSymbol(q[i], DigitOf(q[i]));
    }
    var a, b := DigitOf(q[0]), DigitOf(q[1]);
    var c := if q[2] == PAD then 0 else DigitOf(q[2]);
    var d := if q[3] == PAD then 0 else DigitOf(q[3]);
    DigitsOfFirst(a, b);
    DigitsOfSecond(b, c);
    DigitsOfThird(c, d);
    if q[2] == PAD {
      chunk := [Byte0(a, b)];
    } else if q[3] == PAD {
      chunk := [Byte0(a, b), Byte1(b, c)];
    } else {
      chunk := [Byte0(a, b), Byte1(b, c), Byte2(c, d)];
    }
  }

  lemma {:induction false} EncodingIsCanonical(bytes: seq<byte>)
    ensures CanonicalText(Encode(bytes))
  {
    if bytes != [] {
      var n := ChunkSize(|bytes|);
      QuadIsCanonical(bytes[..n]);
      EncodingIsCanonical(bytes[n..]);
      var q, rest := Quad(bytes[..n]), Encode(bytes[n..]);
      assert (q + rest)[..4] == q && (q + rest)[4..] == rest;
      assert rest == [] ==> q + rest == q;
      assert n < 3 ==> bytes[n..] == [];
    }
  }

  lemma {:induction false} CanonicalIsEncoding(text: seq<byte>) returns (bytes: seq<byte>)
    requires CanonicalText(text)
    ensures text == Encode(bytes)
  {
    if text == [] {
      bytes := [];
    } else {
      var rest := CanonicalIsEncoding(text[4..]);
      var chunk := CanonicalQuad(text[..4]);
      assert |text| == 4 ==> text[..4] == text;
      bytes := chunk + rest;
      if |text| == 4 {
        EncodedLength(rest);
        assert rest == [];
      }
      assert bytes[..ChunkSize(|bytes|)] == chunk && bytes[ChunkSize(|bytes|)..] == rest;
      assert text == text[..4] + text[4..];
    }
  }

  /** The decoder accepts exactly the canonical texts. */
  lemma DecodeAccepts(text: seq<byte>)
    ensures Decode(text).Some? <==> CanonicalText(text)
  {
    if Decode(text).Some? {
      DecodeInvertsEncode(text, Decode(text).value);
      EncodingIsCanonical(Decode(text).value);
    }
    if CanonicalText(text) {
      var bytes := CanonicalIsEncoding(text);
      DecodeInvertsEncode(text, bytes);
    }
  }
}
