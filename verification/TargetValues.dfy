/**
 Target values on the wire: fixed-width big-endian bytes, the decimal text operators type,
 and the check both ends make that a value fits the field.
 */
module TargetValues {
  import opened Bits
  import opened Wrappers

  // ---------- big-endian numbers ----------

  function BigEndian(bytes: seq<byte>): nat {
    if bytes == [] then 0 else 256 * BigEndian(bytes[..|bytes| - 1]) + bytes[|bytes| - 1]
  }

  /** The lowest `width` bytes of `n`. */
  function ToBytes(n: nat, width: nat): (bytes: seq<byte>)
    ensures |bytes| == width
  {
    if width == 0 then [] else ToBytes(n / 256, width - 1) + [n % 256]
  }

  lemma {:induction false} BigEndianBound(bytes: seq<byte>)
    ensures BigEndian(bytes) < Pow2(8 * |bytes|)
  {
    if bytes != [] {
      BigEndianBound(bytes[..|bytes| - 1]);
      Pow2Add(8 * (|bytes| - 1), 8);
      Pow2Values();
    }
  }

  lemma {:induction false} BigEndianSplit(a: seq<byte>, b: seq<byte>)
    ensures BigEndian(a + b) == BigEndian(a) * Pow2(8 * |b|) + BigEndian(b)
  {
    if b == [] {
      assert a + b == a;
      assert Pow2(0) == 1;
    } else {
      var init, last := b[..|b| - 1], b[|b| - 1];
      assert (a + b)[..|a + b| - 1] == a + init;
      BigEndianSplit(a, init);
      PowerOfBytes(|init|);
      AppendByte(BigEndian(a), Pow2(8 * |init|), BigEndian(init), last);
    }
  }

  lemma PowerOfBytes(n: nat)
    ensures Pow2(8 * (n + 1)) == 256 * Pow2(8 * n)
  {
    Pow2Add(8, 8 * n);
    Pow2Values();
  }

  lemma AppendByte(x: nat, p: nat, y: nat, last: byte)
    ensures 256 * (x * p + y) + last == x * (256 * p) + (256 * y + last)
  {
  }

  lemma {:induction false} ToBytesValue(n: nat, width: nat)
    requires n < Pow2(8 * width)
    ensures BigEndian(ToBytes(n, width)) == n
  {
    if width == 0 {
      assert Pow2(0) == 1;
    } else {
      Pow2Add(8 * (width - 1), 8);
      Pow2Values();
      ToBytesValue(n / 256, width - 1);
      assert ToBytes(n, width)[..width - 1] == ToBytes(n / 256, width - 1);
    }
  }

  /** A width and a value determine the bytes. */
  lemma {:induction false} BigEndianInjective(bytes: seq<byte>)
    ensures ToBytes(BigEndian(bytes), |bytes|) == bytes
  {
    if bytes != [] {
      BigEndianInjective(bytes[..|bytes| - 1]);
      assert bytes == bytes[..|bytes| - 1] + [bytes[|bytes| - 1]];
    }
  }

  /** Reads at most eight bytes as a number by shifting them in. */
  method BytesToU64(bytes: seq<byte>) returns (r: Option<u64>)
    ensures r == U64Value(bytes)
  {
    if |bytes| > 8 {
      return None;
    }
    var value: u64 := 0;
    var i := 0;
    while i < |bytes|
      invariant 0 <= i <= |bytes|
      invariant value == BigEndian(bytes[..i])
    {
      assert bytes[..i + 1][..i] == bytes[..i];
      BigEndianBound(bytes[..i]);
      BigEndianBound(bytes[..i + 1]);
      Pow2Monotone(8 * (i + 1), 64);
      Pow2Values();
      assert ShiftLeft(value, 8) == value * 256;
      value := ShiftLeft(value, 8) + bytes[i];
      i := i + 1;
    }
    assert bytes[..i] == bytes;
    return Some(value);
  }

  function U64Value(bytes: seq<byte>): (r: Option<u64>) {
    if |bytes| > 8 then None
    else
      BigEndianBound(bytes);
      Pow2Monotone(8 * |bytes|, 64);
      Pow2Values();
      Some(BigEndian(bytes))
  }

  /** The bytes a packet field of `bits` bits is held in. */
  function IntegerBytes(value: u64, bits: nat): (r: seq<byte>)
    requires 1 <= bits <= 64
    ensures |r| == (bits + 7) / 8
  {
    var length := (bits + 7) / 8;
    ToBytes(value, 8)[8 - length..]
  }

  lemma {:induction false} ToBytesTail(n: nat, width: nat, k: nat)
    requires k <= width && n < Pow2(8 * k)
    ensures ToBytes(n, width)[width - k..] == ToBytes(n, k)
  {
    if k == 0 {
    } else {
      Pow2Add(8 * (k - 1), 8);
      Pow2Values();
      ToBytesTail(n / 256, width - 1, k - 1);
    }
  }

  /** A wider form is the narrow one with zero bytes in front. */
  lemma {:induction false} ToBytesWide(n: nat, k: nat, z: nat)
    requires n < Pow2(8 * k)
    ensures ToBytes(n, z + k) == ToBytes(0, z) + ToBytes(n, k)
  {
    if k == 0 {
      assert ToBytes(0, z) + [] == ToBytes(0, z);
    } else {
      PowerOfBytes(k - 1);
      ToBytesWide(n / 256, k - 1, z);
    }
  }

  lemma {:induction false} ZeroForm(z: nat)
    ensures forall i :: 0 <= i < z ==> ToBytes(0, z)[i] == 0
  {
    if z > 0 {
      ZeroForm(z - 1);
    }
  }

  /** A field value below 2^bits is kept exactly. */
  lemma IntegerBytesValue(value: u64, bits: nat)
    requires 1 <= bits <= 64 && value < Pow2(bits)
    ensures BigEndian(IntegerBytes(value, bits)) == value
  {
    var length := (bits + 7) / 8;
    Pow2Monotone(bits, 8 * length);
    ToBytesTail(value, 8, length);
    ToBytesValue(value, length);
  }

  // ---------- the receiver's width check ----------

  /** Whether `bytes` holds a value of `fieldLength` bits: the bits above it must be zero. */
  predicate BinaryFits(bytes: seq<byte>, fieldLength: u64) {
    if 8 * |bytes| >= U64_LIMIT then false
    else
      var storage := 8 * |bytes|;
      if fieldLength == 0 || fieldLength > storage then false
      else
        var excess := storage - fieldLength;
        TopBitsClear(bytes, excess / 8, excess % 8)
  }

  /** The first `whole` bytes are zero, and so are the top `remaining` bits of the next one. */
  predicate TopBitsClear(bytes: seq<byte>, whole: nat, remaining: nat)
    requires whole <= |bytes| && remaining < 8
  {
    if exists i :: 0 <= i < whole && bytes[i] != 0 then false
    else if remaining == 0 || whole >= |bytes| then true
    else HighBitsZero(bytes[whole], remaining)
  }

  /** `b & (0xff << (8 - n)) == 0`: the top `n` bits of the byte are clear. */
  predicate HighBitsZero(b: byte, n: nat)
    requires n <= 8
  {
    b / Pow2(8 - n) == 0
  }

  lemma {:induction false} ZeroBytes(bytes: seq<byte>)
    ensures BigEndian(bytes) == 0 <==> forall i :: 0 <= i < |bytes| ==> bytes[i] == 0
  {
    if bytes != [] {
      var init, last := bytes[..|bytes| - 1], bytes[|bytes| - 1];
      ZeroBytes(init);
      if BigEndian(bytes) == 0 {
        assert BigEndian(init) == 0 && last == 0;
        forall i | 0 <= i < |bytes| ensures bytes[i] == 0 {
          assert i < |init| ==> bytes[i] == init[i];
        }
      } else if BigEndian(init) != 0 {
        var i :| 0 <= i < |init| && init[i] != 0;
        assert bytes[i] != 0;
      }
    }
  }

  /** `hi * unit + lo` stays below `bound * unit` exactly when `hi` stays below `bound`. */
  lemma HighPartDecides(hi: nat, lo: nat, unit: nat, bound: nat)
    requires lo < unit
    ensures hi * unit + lo < bound * unit <==> hi < bound
  {
    if hi < bound {
      MulMonotone(hi + 1, bound, unit);
      Distribute(hi, unit);
    } else {
      MulMonotone(bound, hi, unit);
    }
  }

  /** With zero bytes in front, the value is that of the rest; otherwise it is out of reach. */
  lemma LeadingZeros(bytes: seq<byte>, whole: nat, fieldLength: nat)
    requires whole <= |bytes| && fieldLength <= 8 * (|bytes| - whole)
    ensures (exists i :: 0 <= i < whole && bytes[i] != 0) ==> BigEndian(bytes) >= Pow2(fieldLength)
    ensures (forall i :: 0 <= i < whole ==> bytes[i] == 0) ==> BigEndian(bytes) == BigEndian(bytes[whole..])
  {
    var top, rest := bytes[..whole], bytes[whole..];
    assert bytes == top + rest;
    BigEndianSplit(top, rest);
    ZeroBytes(top);
    assert forall i :: 0 <= i < whole ==> top[i] == bytes[i];
    if BigEndian(top) != 0 {
      MulMonotone(1, BigEndian(top), Pow2(8 * |rest|));
      Pow2Monotone(fieldLength, 8 * |rest|);
    } else {
      assert 0 * Pow2(8 * |rest|) == 0;
    }
  }

  /** The bits above the field are `whole` bytes and `remaining` bits of the next one. */
  lemma FitsWithin(bytes: seq<byte>, fieldLength: nat, whole: nat, remaining: nat)
    requires fieldLength > 0 && remaining < 8 && 8 * |bytes| == fieldLength + 8 * whole + remaining
    ensures whole < |bytes|
    ensures BigEndian(bytes) < Pow2(fieldLength) <==> TopBitsClear(bytes, whole, remaining)
  {
    var rest := bytes[whole..];
    LeadingZeros(bytes, whole, fieldLength);
    BigEndianBound(rest);
    if remaining != 0 {
      TopByteDecides(rest, remaining);
      assert rest[0] == bytes[whole];
    }
  }

  /** The check is exactly the numeric one. */
  lemma BinaryFitsMeaning(bytes: seq<byte>, fieldLength: u64)
    ensures BinaryFits(bytes, fieldLength) <==>
            && 8 * |bytes| < U64_LIMIT
            && 0 < fieldLength <= 8 * |bytes|
            && BigEndian(bytes) < Pow2(fieldLength)
  {
    if 8 * |bytes| < U64_LIMIT && 0 < fieldLength <= 8 * |bytes| {
      InBytes(8 * |bytes| - fieldLength, |bytes|);
      FitsWithin(bytes, fieldLength, (8 * |bytes| - fieldLength) / 8, (8 * |bytes| - fieldLength) % 8);
    }
  }

  lemma InBytes(bits: nat, n: nat)
    requires bits <= 8 * n
    ensures bits == 8 * (bits / 8) + bits % 8
    ensures bits / 8 <= n
  {
  }

  lemma TopByteDecides(rest: seq<byte>, remaining: nat)
    requires rest != [] && 0 < remaining < 8
    ensures HighBitsZero(rest[0], remaining) <==> BigEndian(rest) < Pow2(8 * |rest| - remaining)
  {
    var tail := rest[1..];
    assert rest == [rest[0]] + tail;
    BigEndianSplit([rest[0]], tail);
    assert BigEndian([rest[0]]) == rest[0] by { assert [rest[0]][..0] == []; }
    BigEndianBound(tail);
    Pow2Add(8 - remaining, 8 * |tail|);
    HighPartDecides(rest[0], BigEndian(tail), Pow2(8 * |tail|), Pow2(8 - remaining));
    QuotientIs(rest[0], Pow2(8 - remaining), 0);
  }

  // ---------- decimal text ----------

  predicate IsDigit(c: char) { '0' <= c <= '9' }

  predicate IsDecimal(input: string) {
    input != "" && forall i :: 0 <= i < |input| ==> IsDigit(input[i])
  }

  function DecimalValue(input: string): nat
    requires forall i :: 0 <= i < |input| ==> IsDigit(input[i])
  {
    if input == "" then 0
    else
      assert IsDigit(input[|input| - 1]);
      10 * DecimalValue(input[..|input| - 1]) + (input[|input| - 1] as int - '0' as int)
  }

  function ToDecimal(n: nat): (s: string)
    ensures IsDecimal(s)
  {
    var digit := ((n % 10) + '0' as int) as char;
    if n < 10 then [digit] else ToDecimal(n / 10) + [digit]
  }

  function Pow10(n: nat): (p: nat)
    ensures p >= 1
  {
    if n == 0 then 1 else 10 * Pow10(n - 1)
  }

  /** Digits are worth their place: what stands on the left counts ten times as much for each digit on its right. */
  lemma {:induction false} DecimalPlaces(left: string, right: string)
    requires forall i :: 0 <= i < |left| ==> IsDigit(left[i])
    requires forall i :: 0 <= i < |right| ==> IsDigit(right[i])
    ensures forall i :: 0 <= i < |left + right| ==> IsDigit((left + right)[i])
    ensures DecimalValue(left + right) == DecimalValue(left) * Pow10(|right|) + DecimalValue(right)
  {
    if right == "" {
      assert left + right == left;
    } else {
      var init := right[..|right| - 1];
      assert forall i :: 0 <= i < |init| ==> init[i] == right[i];
      DecimalPlaces(left, init);
      assert (left + right)[..|left + right| - 1] == left + init;
      TenTimes(DecimalValue(left), Pow10(|init|), DecimalValue(init), right[|right| - 1] as int - '0' as int);
    }
  }

  lemma TenTimes(x: nat, p: nat, y: nat, digit: int)
    ensures 10 * (x * p + y) + digit == x * (10 * p) + (10 * y + digit)
  {
  }

  lemma OneDigit(c: char)
    requires IsDigit(c)
    ensures DecimalValue([c]) == c as int - '0' as int
  {
    assert [c][..0] == "";
  }

  /** Printing and parsing a number are inverse. */
  lemma {:induction false} DecimalRoundTrip(n: nat)
    ensures DecimalValue(ToDecimal(n)) == n
  {
    var s := ToDecimal(n);
    if n < 10 {
      assert s[..0] == "";
    } else {
      DecimalRoundTrip(n / 10);
      assert s[..|s| - 1] == ToDecimal(n / 10);
    }
  }

  // ---------- the sender's conversion ----------

  /** Which decimal values a target of `width` bytes in a field of `fieldLength` bits can take. */
  predicate Representable(number: nat, width: nat, fieldLength: Option<u64>) {
    && 0 < width && 8 * width < U64_LIMIT
    && number < U64_LIMIT
    && number < Pow2(8 * width)
    && (fieldLength.Some? ==> fieldLength.value != 0 && number < Pow2(fieldLength.value))
  }

  /** What the conversion must produce: the number in exactly the existing width. */
  function NumericTarget(input: string, current: seq<byte>, fieldLength: Option<u64>): Option<seq<byte>> {
    if IsDecimal(input) && Representable(DecimalValue(input), |current|, fieldLength)
    then Some(ToBytes(DecimalValue(input), |current|))
    else None
  }

  lemma BeyondWord(number: u64, bits: nat)
    requires bits >= 64
    ensures number < Pow2(bits)
  {
    Pow2Monotone(64, bits);
    Pow2Values();
  }

  /** Parses the text, checks it against the existing width and the field, and fills a buffer from its end. */
  method NumericTargetValue(input: string, current: seq<byte>, fieldLength: Option<u64>) returns (r: Option<seq<byte>>)
    ensures r == NumericTarget(input, current, fieldLength)
  {
    if input == "" || exists i :: 0 <= i < |input| && !IsDigit(input[i]) {
      return None;
    }
    var number := DecimalValue(input);
    if number >= U64_LIMIT || current == [] || 8 * |current| >= U64_LIMIT {
      return None;
    }
    var storageBits := 8 * |current|;
    if storageBits < 64 && number >= Pow2(storageBits) {
      return None;
    }
    if fieldLength.Some? {
      var bits := fieldLength.value;
      if bits == 0 || (bits < 64 && number >= Pow2(bits)) {
        return None;
      }
      if bits >= 64 { BeyondWord(number, bits); }
    }
    if storageBits >= 64 { BeyondWord(number, storageBits); }
    var bytes := FillFromEnd(number, |current|);
    return Some(bytes);
  }

  /** Writes the low byte of what remains at each position from the last to the first. */
  method FillFromEnd(number: nat, width: nat) returns (r: seq<byte>)
    ensures r == ToBytes(number, width)
  {
    var bytes := new byte[width];
    var remaining := number;
    var i := width;
    assert bytes[width..] == [];
    while i > 0
      invariant 0 <= i <= width
      invariant ToBytes(number, width) == ToBytes(remaining, i) + bytes[i..]
    {
      i := i - 1;
      bytes[i] := remaining % 256;
      assert ToBytes(remaining, i + 1) == ToBytes(remaining / 256, i) + [remaining % 256];
      assert bytes[i..] == [bytes[i]] + bytes[i + 1..];
      remaining := remaining / 256;
    }
    assert bytes[0..] == bytes[..];
    r := bytes[..];
  }

  /** What the sender converts, the receiver accepts: same width, the parsed number, and fitting
      the field whenever the value it replaces fits it. */
  lemma SenderMeetsValidator(input: string, current: seq<byte>, fieldLength: u64)
    requires BinaryFits(current, fieldLength)
    requires NumericTarget(input, current, Some(fieldLength)).Some?
    ensures var bytes := NumericTarget(input, current, Some(fieldLength)).value;
            && |bytes| == |current|
            && BigEndian(bytes) == DecimalValue(input)
            && BinaryFits(bytes, fieldLength)
  {
    var bytes := NumericTarget(input, current, Some(fieldLength)).value;
    ToBytesValue(DecimalValue(input), |current|);
    BinaryFitsMeaning(current, fieldLength);
    BinaryFitsMeaning(bytes, fieldLength);
  }

  /** Conversely, whatever the receiver accepts in the existing width some decimal text produces. */
  lemma ValidatorMeetsSender(bytes: seq<byte>, current: seq<byte>, fieldLength: u64)
    requires |bytes| == |current| && BinaryFits(bytes, fieldLength) && BigEndian(bytes) < U64_LIMIT
    ensures NumericTarget(ToDecimal(BigEndian(bytes)), current, Some(fieldLength)) == Some(bytes)
  {
    BinaryFitsMeaning(bytes, fieldLength);
    DecimalRoundTrip(BigEndian(bytes));
    BigEndianBound(bytes);
    BigEndianInjective(bytes);
  }
}
