/**
 The byte-cost walker over an encoded CoAP datagram, against the message format of section 3 and the
 option format of section 3.1 of RFC 7252. The walker counts bytes; the reference below it says which
 message a datagram encodes.
 */
module Coap {
  import opened Bits
  import opened Wrappers
  import opened TargetValues

  datatype CoapOption = CoapOption(number: nat, value: seq<byte>)

  datatype CoapMessage = CoapMessage(token: seq<byte>, options: seq<CoapOption>, payload: seq<byte>)

  datatype OptionCost = OptionCost(number: nat, valueBytes: nat, headerBytes: nat, deltaExtensionBytes: nat,
                                   lengthExtensionBytes: nat, encodedBytes: nat)

  datatype CoapCost = CoapCost(baseHeaderBytes: nat, tokenBytes: nat, options: seq<OptionCost>,
                               payloadMarkerBytes: nat, payloadBytes: nat, totalBytes: nat)

  datatype ReportError = TooShort | TokenLength | MarkerWithoutPayload | Truncated | ReservedNibble
                       | NumberOverflow | OptionExceedsDatagram | FieldsDiffer | OptionDiffers

  const MARKER: byte := 255
  const EXTENDED_MAX: nat := 65804

  // ---------- the format ----------

  /** The four header bits of a delta or length. */
  function Nibble(v: nat): (n: nat)
    ensures n <= 14
  {
    if v < 13 then v else if v < 269 then 13 else 14
  }

  /** The bytes that extend it. */
  function Extension(v: nat): seq<byte>
    requires v <= EXTENDED_MAX
  {
    if v < 13 then [] else if v < 269 then [v - 13] else [(v - 269) / 256, (v - 269) % 256]
  }

  predicate OptionFits(o: CoapOption, previous: nat) {
    previous <= o.number <= U32_MAX && o.number - previous <= EXTENDED_MAX && |o.value| <= EXTENDED_MAX
  }

  function EncodeOption(o: CoapOption, previous: nat): (r: seq<byte>)
    requires OptionFits(o, previous)
    ensures r != []
  {
    [Nibble(o.number - previous) * 16 + Nibble(|o.value|)] + Extension(o.number - previous) + Extension(|o.value|)
      + o.value
  }

  predicate OptionsFit(options: seq<CoapOption>, previous: nat) {
    options != [] ==> OptionFits(options[0], previous) && OptionsFit(options[1..], options[0].number)
  }

  function EncodeOptions(options: seq<CoapOption>, previous: nat): seq<byte>
    requires OptionsFit(options, previous)
  {
    if options == [] then []
    else EncodeOption(options[0], previous) + EncodeOptions(options[1..], options[0].number)
  }

  function EncodePayload(payload: seq<byte>): seq<byte> {
    if payload == [] then [] else [MARKER] + payload
  }

  /** The datagram of a message whose other header fields are `kind` (version and type) and `rest`
      (code and message id). */
  function EncodeMessage(kind: nat, rest: seq<byte>, m: CoapMessage): seq<byte>
    requires kind < 16 && |rest| == 3 && |m.token| < 16 && OptionsFit(m.options, 0)
  {
    [kind * 16 + |m.token|] + rest + m.token + EncodeOptions(m.options, 0) + EncodePayload(m.payload)
  }

  /** The three forms of a delta or length: as it is, one byte above 13, two bytes in network order above 269. */
  lemma ExtensionMeaning(v: nat)
    requires v <= EXTENDED_MAX
    ensures v < 13 ==> Nibble(v) == v && Extension(v) == []
    ensures 13 <= v < 269 ==> Nibble(v) == 13 && |Extension(v)| == 1 && BigEndian(Extension(v)) + 13 == v
    ensures 269 <= v ==> Nibble(v) == 14 && |Extension(v)| == 2 && BigEndian(Extension(v)) + 269 == v
  {
    var e := Extension(v);
    if 13 <= v < 269 {
      assert e[..0] == [];
    } else if 269 <= v {
      TwoBytes(e[0], e[1]);
      Quotient(v - 269, 256);
    }
  }

  lemma TwoBytes(a: byte, b: byte)
    ensures BigEndian([a, b]) == 256 * (a as int) + b as int
  {
    assert [a, b][..1] == [a];
    assert BigEndian([a]) == a by { assert [a][..0] == []; }
  }

  /** The parts of an option in the order they are written: delta before length in the first byte and after it. */
  lemma OptionForm(o: CoapOption, previous: nat)
    requires OptionFits(o, previous)
    ensures var d, l := o.number - previous, |o.value|;
            var q := EncodeOption(o, previous);
            && q[0] / 16 == Nibble(d) && q[0] % 16 == Nibble(l)
            && q[1..] == Extension(d) + Extension(l) + o.value
  {
    HeaderByte(Nibble(o.number - previous), Nibble(|o.value|));
  }

  // ---------- what the walk reads ----------

  datatype Extended = Extended(value: nat, used: nat)

  datatype Step = Step(option: CoapOption, size: nat)

  datatype Parsed = Parsed(options: seq<CoapOption>, payload: seq<byte>)

  function ReadExtended(nibble: nat, bytes: seq<byte>): (r: Result<Extended, ReportError>)
    ensures r.Ok? ==> r.value.used <= |bytes|
  {
    if nibble <= 12 then Ok(Extended(nibble, 0))
    else if nibble == 13 then
      if |bytes| < 1 then Err(Truncated) else Ok(Extended(bytes[0] as int + 13, 1))
    else if nibble == 14 then
      if |bytes| < 2 then Err(Truncated) else Ok(Extended(bytes[0] as int * 256 + bytes[1] as int + 269, 2))
    else Err(ReservedNibble)
  }

  function ParseOption(bytes: seq<byte>, previous: nat): (r: Result<Step, ReportError>)
    requires bytes != []
    ensures r.Ok? ==> 1 <= r.value.size <= |bytes|
  {
    var delta := ReadExtended(bytes[0] / 16, bytes[1..]);
    if delta.Err? then Err(delta.error)
    else
      var at := 1 + delta.value.used;
      var length := ReadExtended(bytes[0] % 16, bytes[at..]);
      if length.Err? then Err(length.error)
      else
        var number := previous + delta.value.value;
        var start := at + length.value.used;
        if number > U32_MAX then Err(NumberOverflow)
        else if start + length.value.value > |bytes| then Err(OptionExceedsDatagram)
        else Ok(Step(CoapOption(number, bytes[start..start + length.value.value]), start + length.value.value))
  }

  function ParseOptions(bytes: seq<byte>, previous: nat): Result<Parsed, ReportError> {
    if bytes == [] then Ok(Parsed([], []))
    else if bytes[0] == MARKER then
      if |bytes| == 1 then Err(MarkerWithoutPayload) else Ok(Parsed([], bytes[1..]))
    else
      match ParseOption(bytes, previous)
      case Err(e) => Err(e)
      case Ok(step) => Before([step.option], ParseOptions(bytes[step.size..], step.option.number))
  }

  function Before(options: seq<CoapOption>, r: Result<Parsed, ReportError>): Result<Parsed, ReportError> {
    match r
    case Err(e) => Err(e)
    case Ok(p) => Ok(Parsed(options + p.options, p.payload))
  }

  // ---------- the format is read back exactly ----------

  lemma ExtensionRead(v: nat, tail: seq<byte>)
    requires v <= EXTENDED_MAX
    ensures ReadExtended(Nibble(v), Extension(v) + tail) == Ok(Extended(v, |Extension(v)|))
  {
    if v >= 269 {
      Quotient(v - 269, 256);
    }
  }

  lemma ReadIsExtension(nibble: nat, bytes: seq<byte>)
    requires ReadExtended(nibble, bytes).Ok?
    ensures var e := ReadExtended(nibble, bytes).value;
            && e.value <= EXTENDED_MAX && nibble == Nibble(e.value)
            && e.used == |Extension(e.value)| && bytes[..e.used] == Extension(e.value)
  {
    if nibble == 14 {
      QuotientIs(bytes[0] as int * 256 + bytes[1] as int, 256, bytes[0]);
    }
  }

  /** The header byte of an option is never the payload marker, and its two halves are the nibbles. */
  lemma HeaderByte(d: nat, l: nat)
    requires d <= 14 && l <= 14
    ensures 0 <= d * 16 + l < MARKER && (d * 16 + l) / 16 == d && (d * 16 + l) % 16 == l
  {
  }

  /** Where the parts of an option lie. */
  lemma OptionLayout(h: byte, d: seq<byte>, l: seq<byte>, value: seq<byte>, tail: seq<byte>)
    ensures var bytes := [h] + d + l + value + tail;
            && bytes[1..] == d + (l + value + tail)
            && bytes[1 + |d|..] == l + (value + tail)
            && bytes[1 + |d| + |l|..1 + |d| + |l| + |value|] == value
  {
  }

  lemma ParsedFromParts(bytes: seq<byte>, previous: nat, d: Extended, l: Extended)
    requires bytes != [] && 1 + d.used + l.used + l.value <= |bytes| && previous + d.value <= U32_MAX
    requires ReadExtended(bytes[0] / 16, bytes[1..]) == Ok(d)
    requires ReadExtended(bytes[0] % 16, bytes[1 + d.used..]) == Ok(l)
    ensures var start := 1 + d.used + l.used;
            ParseOption(bytes, previous)
            == Ok(Step(CoapOption(previous + d.value, bytes[start..start + l.value]), start + l.value))
  {
  }

  lemma PartsReadBack(nd: nat, nl: nat, ed: seq<byte>, el: seq<byte>, o: CoapOption, previous: nat, tail: seq<byte>)
    requires nd <= 14 && nl <= 14 && previous <= o.number <= U32_MAX
    requires ReadExtended(nd, ed + (el + o.value + tail)) == Ok(Extended(o.number - previous, |ed|))
    requires ReadExtended(nl, el + (o.value + tail)) == Ok(Extended(|o.value|, |el|))
    ensures ParseOption(([nd * 16 + nl] + ed + el + o.value) + tail, previous)
            == Ok(Step(o, |[nd * 16 + nl] + ed + el + o.value|))
  {
    HeaderByte(nd, nl);
    OptionLayout(nd * 16 + nl, ed, el, o.value, tail);
    ParsedFromParts([nd * 16 + nl] + ed + el + o.value + tail, previous,
                    Extended(o.number - previous, |ed|), Extended(|o.value|, |el|));
  }

  /** An encoded option is read as itself, whatever follows it. */
  lemma OptionReadBack(o: CoapOption, previous: nat, tail: seq<byte>)
    requires OptionFits(o, previous)
    ensures ParseOption(EncodeOption(o, previous) + tail, previous) == Ok(Step(o, |EncodeOption(o, previous)|))
  {
    var d, l := o.number - previous, |o.value|;
    var nd, nl, ed, el := Nibble(d), Nibble(l), Extension(d), Extension(l);
    ExtensionRead(d, el + o.value + tail);
    ExtensionRead(l, o.value + tail);
    var encoded := EncodeOption(o, previous);
    assert encoded == [nd * 16 + nl] + ed + el + o.value;
    assert ParseOption(encoded + tail, previous) == Ok(Step(o, |encoded|)) by {
      PartsReadBack(nd, nl, ed, el, o, previous, tail);
    }
  }

  lemma OptionIsNoMarker(o: CoapOption, previous: nat)
    requires OptionFits(o, previous)
    ensures EncodeOption(o, previous)[0] != MARKER
  {
    HeaderByte(Nibble(o.number - previous), Nibble(|o.value|));
  }

  /** The parts of a byte string that make up an option are its encoding. */
  lemma PartsEncoded(bytes: seq<byte>, o: CoapOption, previous: nat, du: nat, lu: nat)
    requires bytes != [] && OptionFits(o, previous) && 1 + du + lu + |o.value| <= |bytes|
    requires bytes[0] == Nibble(o.number - previous) * 16 + Nibble(|o.value|)
    requires bytes[1..][..du] == Extension(o.number - previous) && bytes[1 + du..][..lu] == Extension(|o.value|)
    requires bytes[1 + du + lu..1 + du + lu + |o.value|] == o.value
    ensures bytes[..1 + du + lu + |o.value|] == EncodeOption(o, previous)
  {
    var nd, nl, ed, el :=
      Nibble(o.number - previous), Nibble(|o.value|), Extension(o.number - previous), Extension(|o.value|);
    assert EncodeOption(o, previous) == [nd * 16 + nl] + ed + el + o.value;
    FourParts(bytes, nd * 16 + nl, ed, el, o.value, du, lu);
  }

  lemma FourParts(bytes: seq<byte>, h: byte, d: seq<byte>, l: seq<byte>, value: seq<byte>, du: nat, lu: nat)
    requires 1 + du + lu + |value| <= |bytes| && bytes[0] == h
    requires bytes[1..][..du] == d && bytes[1 + du..][..lu] == l
    requires bytes[1 + du + lu..1 + du + lu + |value|] == value
    ensures bytes[..1 + du + lu + |value|] == [h] + d + l + value
  {
    var end := 1 + du + lu + |value|;
    assert bytes[..end] == [bytes[0]] + bytes[1..][..du] + bytes[1 + du..][..lu] + bytes[1 + du + lu..end];
  }

  /** What is read as an option is that option's encoding. */
  lemma OptionWasEncoded(bytes: seq<byte>, previous: nat)
    requires bytes != [] && ParseOption(bytes, previous).Ok?
    ensures var step := ParseOption(bytes, previous).value;
            && OptionFits(step.option, previous)
            && bytes[..step.size] == EncodeOption(step.option, previous)
  {
    var delta := ReadExtended(bytes[0] / 16, bytes[1..]).value;
    var length := ReadExtended(bytes[0] % 16, bytes[1 + delta.used..]).value;
    ReadIsExtension(bytes[0] / 16, bytes[1..]);
    ReadIsExtension(bytes[0] % 16, bytes[1 + delta.used..]);
    Quotient(bytes[0], 16);
    PartsEncoded(bytes, ParseOption(bytes, previous).value.option, previous, delta.used, length.used);
  }

  /** A byte string is read as these options and this payload exactly when it is their encoding. */
  lemma {:induction false} ParsedIffEncoded(bytes: seq<byte>, previous: nat, options: seq<CoapOption>,
                                            payload: seq<byte>)
    ensures ParseOptions(bytes, previous) == Ok(Parsed(options, payload)) <==>
            OptionsFit(options, previous) && bytes == EncodeOptions(options, previous) + EncodePayload(payload)
  {
    if OptionsFit(options, previous) && bytes == EncodeOptions(options, previous) + EncodePayload(payload) {
      EncodedIsParsed(options, previous, payload);
    }
    if ParseOptions(bytes, previous) == Ok(Parsed(options, payload)) {
      ParsedIsEncoded(bytes, previous);
    }
  }

  lemma EncodeFirst(options: seq<CoapOption>, previous: nat, end: seq<byte>)
    requires options != [] && OptionsFit(options, previous)
    ensures EncodeOptions(options, previous) + end
            == EncodeOption(options[0], previous) + (EncodeOptions(options[1..], options[0].number) + end)
  {
  }

  lemma ParseFirst(first: seq<byte>, tail: seq<byte>, o: CoapOption, previous: nat)
    requires first != [] && first[0] != MARKER
    requires ParseOption(first + tail, previous) == Ok(Step(o, |first|))
    ensures ParseOptions(first + tail, previous) == Before([o], ParseOptions(tail, o.number))
  {
    assert (first + tail)[|first|..] == tail;
  }

  lemma ParseEncodedFirst(o: CoapOption, previous: nat, tail: seq<byte>)
    requires OptionFits(o, previous)
    ensures ParseOptions(EncodeOption(o, previous) + tail, previous) == Before([o], ParseOptions(tail, o.number))
  {
    OptionReadBack(o, previous, tail);
    OptionIsNoMarker(o, previous);
    ParseFirst(EncodeOption(o, previous), tail, o, previous);
  }

  lemma {:induction false} EncodedIsParsed(options: seq<CoapOption>, previous: nat, payload: seq<byte>)
    requires OptionsFit(options, previous)
    ensures ParseOptions(EncodeOptions(options, previous) + EncodePayload(payload), previous)
      == Ok(Parsed(options, payload))
    decreases |options|
  {
    if options == [] {
      PayloadParsed(payload, previous);
      assert EncodeOptions(options, previous) + EncodePayload(payload) == EncodePayload(payload);
    } else {
      var tail := EncodeOptions(options[1..], options[0].number) + EncodePayload(payload);
      EncodeFirst(options, previous, EncodePayload(payload));
      ParseEncodedFirst(options[0], previous, tail);
      EncodedIsParsed(options[1..], options[0].number, payload);
      assert options == [options[0]] + options[1..];
    }
  }

  lemma PayloadParsed(payload: seq<byte>, previous: nat)
    ensures ParseOptions(EncodePayload(payload), previous) == Ok(Parsed([], payload))
  {
    assert ([MARKER] + payload)[1..] == payload;
  }

  /** One step of the walk consumes one option's encoding. */
  lemma ParseStep(bytes: seq<byte>, previous: nat) returns (o: CoapOption, tail: seq<byte>)
    requires bytes != [] && bytes[0] != MARKER && ParseOptions(bytes, previous).Ok?
    ensures OptionFits(o, previous) && bytes == EncodeOption(o, previous) + tail
    ensures ParseOptions(bytes, previous) == Before([o], ParseOptions(tail, o.number))
  {
    OptionWasEncoded(bytes, previous);
    var step := ParseOption(bytes, previous).value;
    o, tail := step.option, bytes[step.size..];
    assert bytes == bytes[..step.size] + tail;
  }

  lemma {:induction false} ParsedIsEncoded(bytes: seq<byte>, previous: nat)
    requires ParseOptions(bytes, previous).Ok?
    ensures var p := ParseOptions(bytes, previous).value;
            && OptionsFit(p.options, previous)
            && bytes == EncodeOptions(p.options, previous) + EncodePayload(p.payload)
    decreases |bytes|
  {
    if bytes != [] {
      if bytes[0] == MARKER {
        assert bytes == [MARKER] + bytes[1..];
      } else {
        var o, tail := ParseStep(bytes, previous);
        ParsedIsEncoded(tail, o.number);
        var q := ParseOptions(tail, o.number).value;
        var options := [o] + q.options;
        assert options[1..] == q.options;
        EncodeFirst(options, previous, EncodePayload(q.payload));
      }
    }
  }

  // ---------- costs ----------

  function ExtensionBytes(v: int): nat {
    if v < 13 then 0 else if v < 269 then 1 else 2
  }

  function CostOf(o: CoapOption, previous: nat): OptionCost {
    var d, l := ExtensionBytes(o.number - previous), ExtensionBytes(|o.value|);
    OptionCost(o.number, |o.value|, 1, d, l, 1 + d + l + |o.value|)
  }

  function Costs(options: seq<CoapOption>, previous: nat): (r: seq<OptionCost>)
    ensures |r| == |options|
  {
    if options == [] then [] else [CostOf(options[0], previous)] + Costs(options[1..], options[0].number)
  }

  function LastNumber(options: seq<CoapOption>): nat {
    if options == [] then 0 else options[|options| - 1].number
  }

  function Total(costs: seq<OptionCost>): nat {
    if costs == [] then 0 else costs[0].encodedBytes + Total(costs[1..])
  }

  /** The report parsed and walked lengths have to agree with. */
  predicate SameOptions(a: seq<CoapOption>, b: seq<CoapOption>) {
    |a| == |b| && forall i :: 0 <= i < |a| ==> a[i].number == b[i].number && |a[i].value| == |b[i].value|
  }

  /** What the walker reports: the cost of what the datagram encodes, if the parsed message agrees. */
  function Inspect(bytes: seq<byte>, message: CoapMessage): Result<CoapCost, ReportError> {
    if |bytes| < 4 then Err(TooShort)
    else
      var tokenLength := bytes[0] % 16;
      if 4 + tokenLength > |bytes| || tokenLength != |message.token| then Err(TokenLength)
      else
        match ParseOptions(bytes[4 + tokenLength..], 0)
        case Err(e) => Err(e)
        case Ok(p) => Compare(p, message, |bytes|)
  }

  function Compare(p: Parsed, message: CoapMessage, total: nat): Result<CoapCost, ReportError> {
    if |p.options| != |message.options| || |p.payload| != |message.payload| then Err(FieldsDiffer)
    else if !SameOptions(p.options, message.options) then Err(OptionDiffers)
    else Ok(CoapCost(4, |message.token|, Costs(p.options, 0), if p.payload == [] then 0 else 1, |p.payload|, total))
  }

  function ExtendedBytes(nibble: nat): nat {
    if nibble == 13 then 1 else if nibble == 14 then 2 else 0
  }

  /** Reads a delta or length and moves the offset past its extension. */
  method ReadCoapExtended(nibble: nat, bytes: seq<byte>, offset: nat) returns (r: Result<nat, ReportError>, next: nat)
    requires offset <= |bytes|
    ensures match ReadExtended(nibble, bytes[offset..])
            case Err(e) => r == Err(e) && next == offset
            case Ok(x) => r == Ok(x.value) && next == offset + x.used && x.used == ExtendedBytes(nibble)
    ensures next <= |bytes|
  {
    next := offset;
    if nibble <= 12 {
      r := Ok(nibble);
    } else if nibble == 13 {
      if offset >= |bytes| {
        return Err(Truncated), next;
      }
      next := offset + 1;
      r := Ok(bytes[offset] as int + 13);
    } else if nibble == 14 {
      if offset + 2 > |bytes| {
        return Err(Truncated), next;
      }
      r := Ok(bytes[offset] as int * 256 + bytes[offset + 1] as int + 269);
      next := offset + 2;
    } else {
      r := Err(ReservedNibble);
    }
  }

  /** One turn of the walk: the option's number, value length and cost, and where it ends. */
  method WalkOption(bytes: seq<byte>, start: nat, previous: nat) returns (r: Result<OptionCost, ReportError>, end: nat)
    requires start < |bytes|
    ensures match ParseOption(bytes[start..], previous)
            case Err(e) => r == Err(e)
            case Ok(step) => r == Ok(CostOf(step.option, previous)) && end == start + step.size
  {
    end := start;
    var header := bytes[start];
    var delta, afterDelta := ReadCoapExtended(header / 16, bytes, start + 1);
    assert bytes[start..][1..] == bytes[start + 1..];
    if delta.Err? {
      return Err(delta.error), end;
    }
    var length, offset := ReadCoapExtended(header % 16, bytes, afterDelta);
    assert bytes[start..][afterDelta - start..] == bytes[afterDelta..];
    if length.Err? {
      return Err(length.error), end;
    }
    var number := previous + delta.value;
    if number > U32_MAX {
      return Err(NumberOverflow), end;
    }
    if offset + length.value > |bytes| {
      return Err(OptionExceedsDatagram), end;
    }
    end := offset + length.value;
    ReadIsExtension(header / 16, bytes[start + 1..]);
    ReadIsExtension(header % 16, bytes[afterDelta..]);
    r := Ok(OptionCost(number, length.value, 1, ExtendedBytes(header / 16), ExtendedBytes(header % 16), end - start));
  }

  method InspectCoap(bytes: seq<byte>, message: CoapMessage) returns (r: Result<CoapCost, ReportError>)
    ensures r == Inspect(bytes, message)
  {
    if |bytes| < 4 {
      return Err(TooShort);
    }
    var tokenLength := bytes[0] % 16;
    if 4 + tokenLength > |bytes| || tokenLength != |message.token| {
      return Err(TokenLength);
    }
    var walked := WalkOptions(bytes, 4 + tokenLength);
    match walked {
      case Err(e) =>
        return Err(e);
      case Ok((options, offset)) =>
        r := CompareWalked(ParseOptions(bytes[4 + tokenLength..], 0).value, options, offset, bytes, message);
    }
  }

  /** The walked costs have to agree with the parsed message. */
  method CompareWalked(ghost p: Parsed, options: seq<OptionCost>, offset: nat, bytes: seq<byte>, message: CoapMessage)
    returns (r: Result<CoapCost, ReportError>)
    requires options == Costs(p.options, 0) && offset <= |bytes| && |bytes| - offset == |p.payload|
    ensures r == Compare(p, message, |bytes|)
  {
    var payload := |bytes| - offset;
    if |options| != |message.options| || payload != |message.payload| {
      return Err(FieldsDiffer);
    }
    var i := 0;
    while i < |options|
      invariant 0 <= i <= |options|
      invariant forall j :: 0 <= j < i ==>
                  p.options[j].number == message.options[j].number && |p.options[j].value| == |message.options[j].value|
    {
      CostAt(p.options, 0, i);
      if options[i].number != message.options[i].number || options[i].valueBytes != |message.options[i].value| {
        return Err(OptionDiffers);
      }
      i := i + 1;
    }
    return Ok(CoapCost(4, |message.token|, options, if payload != 0 then 1 else 0, payload, |bytes|));
  }

  /** Whether a walk ends as `whole` says: the same error, or the costs of its options and where its payload begins. */
  ghost predicate WalkEnds(bytes: seq<byte>, whole: Result<Parsed, ReportError>,
                           r: Result<(seq<OptionCost>, nat), ReportError>)
  {
    match whole
    case Err(e) => r == Err(e)
    case Ok(p) => r.Ok? && r.value.0 == Costs(p.options, 0) && r.value.1 <= |bytes| && bytes[r.value.1..] == p.payload
  }

  method WalkOptions(bytes: seq<byte>, tokenEnd: nat) returns (r: Result<(seq<OptionCost>, nat), ReportError>)
    requires tokenEnd <= |bytes|
    ensures WalkEnds(bytes, ParseOptions(bytes[tokenEnd..], 0), r)
  {
    BeforeNothing(ParseOptions(bytes[tokenEnd..], 0));
    r := WalkLoop(bytes, tokenEnd, ParseOptions(bytes[tokenEnd..], 0));
  }

  /** The loop over the options. */
  method WalkLoop(bytes: seq<byte>, tokenEnd: nat, ghost whole: Result<Parsed, ReportError>)
    returns (r: Result<(seq<OptionCost>, nat), ReportError>)
    requires tokenEnd <= |bytes| && whole == Before([], ParseOptions(bytes[tokenEnd..], 0))
    ensures WalkEnds(bytes, whole, r)
  {
    var offset, previous := tokenEnd, 0;
    var options: seq<OptionCost> := [];
    ghost var done: seq<CoapOption> := [];
    while offset < |bytes|
      invariant tokenEnd <= offset <= |bytes|
      invariant options == Costs(done, 0) && previous == LastNumber(done)
      invariant whole == Before(done, ParseOptions(bytes[offset..], previous))
    {
      if bytes[offset] == MARKER {
        AtMarker(bytes, offset, previous, done);
        if offset + 1 >= |bytes| {
          return Err(MarkerWithoutPayload);
        }
        offset := offset + 1;
        return Ok((options, offset));
      }
      var cost, end, o := WalkNext(bytes, offset, previous, done, whole);
      if cost.Err? {
        return Err(cost.error);
      }
      done := done + [o];
      options := options + [cost.value];
      previous := cost.value.number;
      offset := end;
    }
    AtEnd(bytes, previous, done);
    r := Ok((options, offset));
  }

  lemma AtMarker(bytes: seq<byte>, offset: nat, previous: nat, done: seq<CoapOption>)
    requires offset < |bytes| && bytes[offset] == MARKER
    ensures Before(done, ParseOptions(bytes[offset..], previous))
            == if offset + 1 == |bytes| then Err(MarkerWithoutPayload) else Ok(Parsed(done, bytes[offset + 1..]))
  {
    assert bytes[offset..][1..] == bytes[offset + 1..];
    assert done + [] == done;
  }

  lemma AtEnd(bytes: seq<byte>, previous: nat, done: seq<CoapOption>)
    ensures Before(done, ParseOptions(bytes[|bytes|..], previous)) == Ok(Parsed(done, bytes[|bytes|..]))
  {
    assert done + [] == done;
  }

  /** A turn of the walk as a step of the whole parse. */
  method WalkNext(bytes: seq<byte>, offset: nat, previous: nat, ghost done: seq<CoapOption>,
                  ghost whole: Result<Parsed, ReportError>)
    returns (cost: Result<OptionCost, ReportError>, end: nat, ghost o: CoapOption)
    requires offset < |bytes| && bytes[offset] != MARKER && previous == LastNumber(done)
    requires whole == Before(done, ParseOptions(bytes[offset..], previous))
    ensures cost.Err? ==> whole == Err(cost.error)
    ensures cost.Ok? ==>
              && offset < end <= |bytes| && o.number == cost.value.number
              && Costs(done + [o], 0) == Costs(done, 0) + [cost.value]
              && whole == Before(done + [o], ParseOptions(bytes[end..], o.number))
  {
    Advance(bytes, offset, previous, done, whole);
    cost, end := WalkOption(bytes, offset, previous);
    o := CoapOption(0, []);
    if cost.Ok? {
      o := ParseOption(bytes[offset..], previous).value.option;
      CostsAppend(done, 0, o);
    }
  }

  /** One turn moves one option from what is left to what is done. */
  lemma Advance(bytes: seq<byte>, offset: nat, previous: nat, done: seq<CoapOption>, whole: Result<Parsed, ReportError>)
    requires offset < |bytes| && bytes[offset] != MARKER
      && whole == Before(done, ParseOptions(bytes[offset..], previous))
    ensures match ParseOption(bytes[offset..], previous)
            case Err(e) => whole == Err(e)
            case Ok(step) =>
              whole == Before(done + [step.option], ParseOptions(bytes[offset + step.size..], step.option.number))
  {
    var parsed := ParseOption(bytes[offset..], previous);
    if parsed.Ok? {
      var step := parsed.value;
      assert bytes[offset..][step.size..] == bytes[offset + step.size..];
      BeforeStep(done, step.option, ParseOptions(bytes[offset + step.size..], step.option.number));
    }
  }

  lemma BeforeNothing(r: Result<Parsed, ReportError>)
    ensures Before([], r) == r
  {
    if r.Ok? {
      assert [] + r.value.options == r.value.options;
    }
  }

  lemma BeforeStep(done: seq<CoapOption>, o: CoapOption, r: Result<Parsed, ReportError>)
    ensures Before(done, Before([o], r)) == Before(done + [o], r)
  {
    if r.Ok? {
      assert done + ([o] + r.value.options) == done + [o] + r.value.options;
    }
  }

  lemma {:induction false} CostsAppend(done: seq<CoapOption>, previous: nat, o: CoapOption)
    ensures Costs(done + [o], previous)
      == Costs(done, previous) + [CostOf(o, if done == [] then previous else LastNumber(done))]
  {
    if done != [] {
      assert (done + [o])[1..] == done[1..] + [o];
      CostsAppend(done[1..], done[0].number, o);
    }
  }

  lemma {:induction false} CostAt(options: seq<CoapOption>, previous: nat, i: nat)
    requires i < |options|
    ensures Costs(options, previous)[i] == CostOf(options[i], if i == 0 then previous else options[i - 1].number)
  {
    if i > 0 {
      CostAt(options[1..], options[0].number, i - 1);
    }
  }

  // ---------- what acceptance means ----------

  lemma CostIsLength(o: CoapOption, previous: nat)
    requires OptionFits(o, previous)
    ensures |EncodeOption(o, previous)| == CostOf(o, previous).encodedBytes
  {
  }

  lemma {:induction false} CostsTile(options: seq<CoapOption>, previous: nat)
    requires OptionsFit(options, previous)
    ensures |EncodeOptions(options, previous)| == Total(Costs(options, previous))
  {
    if options != [] {
      CostIsLength(options[0], previous);
      CostsTile(options[1..], options[0].number);
    }
  }

  predicate MessageFits(m: CoapMessage) {
    |m.token| < 16 && OptionsFit(m.options, 0)
  }

  lemma HeadOfMessage(kind: nat, rest: seq<byte>, m: CoapMessage)
    requires kind < 16 && |rest| == 3 && MessageFits(m)
    ensures var bytes := EncodeMessage(kind, rest, m);
            && |bytes| >= 4 + |m.token| && bytes[0] % 16 == |m.token|
            && bytes[4 + |m.token|..] == EncodeOptions(m.options, 0) + EncodePayload(m.payload)
  {
    QuotientIs(kind * 16 + |m.token|, 16, kind);
    var head := [kind * 16 + |m.token|] + rest + m.token;
    var tail := EncodeOptions(m.options, 0) + EncodePayload(m.payload);
    assert EncodeMessage(kind, rest, m) == head + tail;
    assert |head| == 4 + |m.token|;
  }

  /** The parsed message says the same about lengths and option numbers. */
  predicate Agrees(m: CoapMessage, message: CoapMessage) {
    |m.token| == |message.token| && SameOptions(m.options, message.options) && |m.payload| == |message.payload|
  }

  function PreviousNumber(options: seq<CoapOption>, i: nat): nat
    requires i < |options|
  {
    if i == 0 then 0 else options[i - 1].number
  }

  /** The cost of one option is that of its encoding, part by part. */
  ghost predicate CostOfEncoding(c: OptionCost, o: CoapOption, previous: nat)
    requires OptionFits(o, previous)
  {
    && c.number == o.number && c.valueBytes == |o.value| && c.headerBytes == 1
    && c.deltaExtensionBytes == |Extension(o.number - previous)|
    && c.lengthExtensionBytes == |Extension(|o.value|)|
    && c.encodedBytes == |EncodeOption(o, previous)|
  }

  lemma {:induction false} OptionFitsAt(options: seq<CoapOption>, previous: nat, i: nat)
    requires OptionsFit(options, previous) && i < |options|
    ensures OptionFits(options[i], if i == 0 then previous else options[i - 1].number)
  {
    if i > 0 {
      OptionFitsAt(options[1..], options[0].number, i - 1);
    }
  }

  lemma CostFits(options: seq<CoapOption>, i: nat)
    requires OptionsFit(options, 0) && i < |options|
    ensures OptionFits(options[i], PreviousNumber(options, i))
    ensures CostOfEncoding(Costs(options, 0)[i], options[i], PreviousNumber(options, i))
  {
    OptionFitsAt(options, 0, i);
    CostAt(options, 0, i);
    CostIsLength(options[i], PreviousNumber(options, i));
  }

  lemma AgreeingParse(p: Parsed, m: CoapMessage, message: CoapMessage, total: nat)
    requires p == Parsed(m.options, m.payload) && Agrees(m, message)
    ensures Compare(p, message, total)
            == Ok(CoapCost(4, |m.token|, Costs(m.options, 0), |EncodePayload(m.payload)| - |m.payload|,
                           |m.payload|, total))
  {
  }

  /** Every datagram with a reference encoding is reported against every message that agrees with the encoded one:
      the cost of each option is that of its encoding, part by part, and the other parts are those of the datagram. */
  lemma EncodedIsReported(kind: nat, rest: seq<byte>, m: CoapMessage, message: CoapMessage)
    requires kind < 16 && |rest| == 3 && MessageFits(m) && Agrees(m, message)
    ensures var bytes := EncodeMessage(kind, rest, m);
            && Inspect(bytes, message).Ok?
            && var c := Inspect(bytes, message).value;
               && c.baseHeaderBytes == 4 && c.tokenBytes == |m.token| && c.totalBytes == |bytes|
               && c.payloadBytes == |m.payload| && c.payloadMarkerBytes == (if m.payload == [] then 0 else 1)
               && |c.options| == |m.options|
               && forall i :: 0 <= i < |m.options| ==>
                    && OptionFits(m.options[i], PreviousNumber(m.options, i))
                    && CostOfEncoding(c.options[i], m.options[i], PreviousNumber(m.options, i))
  {
    HeadOfMessage(kind, rest, m);
    EncodedIsParsed(m.options, 0, m.payload);
    AgreeingParse(Parsed(m.options, m.payload), m, message, |EncodeMessage(kind, rest, m)|);
    forall i | 0 <= i < |m.options|
      ensures OptionFits(m.options[i], PreviousNumber(m.options, i))
      ensures CostOfEncoding(Costs(m.options, 0)[i], m.options[i], PreviousNumber(m.options, i))
    {
      CostFits(m.options, i);
    }
  }

  lemma Reassembled(bytes: seq<byte>, end: nat, p: Parsed)
    requires 4 <= |bytes| && end == 4 + bytes[0] % 16 && end <= |bytes| && OptionsFit(p.options, 0)
    requires bytes[end..] == EncodeOptions(p.options, 0) + EncodePayload(p.payload)
    ensures bytes == EncodeMessage(bytes[0] / 16, bytes[1..4], CoapMessage(bytes[4..end], p.options, p.payload))
  {
    Quotient(bytes[0], 16);
    assert bytes == [bytes[0]] + bytes[1..4] + bytes[4..end] + bytes[end..];
  }

  /** What a report was made from. */
  lemma ReportedParse(bytes: seq<byte>, message: CoapMessage) returns (end: nat, p: Parsed)
    requires Inspect(bytes, message).Ok?
    ensures 4 <= |bytes| && end == 4 + bytes[0] % 16 == 4 + |message.token| && end <= |bytes|
      && OptionsFit(p.options, 0)
    ensures bytes[end..] == EncodeOptions(p.options, 0) + EncodePayload(p.payload)
    ensures Inspect(bytes, message) == Compare(p, message, |bytes|)
  {
    end := 4 + bytes[0] % 16;
    p := ParseOptions(bytes[end..], 0).value;
    ParsedIsEncoded(bytes[end..], 0);
  }

  /** Conversely a report is made only for the encoding of a message that agrees with the parsed one. */
  lemma ReportedWasEncoded(bytes: seq<byte>, message: CoapMessage) returns (kind: nat, rest: seq<byte>, m: CoapMessage)
    requires Inspect(bytes, message).Ok?
    ensures kind < 16 && |rest| == 3 && MessageFits(m) && bytes == EncodeMessage(kind, rest, m)
    ensures Agrees(m, message)
  {
    var end, p := ReportedParse(bytes, message);
    kind, rest, m := bytes[0] / 16, bytes[1..4], CoapMessage(bytes[4..end], p.options, p.payload);
    Reassembled(bytes, end, p);
  }

  ghost predicate Tiles(c: CoapCost, message: CoapMessage) {
    && c.baseHeaderBytes + c.tokenBytes + Total(c.options) + c.payloadMarkerBytes + c.payloadBytes == c.totalBytes
    && |c.options| == |message.options| && c.payloadBytes == |message.payload|
    && forall i :: 0 <= i < |c.options| ==>
         && c.options[i].number == message.options[i].number
         && c.options[i].valueBytes == |message.options[i].value|
         && c.options[i].headerBytes + c.options[i].deltaExtensionBytes + c.options[i].lengthExtensionBytes
            + c.options[i].valueBytes == c.options[i].encodedBytes
  }

  lemma CompareTiles(p: Parsed, message: CoapMessage, total: nat)
    requires Compare(p, message, total).Ok? && OptionsFit(p.options, 0)
    requires total == 4 + |message.token| + |EncodeOptions(p.options, 0)| + |EncodePayload(p.payload)|
    ensures Tiles(Compare(p, message, total).value, message)
  {
    CostsTile(p.options, 0);
    var costs := Costs(p.options, 0);
    forall i | 0 <= i < |costs|
      ensures costs[i].number == message.options[i].number && costs[i].valueBytes == |message.options[i].value|
      ensures costs[i].headerBytes + costs[i].deltaExtensionBytes + costs[i].lengthExtensionBytes + costs[i].valueBytes
              == costs[i].encodedBytes
    {
      CostAt(p.options, 0, i);
    }
  }

  /** A report tiles the datagram: header, token, options, marker and payload add up to its length, and
      each option's header, two extensions and value add up to that option. */
  lemma ReportTiles(bytes: seq<byte>, message: CoapMessage)
    requires Inspect(bytes, message).Ok?
    ensures Inspect(bytes, message).value.totalBytes == |bytes| && Tiles(Inspect(bytes, message).value, message)
  {
    var end, p := ReportedParse(bytes, message);
    CompareTiles(p, message, |bytes|);
  }
}
