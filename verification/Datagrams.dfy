/**
 Which datagrams the walker refuses, and with which error, told from the encoding alone.
 */
module Datagrams {
  import opened Bits
  import opened Wrappers
  import opened TargetValues
  import opened Coap

  /** How many bytes extend a nibble. */
  function Width(nibble: nat): nat {
    if nibble == 13 then 1 else if nibble == 14 then 2 else 0
  }

  /** What a nibble and its extension stand for. */
  function Carried(nibble: nat, extension: seq<byte>): nat {
    if nibble == 13 then 13 + BigEndian(extension)
    else if nibble == 14 then 269 + BigEndian(extension)
    else nibble
  }

  /** No option can be read at the beginning of `tail`: the first of these that applies, in the order of the walk. */
  ghost predicate Stops(tail: seq<byte>, previous: nat, e: ReportError)
    requires tail != []
  {
    var d, l := tail[0] / 16, tail[0] % 16;
    var at := 1 + Width(d);
    var start := at + Width(l);
    if d == 15 then e == ReservedNibble
    else if |tail| < at then e == Truncated
    else if l == 15 then e == ReservedNibble
    else if |tail| < start then e == Truncated
    else if previous + Carried(d, tail[1..at]) > U32_MAX then e == NumberOverflow
    else |tail| < start + Carried(l, tail[at..start]) && e == OptionExceedsDatagram
  }

  /** The walk of `tail` ends there with this error. */
  ghost predicate Fails(tail: seq<byte>, previous: nat, e: ReportError) {
    && tail != []
    && if tail[0] == MARKER then |tail| == 1 && e == MarkerWithoutPayload else Stops(tail, previous, e)
  }

  lemma OneByte(a: byte)
    ensures BigEndian([a]) == a as int
  {
    assert [a][..0] == [];
  }

  lemma ExtensionCarried(nibble: nat, bytes: seq<byte>)
    requires nibble < 15 && Width(nibble) <= |bytes|
    ensures ReadExtended(nibble, bytes) == Ok(Extended(Carried(nibble, bytes[..Width(nibble)]), Width(nibble)))
  {
    if nibble == 13 {
      assert bytes[..1] == [bytes[0]];
      OneByte(bytes[0]);
    } else if nibble == 14 {
      assert bytes[..2] == [bytes[0], bytes[1]];
      TwoBytes(bytes[0], bytes[1]);
    }
  }

  lemma StopsIff(tail: seq<byte>, previous: nat, e: ReportError)
    requires tail != []
    ensures ParseOption(tail, previous) == Err(e) <==> Stops(tail, previous, e)
  {
    var d, l := tail[0] / 16, tail[0] % 16;
    var at := 1 + Width(d);
    var start := at + Width(l);
    if d < 15 && at <= |tail| {
      ExtensionCarried(d, tail[1..]);
      assert tail[1..][..Width(d)] == tail[1..at];
      if l < 15 && start <= |tail| {
        ExtensionCarried(l, tail[at..]);
        assert tail[at..][..Width(l)] == tail[at..start];
      }
    }
  }

  /** The number of the last option before the rest. */
  function Reached(options: seq<CoapOption>, previous: nat): nat {
    if options == [] then previous else LastNumber(options)
  }

  lemma {:induction false} WalkFailsIf(options: seq<CoapOption>, tail: seq<byte>, previous: nat, e: ReportError)
    requires OptionsFit(options, previous) && Fails(tail, Reached(options, previous), e)
    ensures ParseOptions(EncodeOptions(options, previous) + tail, previous) == Err(e)
  {
    if options == [] {
      assert EncodeOptions(options, previous) + tail == tail;
      StopsIff(tail, previous, e);
    } else {
      WalkFailsIf(options[1..], tail, options[0].number, e);
      EncodeFirst(options, previous, tail);
      ParseEncodedFirst(options[0], previous, EncodeOptions(options[1..], options[0].number) + tail);
    }
  }

  lemma {:induction false} WalkFailsOnlyIf(bytes: seq<byte>, previous: nat, e: ReportError)
    returns (options: seq<CoapOption>, tail: seq<byte>)
    requires ParseOptions(bytes, previous) == Err(e)
    ensures OptionsFit(options, previous) && bytes == EncodeOptions(options, previous) + tail
    ensures Fails(tail, Reached(options, previous), e)
    decreases |bytes|
  {
    if bytes[0] == MARKER || ParseOption(bytes, previous).Err? {
      options, tail := [], bytes;
      StopsIff(bytes, previous, e);
    } else {
      var step := ParseOption(bytes, previous).value;
      OptionWasEncoded(bytes, previous);
      var after: seq<CoapOption>;
      after, tail := WalkFailsOnlyIf(bytes[step.size..], step.option.number, e);
      options := [step.option] + after;
      WithFirst(bytes, previous, step.option, step.size, after, tail);
    }
  }

  lemma WithFirst(bytes: seq<byte>, previous: nat, o: CoapOption, size: nat, after: seq<CoapOption>, tail: seq<byte>)
    requires OptionFits(o, previous) && OptionsFit(after, o.number)
    requires size <= |bytes| && bytes[..size] == EncodeOption(o, previous)
    requires bytes[size..] == EncodeOptions(after, o.number) + tail
    ensures var options := [o] + after;
            && OptionsFit(options, previous) && bytes == EncodeOptions(options, previous) + tail
            && Reached(options, previous) == Reached(after, o.number)
  {
    var options := [o] + after;
    assert options[1..] == after;
    EncodeFirst(options, previous, tail);
    assert bytes == bytes[..size] + bytes[size..];
  }

  // ---------- every refusal ----------

  /** The body is the encoding of these options with something after them that is neither an option nor a payload. */
  ghost predicate SpoiltAfter(body: seq<byte>, options: seq<CoapOption>, tail: seq<byte>, e: ReportError) {
    OptionsFit(options, 0) && body == EncodeOptions(options, 0) + tail && Fails(tail, LastNumber(options), e)
  }

  /** The body is the encoding of options and a payload that the parsed message disagrees with. */
  ghost predicate Denied(body: seq<byte>, options: seq<CoapOption>, payload: seq<byte>, message: CoapMessage,
                         e: ReportError)
  {
    && OptionsFit(options, 0) && body == EncodeOptions(options, 0) + EncodePayload(payload)
    && if |options| != |message.options| || |payload| != |message.payload| then e == FieldsDiffer
       else !SameOptions(options, message.options) && e == OptionDiffers
  }

  ghost predicate Spoilt(body: seq<byte>, e: ReportError) {
    exists options, tail :: SpoiltAfter(body, options, tail, e)
  }

  ghost predicate Disagrees(body: seq<byte>, message: CoapMessage, e: ReportError) {
    exists options, payload :: Denied(body, options, payload, message, e)
  }

  /** A walk fails exactly where the body is spoilt. */
  lemma WalkFailsIff(body: seq<byte>, e: ReportError)
    ensures ParseOptions(body, 0) == Err(e) <==> Spoilt(body, e)
  {
    if ParseOptions(body, 0) == Err(e) {
      var options, tail := WalkFailsOnlyIf(body, 0, e);
      assert SpoiltAfter(body, options, tail, e);
    }
    if Spoilt(body, e) {
      var options, tail :| SpoiltAfter(body, options, tail, e);
      WalkFailsIf(options, tail, 0, e);
    }
  }

  lemma DisagreesIff(body: seq<byte>, message: CoapMessage, total: nat, e: ReportError)
    ensures Disagrees(body, message, e) <==>
            ParseOptions(body, 0).Ok? && Compare(ParseOptions(body, 0).value, message, total) == Err(e)
  {
    if ParseOptions(body, 0).Ok? {
      var p := ParseOptions(body, 0).value;
      ParsedIffEncoded(body, 0, p.options, p.payload);
      if Compare(p, message, total) == Err(e) {
        assert Denied(body, p.options, p.payload, message, e);
      }
    }
    if Disagrees(body, message, e) {
      var options, payload :| Denied(body, options, payload, message, e);
      ParsedIffEncoded(body, 0, options, payload);
    }
  }

  /** The one error a datagram is refused with: it is too short, its token has another length, its options are spoilt
      somewhere, or it says something else than the parsed message. */
  lemma RefusedIff(bytes: seq<byte>, message: CoapMessage, e: ReportError)
    ensures Inspect(bytes, message) == Err(e) <==>
            if |bytes| < 4 then e == TooShort
            else if |bytes| < 4 + bytes[0] % 16 || bytes[0] % 16 != |message.token| then e == TokenLength
            else Spoilt(bytes[4 + |message.token|..], e) || Disagrees(bytes[4 + |message.token|..], message, e)
  {
    if 4 <= |bytes| && 4 + bytes[0] % 16 <= |bytes| && bytes[0] % 16 == |message.token| {
      var body := bytes[4 + |message.token|..];
      WalkFailsIff(body, e);
      DisagreesIff(body, message, |bytes|, e);
      BodyDecides(bytes, message, e, Spoilt(body, e), Disagrees(body, message, e));
    }
  }

  lemma BodyDecides(bytes: seq<byte>, message: CoapMessage, e: ReportError, spoilt: bool, disagrees: bool)
    requires 4 <= |bytes| && 4 + bytes[0] % 16 <= |bytes| && bytes[0] % 16 == |message.token|
    requires spoilt <==> ParseOptions(bytes[4 + |message.token|..], 0) == Err(e)
    requires disagrees <==>
             var r := ParseOptions(bytes[4 + |message.token|..], 0);
             r.Ok? && Compare(r.value, message, |bytes|) == Err(e)
    ensures Inspect(bytes, message) == Err(e) <==> spoilt || disagrees
  {
  }
}
