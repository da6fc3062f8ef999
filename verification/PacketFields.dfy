/**
 Which number each field of a packet is compared with, operator by operator, and what a flow plan asks for:
 a description of the plan that does not go through the way it is computed.
 */
module PacketFields {
  import opened Bits
  import opened Wrappers
  import opened Sorting
  import opened RuleModel
  import opened TargetValues
  import opened Flow

  // ---------- leading bits as numbers ----------

  /** The first `count` bits of the storage as a number, zeros following its end. */
  function LeadingNumber(bytes: seq<byte>, count: nat): int {
    if count <= 8 * |bytes| then BigEndian(bytes) / Pow2(8 * |bytes| - count)
    else BigEndian(bytes) * Pow2(count - 8 * |bytes|)
  }

  function BitsNumber(bytes: seq<byte>, count: nat): nat {
    if count == 0 then 0 else 2 * BitsNumber(bytes, count - 1) + if BitAt(bytes, count - 1) then 1 else 0
  }

  lemma {:induction false} SameBitsSameNumber(a: seq<byte>, b: seq<byte>, count: nat)
    ensures SameLeadingBits(a, b, count) <==> BitsNumber(a, count) == BitsNumber(b, count)
  {
    if count > 0 {
      SameBitsSameNumber(a, b, count - 1);
    }
  }

  lemma HalvedQuotient(x: nat, s: nat)
    ensures x / Pow2(s + 1) == (x / Pow2(s)) / 2
  {
    var q := x / Pow2(s);
    QuotientIs(x, Pow2(s), q);
    var h := q / 2;
    assert 2 * h <= q < 2 * h + 2;
    MulMonotone(2 * h, q, Pow2(s));
    MulMonotone(q + 1, 2 * h + 2, Pow2(s));
    assert Pow2(s + 1) == 2 * Pow2(s);
    Doubled(h, Pow2(s));
    QuotientIs(x, Pow2(s + 1), h);
  }

  lemma Doubled(h: int, p: int)
    ensures h * (2 * p) == (2 * h) * p && (h + 1) * (2 * p) == (2 * h + 2) * p
  {
  }

  /** A bit within the last byte. */
  lemma LowByteBit(high: nat, low: byte, s: nat)
    requires s <= 7
    ensures ((256 * high + low) / Pow2(s)) % 2 == (low / Pow2(s)) % 2
  {
    var q, k := low / Pow2(s), Pow2(7 - s);
    QuotientIs(low, Pow2(s), q);
    Pow2Add(s, 8 - s);
    Pow2Values();
    assert Pow2(8 - s) == 2 * k;
    SplitByte(high, Pow2(s), 2 * k, q);
    QuotientIs(256 * high + low, Pow2(s), high * (2 * k) + q);
    EvenPart(high, k, q);
  }

  lemma SplitByte(high: nat, p: nat, r: nat, q: nat)
    requires p * r == 256
    ensures (high * r + q) * p == 256 * high + q * p
    ensures (high * r + q + 1) * p == 256 * high + (q + 1) * p
  {
    assert high * r * p == high * (r * p);
  }

  lemma EvenPart(high: nat, k: nat, q: nat)
    ensures (high * (2 * k) + q) % 2 == q % 2
  {
    assert high * (2 * k) == 2 * (high * k);
  }

  /** A bit above the last byte. */
  lemma HighByteBit(high: nat, low: byte, s: nat)
    ensures (256 * high + low) / Pow2(8 + s) == high / Pow2(s)
  {
    var q := high / Pow2(s);
    QuotientIs(high, Pow2(s), q);
    Pow2Add(8, s);
    Pow2Values();
    assert q * Pow2(s) <= high && high + 1 <= (q + 1) * Pow2(s);
    assert q * (256 * Pow2(s)) == 256 * (q * Pow2(s));
    assert (q + 1) * (256 * Pow2(s)) == 256 * ((q + 1) * Pow2(s));
    QuotientIs(256 * high + low, Pow2(8 + s), q);
  }

  /** Bit `i` of the storage is the bit of that weight of the number. */
  lemma {:induction false} BitOfNumber(bytes: seq<byte>, i: nat)
    requires i < 8 * |bytes|
    ensures BitAt(bytes, i) <==> (BigEndian(bytes) / Pow2(8 * |bytes| - 1 - i)) % 2 == 1
  {
    var init, last := bytes[..|bytes| - 1], bytes[|bytes| - 1];
    if i < 8 * |init| {
      BitOfNumber(init, i);
      HighByteBit(BigEndian(init), last, 8 * |init| - 1 - i);
      assert init[i / 8] == bytes[i / 8];
    } else {
      LastByteIndex(i, |bytes|);
      LowByteBit(BigEndian(init), last, 7 - i % 8);
    }
  }

  lemma LastByteIndex(i: nat, n: nat)
    requires 8 * (n - 1) <= i < 8 * n
    ensures i / 8 == n - 1 && 8 * n - 1 - i == 7 - i % 8
  {
  }

  lemma {:induction false} BitsAreLeading(bytes: seq<byte>, count: nat)
    ensures BitsNumber(bytes, count) == LeadingNumber(bytes, count)
  {
    if count == 0 {
      BigEndianBound(bytes);
      QuotientIs(BigEndian(bytes), Pow2(8 * |bytes|), 0);
    } else {
      BitsAreLeading(bytes, count - 1);
      if count <= 8 * |bytes| {
        BitOfNumber(bytes, count - 1);
        HalvedQuotient(BigEndian(bytes), 8 * |bytes| - count);
      } else {
        BeyondStorage(bytes, count - 1);
        DoubledLeading(bytes, count);
      }
    }
  }

  lemma BeyondStorage(bytes: seq<byte>, i: nat)
    requires i >= 8 * |bytes|
    ensures !BitAt(bytes, i)
  {
  }

  lemma DoubledLeading(bytes: seq<byte>, count: nat)
    requires count > 8 * |bytes|
    ensures LeadingNumber(bytes, count) == 2 * LeadingNumber(bytes, count - 1)
  {
    assert Pow2(0) == 1;
    var over := count - 8 * |bytes|;
    assert Pow2(over) == 2 * Pow2(over - 1);
    Doubled(BigEndian(bytes), Pow2(over - 1));
  }

  /** Leading storage bits agree exactly when they read as the same number. */
  lemma LeadingBitsMeaning(a: seq<byte>, b: seq<byte>, count: nat)
    ensures SameLeadingBits(a, b, count) <==> LeadingNumber(a, count) == LeadingNumber(b, count)
  {
    SameBitsSameNumber(a, b, count);
    BitsAreLeading(a, count);
    BitsAreLeading(b, count);
  }

  // ---------- what one entry asks for ----------

  /** The entry applies to this direction and compares at all. */
  predicate Active(e: Entry, d: FlowDirection) {
    e.matching != Ignore && (e.direction == Both || e.direction == if d == Uplink then Up else Down)
  }

  /** Equal compares numbers of at most eight bytes; any other operator compares as many leading bits as it says, at
      most those of the field, in bytes from the left. */
  predicate AgreesWith(matching: MatchingOperator, target: seq<byte>, number: nat, bits: nat) {
    if matching == Equal then |target| <= 8 && BigEndian(target) == number
    else
      var count := if matching.Msb? && matching.prefix <= bits then matching.prefix else bits;
      LeadingNumber(target, count) == LeadingNumber(ToBytes(number, (bits + 7) / 8), count)
  }

  /** What an active entry with a field of this number and width asks for. */
  function Asked(e: Entry, number: nat, bits: nat): Option<seq<Override>> {
    match e.target
    case NoTarget => None
    case Mapping(list) =>
      if exists k :: 0 <= k < |list| && AgreesWith(e.matching, list[k], number, bits) then Some([]) else None
    case Bytes(target) =>
      if AgreesWith(e.matching, target, number, bits) then Some([])
      else if e.length.FixedBits? then Some([Override(e.index, ToDecimal(number))])
      else None
  }

  /** The packet gives the field this number: every active entry of the field is compared with it and, where a target
      can be changed, changed to it. */
  ghost predicate HasNumber(p: Packet, d: FlowDirection, field: FieldRef, number: nat, bits: nat) {
    forall e: Entry :: e.field == field && Active(e, d) ==> PlanOf([e], p, d) == Asked(e, number, bits)
  }

  /** The packet has no value for the field: only an entry without a target can stand. */
  ghost predicate HasNone(p: Packet, d: FlowDirection, field: FieldRef) {
    forall e: Entry :: e.field == field && Active(e, d) ==>
      PlanOf([e], p, d) == if e.target.NoTarget? then Some([]) else None
  }

  lemma SinglePlan(e: Entry, p: Packet, d: FlowDirection)
    ensures PlanOf([e], p, d) == match PlanField(e, p, d)
                                 case Agrees => Some([])
                                 case Unsuitable => None
                                 case Change(v) => Some([Override(e.index, ToDecimal(v))])
  {
    SingleChange(PlanEntry(e, p, d));
    assert PlanAll([e], p, d) == [PlanEntry(e, p, d)];
  }

  lemma SingleChange(plan: EntryPlan)
    ensures Changes([plan]) == match plan.plan
                               case Agrees => Some([])
                               case Unsuitable => None
                               case Change(_) => Some([plan.AsOverride()])
    ensures plan.plan.Change? ==> SortBy(OverrideKey, [plan.AsOverride()]) == [plan.AsOverride()]
    ensures SortBy(OverrideKey, []) == []
  {
    assert [plan][..0] == [];
    if plan.plan.Change? {
      SortedIsFixed(OverrideKey, [plan.AsOverride()]);
    }
  }

  lemma MatchesMeaning(e: Entry, v: FieldValue, target: seq<byte>)
    requires 0 < |v.bytes| == (v.bits + 7) / 8 <= 8
    ensures TargetMatches(v.bytes, target, v.bits, e.matching) <==>
            AgreesWith(e.matching, target, BigEndian(v.bytes), v.bits)
  {
    BigEndianInjective(v.bytes);
    if e.matching != Equal {
      LeadingBitsMeaning(v.bytes, target, CompareBits(e.matching, v.bits));
    }
  }

  lemma FieldAsks(p: Packet, d: FlowDirection, field: FieldRef)
    requires LogicalFieldValue(p, d, field).Some?
    ensures var v := LogicalFieldValue(p, d, field).value;
            HasNumber(p, d, field, BigEndian(v.bytes), v.bits)
  {
    var v := LogicalFieldValue(p, d, field).value;
    FieldWidth(p, d, field);
    forall e: Entry | e.field == field && Active(e, d)
      ensures PlanOf([e], p, d) == Asked(e, BigEndian(v.bytes), v.bits)
    {
      SinglePlan(e, p, d);
      match e.target {
        case NoTarget =>
        case Bytes(target) => MatchesMeaning(e, v, target);
        case Mapping(list) =>
          forall k | 0 <= k < |list|
            ensures TargetMatches(v.bytes, list[k], v.bits, e.matching) <==>
                    AgreesWith(e.matching, list[k], BigEndian(v.bytes), v.bits)
          {
            MatchesMeaning(e, v, list[k]);
          }
      }
    }
  }

  // ---------- the fields ----------

  lemma IntegerAsks(p: Packet, d: FlowDirection, field: FieldRef, number: u64, bits: nat)
    requires 1 <= bits <= 64 && number < Pow2(bits)
    requires LogicalFieldValue(p, d, field) == Some(FieldValue(IntegerBytes(number, bits), bits))
    ensures HasNumber(p, d, field, number, bits)
  {
    IntegerBytesValue(number, bits);
    FieldAsks(p, d, field);
  }

  lemma AddressAsks(p: Packet, d: FlowDirection, field: FieldRef, half: seq<byte>)
    requires LogicalFieldValue(p, d, field) == Some(FieldValue(half, 64))
    ensures HasNumber(p, d, field, BigEndian(half), 64)
  {
    FieldAsks(p, d, field);
  }

  lemma NothingAsks(p: Packet, d: FlowDirection, field: FieldRef)
    requires LogicalFieldValue(p, d, field).None?
    ensures HasNone(p, d, field)
  {
    forall e: Entry | e.field == field && Active(e, d)
      ensures PlanOf([e], p, d) == if e.target.NoTarget? then Some([]) else None
    {
      SinglePlan(e, p, d);
    }
  }

  lemma FieldPowers()
    ensures Pow2(4) == 16 && Pow2(8) == 256 && Pow2(16) == 0x1_0000 && Pow2(20) == 0x10_0000
  {
    Pow2Values();
    Pow2Add(16, 4);
  }

  /** The header fields that do not depend on the direction. */
  lemma SharedFields(p: Packet, d: FlowDirection)
    ensures HasNumber(p, d, Ipv6(Version), 6, 4)
    ensures HasNumber(p, d, Ipv6(TrafficClass), p.trafficClass, 8)
    ensures HasNumber(p, d, Ipv6(FlowLabel), p.flowLabel, 20)
    ensures HasNumber(p, d, Ipv6(PayloadLength), p.payloadLength, 16)
    ensures HasNumber(p, d, Ipv6(NextHeader), p.nextHeader, 8)
    ensures HasNumber(p, d, Ipv6(HopLimit), p.hopLimit, 8)
    ensures HasNumber(p, d, Udp(Length), p.udpLength, 16)
    ensures HasNumber(p, d, Udp(Checksum), p.udpChecksum, 16)
  {
    FieldPowers();
    IntegerAsks(p, d, Ipv6(Version), 6, 4);
    IntegerAsks(p, d, Ipv6(TrafficClass), p.trafficClass, 8);
    IntegerAsks(p, d, Ipv6(FlowLabel), p.flowLabel, 20);
    IntegerAsks(p, d, Ipv6(PayloadLength), p.payloadLength, 16);
    IntegerAsks(p, d, Ipv6(NextHeader), p.nextHeader, 8);
    IntegerAsks(p, d, Ipv6(HopLimit), p.hopLimit, 8);
    IntegerAsks(p, d, Udp(Length), p.udpLength, 16);
    IntegerAsks(p, d, Udp(Checksum), p.udpChecksum, 16);
  }

  /** Uplink, the device is the source and the application the destination. */
  lemma UplinkFields(p: Packet)
    ensures HasNumber(p, Uplink, Ipv6(DevPrefix), BigEndian(p.source[..8]), 64)
    ensures HasNumber(p, Uplink, Ipv6(Ipv6Field.DevIid), BigEndian(p.source[8..]), 64)
    ensures HasNumber(p, Uplink, Ipv6(AppPrefix), BigEndian(p.destination[..8]), 64)
    ensures HasNumber(p, Uplink, Ipv6(Ipv6Field.AppIid), BigEndian(p.destination[8..]), 64)
    ensures HasNumber(p, Uplink, Udp(DevPort), p.sourcePort, 16)
    ensures HasNumber(p, Uplink, Udp(AppPort), p.destinationPort, 16)
  {
    AddressAsks(p, Uplink, Ipv6(DevPrefix), p.source[..8]);
    AddressAsks(p, Uplink, Ipv6(Ipv6Field.DevIid), p.source[8..]);
    AddressAsks(p, Uplink, Ipv6(AppPrefix), p.destination[..8]);
    AddressAsks(p, Uplink, Ipv6(Ipv6Field.AppIid), p.destination[8..]);
    FieldPowers();
    IntegerAsks(p, Uplink, Udp(DevPort), p.sourcePort, 16);
    IntegerAsks(p, Uplink, Udp(AppPort), p.destinationPort, 16);
  }

  /** Downlink, the device is the destination and the application the source. */
  lemma DownlinkFields(p: Packet)
    ensures HasNumber(p, Downlink, Ipv6(DevPrefix), BigEndian(p.destination[..8]), 64)
    ensures HasNumber(p, Downlink, Ipv6(Ipv6Field.DevIid), BigEndian(p.destination[8..]), 64)
    ensures HasNumber(p, Downlink, Ipv6(AppPrefix), BigEndian(p.source[..8]), 64)
    ensures HasNumber(p, Downlink, Ipv6(Ipv6Field.AppIid), BigEndian(p.source[8..]), 64)
    ensures HasNumber(p, Downlink, Udp(DevPort), p.destinationPort, 16)
    ensures HasNumber(p, Downlink, Udp(AppPort), p.sourcePort, 16)
  {
    AddressAsks(p, Downlink, Ipv6(DevPrefix), p.destination[..8]);
    AddressAsks(p, Downlink, Ipv6(Ipv6Field.DevIid), p.destination[8..]);
    AddressAsks(p, Downlink, Ipv6(AppPrefix), p.source[..8]);
    AddressAsks(p, Downlink, Ipv6(Ipv6Field.AppIid), p.source[8..]);
    FieldPowers();
    IntegerAsks(p, Downlink, Udp(DevPort), p.destinationPort, 16);
    IntegerAsks(p, Downlink, Udp(AppPort), p.sourcePort, 16);
  }

  /** The fields a packet has no value for. */
  lemma OtherFields(p: Packet, d: FlowDirection)
    ensures HasNone(p, d, Ipv6(OtherIpv6)) && HasNone(p, d, Udp(UdpPayload)) && HasNone(p, d, Udp(OtherUdp))
    ensures HasNone(p, d, Payload) && forall name :: HasNone(p, d, OtherField(name))
  {
    NothingAsks(p, d, Ipv6(OtherIpv6));
    NothingAsks(p, d, Udp(UdpPayload));
    NothingAsks(p, d, Udp(OtherUdp));
    NothingAsks(p, d, Payload);
    forall name ensures HasNone(p, d, OtherField(name)) {
      NothingAsks(p, d, OtherField(name));
    }
  }

  /** An entry that ignores its field or is for the other direction asks for nothing. */
  lemma InactiveEntry(e: Entry, p: Packet, d: FlowDirection)
    requires !Active(e, d)
    ensures PlanOf([e], p, d) == Some([])
  {
    SinglePlan(e, p, d);
  }

  // ---------- a whole rule ----------

  /** A rule is planned entry by entry: it can be adapted exactly when each entry can, the overrides are those of its
      entries, and they are listed by rising entry index. */
  lemma PlanByEntries(entries: seq<Entry>, p: Packet, d: FlowDirection)
    requires CanonicalEntries(entries)
    ensures PlanOf(entries, p, d).Some? <==> forall i :: 0 <= i < |entries| ==> PlanOf([entries[i]], p, d).Some?
    ensures PlanOf(entries, p, d).Some? ==>
              var os := PlanOf(entries, p, d).value;
              && (forall o :: o in os <==>
                    exists i :: 0 <= i < |entries| && PlanOf([entries[i]], p, d).Some?
                      && o in PlanOf([entries[i]], p, d).value)
              && (forall i, j :: 0 <= i < j < |os| ==> os[i].entryIndex < os[j].entryIndex)
  {
    var plans := PlanAll(entries, p, d);
    forall i | 0 <= i < |entries|
      ensures PlanOf([entries[i]], p, d).Some? <==> plans[i].plan != Unsuitable
      ensures plans[i].plan != Unsuitable ==>
                forall o :: o in PlanOf([entries[i]], p, d).value <==> Asks(plans, i, o)
    {
      SinglePlan(entries[i], p, d);
    }
    if forall i :: 0 <= i < |plans| ==> plans[i].plan != Unsuitable {
      AllAgree(plans);
    }
    if Changes(plans).Some? {
      forall o: Override ensures o in Changes(plans).value <==> exists i :: Asks(plans, i, o) {
        ChangesMeaning(plans, o);
      }
      ChangesMeaning(plans, Override(0, ""));
      ChangesDistinct(plans);
      SortedPlan(Changes(plans).value);
    }
  }

  lemma SortedPlan(os: seq<Override>)
    requires DistinctKeys(OverrideKey, os)
    ensures var sorted := SortBy(OverrideKey, os);
            && (forall o :: o in sorted <==> o in os)
            && forall i, j :: 0 <= i < j < |sorted| ==> sorted[i].entryIndex < sorted[j].entryIndex
  {
    var sorted := SortBy(OverrideKey, os);
    SortPermutes(OverrideKey, os);
    SortSorts(OverrideKey, os);
    DistinctKeysPermute(OverrideKey, os, sorted);
    forall o ensures o in sorted <==> o in os {
      InMultiset(sorted, os, o);
    }
    forall i, j | 0 <= i < j < |sorted| ensures sorted[i].entryIndex < sorted[j].entryIndex {
      assert OverrideKey(sorted[i]).AtMost(OverrideKey(sorted[j])) && OverrideKey(sorted[i]) != OverrideKey(sorted[j]);
    }
  }
}
