/**
 Planning a flow change: which entries of a parent rule a packet disagrees with, what values
 they must take, and why a rule with those values written agrees with the packet.
 */
module Flow {
  import opened Bits
  import opened Wrappers
  import opened Sorting
  import opened RuleModel
  import opened TargetValues
  import opened Paths
  import opened Overrides

  datatype FlowDirection = Uplink | Downlink

  type u16 = x: int | 0 <= x < 0x1_0000

  type u20 = x: int | 0 <= x < 0x10_0000

  type address = bytes: seq<byte> | |bytes| == 16 witness seq(16, i => 0)

  datatype Packet = Packet(source: address, destination: address, sourcePort: u16, destinationPort: u16,
                           trafficClass: byte, flowLabel: u20, payloadLength: u16, nextHeader: byte,
                           hopLimit: byte, udpLength: u16, udpChecksum: u16)

  datatype Override = Override(entryIndex: nat, targetValue: string)

  datatype FlowError = UnrepresentableFlow

  function SchcDirection(d: FlowDirection): Direction {
    if d == Uplink then Up else Down
  }

  // ---------- packet fields ----------

  datatype FieldValue = FieldValue(bytes: seq<byte>, bits: nat)

  function Integer(value: u64, bits: nat): FieldValue
    requires 1 <= bits <= 64
  {
    FieldValue(IntegerBytes(value, bits), bits)
  }

  /** The value a packet gives a field, seen from the device. */
  function LogicalFieldValue(p: Packet, d: FlowDirection, field: FieldRef): Option<FieldValue> {
    var device := if d == Uplink then p.source else p.destination;
    var application := if d == Uplink then p.destination else p.source;
    var devicePort := if d == Uplink then p.sourcePort else p.destinationPort;
    var applicationPort := if d == Uplink then p.destinationPort else p.sourcePort;
    match field
    case Ipv6(Version) => Some(Integer(6, 4))
    case Ipv6(TrafficClass) => Some(Integer(p.trafficClass, 8))
    case Ipv6(FlowLabel) => Some(Integer(p.flowLabel, 20))
    case Ipv6(PayloadLength) => Some(Integer(p.payloadLength, 16))
    case Ipv6(NextHeader) => Some(Integer(p.nextHeader, 8))
    case Ipv6(HopLimit) => Some(Integer(p.hopLimit, 8))
    case Ipv6(DevPrefix) => Some(FieldValue(device[..8], 64))
    case Ipv6(DevIid) => Some(FieldValue(device[8..], 64))
    case Ipv6(AppPrefix) => Some(FieldValue(application[..8], 64))
    case Ipv6(AppIid) => Some(FieldValue(application[8..], 64))
    case Udp(DevPort) => Some(Integer(devicePort, 16))
    case Udp(AppPort) => Some(Integer(applicationPort, 16))
    case Udp(Length) => Some(Integer(p.udpLength, 16))
    case Udp(Checksum) => Some(Integer(p.udpChecksum, 16))
    case _ => None
  }

  /** Every field value fills whole bytes, at most eight of them. */
  lemma FieldWidth(p: Packet, d: FlowDirection, field: FieldRef)
    requires LogicalFieldValue(p, d, field).Some?
    ensures var v := LogicalFieldValue(p, d, field).value;
            v.bits <= 64 && 0 < |v.bytes| == (v.bits + 7) / 8 <= 8
  {
  }

  // ---------- matching ----------

  /** Bit `index` of the storage, counted from the left; past the end it reads as zero. */
  predicate BitAt(bytes: seq<byte>, index: nat) {
    index / 8 < |bytes| && (bytes[index / 8] / Pow2(7 - index % 8)) % 2 == 1
  }

  function Min(a: nat, b: nat): nat { if a <= b then a else b }

  predicate SameLeadingBits(a: seq<byte>, b: seq<byte>, count: nat) {
    forall i :: 0 <= i < count ==> BitAt(a, i) == BitAt(b, i)
  }

  /** How many leading bits the operator compares. */
  function CompareBits(matching: MatchingOperator, bits: nat): nat {
    if matching.Msb? then Min(matching.prefix, bits) else bits
  }

  /** Equal compares numbers; every other operator compares left-aligned storage bits. */
  predicate TargetMatches(actual: seq<byte>, target: seq<byte>, bits: nat, matching: MatchingOperator) {
    if matching == Equal then U64Value(actual) == U64Value(target)
    else SameLeadingBits(actual, target, CompareBits(matching, bits))
  }

  predicate EntryMatches(e: Entry, v: FieldValue) {
    match e.target
    case NoTarget => false
    case Bytes(target) => TargetMatches(v.bytes, target, v.bits, e.matching)
    case Mapping(targets) => exists i :: 0 <= i < |targets| && TargetMatches(v.bytes, targets[i], v.bits, e.matching)
  }

  // ---------- the plan ----------

  datatype FieldPlan = Agrees | Unsuitable | Change(value: u64)

  /** What one entry asks for: nothing, a change of its target, or another parent. */
  function PlanField(e: Entry, p: Packet, d: FlowDirection): FieldPlan {
    if !e.direction.Accepts(SchcDirection(d)) || e.matching == Ignore then Agrees
    else match LogicalFieldValue(p, d, e.field)
      case None => if e.target.NoTarget? then Agrees else Unsuitable
      case Some(v) =>
        if EntryMatches(e, v) then Agrees
        else if !e.target.Bytes? || !e.length.FixedBits? || v.bits > 64 then Unsuitable
        else
          FieldWidth(p, d, e.field);
          Change(U64Value(v.bytes).value)
  }

  datatype EntryPlan = EntryPlan(index: nat, plan: FieldPlan) {
    function AsOverride(): Override
      requires plan.Change?
    {
      Override(index, ToDecimal(plan.value))
    }
  }

  function PlanEntry(e: Entry, p: Packet, d: FlowDirection): EntryPlan {
    EntryPlan(e.index, PlanField(e, p, d))
  }

  function PlanAll(entries: seq<Entry>, p: Packet, d: FlowDirection): (r: seq<EntryPlan>)
    ensures |r| == |entries|
    ensures forall i :: 0 <= i < |entries| ==> r[i] == PlanEntry(entries[i], p, d)
  {
    seq(|entries|, i requires 0 <= i < |entries| => PlanEntry(entries[i], p, d))
  }

  /** The overrides asked for, unless one entry rules the parent out. */
  function Changes(plans: seq<EntryPlan>): Option<seq<Override>> {
    if plans == [] then Some([])
    else
      var before, last := Changes(plans[..|plans| - 1]), plans[|plans| - 1];
      if before.None? then None
      else match last.plan
        case Agrees => before
        case Unsuitable => None
        case Change(_) => Some(before.value + [last.AsOverride()])
  }

  function OverrideKey(o: Override): Key { Key(o.entryIndex, 0) }

  function PlanOf(entries: seq<Entry>, p: Packet, d: FlowDirection): Option<seq<Override>> {
    var changes := Changes(PlanAll(entries, p, d));
    if changes.None? then None else Some(SortBy(OverrideKey, changes.value))
  }

  lemma {:induction false} ChangesOfPrefix(plans: seq<EntryPlan>, n: nat)
    requires n <= |plans|
    ensures Changes(plans[..n]).None? ==> Changes(plans).None?
    decreases |plans|
  {
    if n == |plans| {
      assert plans[..n] == plans;
    } else {
      assert plans[..|plans| - 1][..n] == plans[..n];
      ChangesOfPrefix(plans[..|plans| - 1], n);
    }
  }

  /** Collects the overrides of one parent; a packet field never exceeds 64 bits, so it never fails. */
  method FlowOverrides(parent: Rule, p: Packet, d: FlowDirection) returns (r: Result<Option<seq<Override>>, FlowError>)
    ensures r == Ok(PlanOf(parent.entries, p, d))
  {
    var overrides: seq<Override> := [];
    var entries := parent.entries;
    ghost var plans := PlanAll(entries, p, d);
    var i := 0;
    while i < |entries|
      invariant 0 <= i <= |entries|
      invariant Changes(plans[..i]) == Some(overrides)
    {
      var e := entries[i];
      assert plans[..i + 1][..i] == plans[..i];
      i := i + 1;
      ChangesOfPrefix(plans, i);
      if !e.direction.Accepts(SchcDirection(d)) || e.matching == Ignore {
        continue;
      }
      var logical := LogicalFieldValue(p, d, e.field);
      if logical.None? {
        if e.target.NoTarget? {
          continue;
        }
        return Ok(None);
      }
      if EntryMatches(e, logical.value) {
        continue;
      }
      if !e.target.Bytes? || !e.length.FixedBits? || logical.value.bits > 64 {
        return Ok(None);
      }
      FieldWidth(p, d, e.field);
      var value := BytesToU64(logical.value.bytes);
      if value.None? {
        return Err(UnrepresentableFlow);
      }
      overrides := overrides + [Override(e.index, ToDecimal(value.value))];
    }
    assert plans[..i] == plans;
    return Ok(Some(SortBy(OverrideKey, overrides)));
  }

  ghost predicate Asks(plans: seq<EntryPlan>, i: int, o: Override) {
    0 <= i < |plans| && plans[i].plan.Change? && o == plans[i].AsOverride()
  }

  /** The plan lists exactly the entries that must change. */
  lemma {:induction false} ChangesMeaning(plans: seq<EntryPlan>, o: Override)
    requires Changes(plans).Some?
    ensures forall i :: 0 <= i < |plans| ==> plans[i].plan != Unsuitable
    ensures o in Changes(plans).value <==> exists i :: Asks(plans, i, o)
  {
    if plans != [] {
      var init := plans[..|plans| - 1];
      ChangesMeaning(init, o);
      forall i | 0 <= i < |plans| ensures plans[i].plan != Unsuitable {
        assert i < |init| ==> plans[i] == init[i];
      }
      forall i ensures Asks(plans, i, o) <==> Asks(init, i, o) || (i == |init| && Asks(plans, |init|, o)) {
      }
      assert (exists i :: Asks(plans, i, o)) <==> (exists i :: Asks(init, i, o)) || Asks(plans, |init|, o);
    }
  }

  /** Entry indices rise along a canonical rule, so no entry is listed twice. */
  lemma {:induction false} ChangesDistinct(plans: seq<EntryPlan>)
    requires forall i, j :: 0 <= i < j < |plans| ==> plans[i].index < plans[j].index
    requires Changes(plans).Some?
    ensures DistinctKeys(OverrideKey, Changes(plans).value)
  {
    if plans != [] {
      var init, last := plans[..|plans| - 1], plans[|plans| - 1];
      ChangesDistinct(init);
      var before := Changes(init).value;
      forall o | o in before ensures o.entryIndex < last.index {
        ChangesMeaning(init, o);
        var i :| Asks(init, i, o);
        assert plans[i] == init[i];
      }
    }
  }

  // ---------- writing the plan ----------

  /** The sender's conversion of one override against the source entry. */
  function OverrideWrite(entries: seq<Entry>, o: Override): Option<Write> {
    var e := FindEntry(entries, o.entryIndex);
    if e.None? || !e.value.target.Bytes? || !e.value.length.FixedBits? then None
    else
      var bytes := NumericTarget(o.targetValue, e.value.target.bytes, Some(e.value.length.bits));
      if bytes.None? then None else Some(Write(o.entryIndex, Target, TargetBytes(bytes.value)))
  }

  function OverrideWrites(entries: seq<Entry>, os: seq<Override>): (r: Option<seq<Write>>)
    ensures r.Some? ==> |r.value| == |os|
    ensures r.Some? ==> forall i :: 0 <= i < |os| ==> OverrideWrite(entries, os[i]) == Some(r.value[i])
  {
    if os == [] then Some([])
    else
      var before, w := OverrideWrites(entries, os[..|os| - 1]), OverrideWrite(entries, os[|os| - 1]);
      if before.None? || w.None? then None else Some(before.value + [w.value])
  }

  predicate LeadingBitsZero(bytes: seq<byte>, count: nat) {
    forall i :: 0 <= i < count ==> !BitAt(bytes, i)
  }

  /** Whether a value written into the target of this entry will be recognised. Equal compares numbers of at
      most eight bytes. Every other operator compares storage bits from the left, so another width than that
      of the field does no harm only where the compared bits of the narrower form are all zero. */
  predicate Recognised(e: Entry, p: Packet, d: FlowDirection)
    requires e.target.Bytes? && LogicalFieldValue(p, d, e.field).Some?
  {
    var v := LogicalFieldValue(p, d, e.field).value;
    if e.matching == Equal then |e.target.bytes| <= 8
    else
      || |e.target.bytes| == |v.bytes|
      || LeadingBitsZero(ToBytes(BigEndian(v.bytes), Min(|e.target.bytes|, |v.bytes|)), CompareBits(e.matching, v.bits))
  }

  /** `long` is `short` with `zeros` zero bytes in front. */
  ghost predicate Padded(short: seq<byte>, long: seq<byte>, zeros: nat) {
    && |long| == |short| + zeros
    && (forall i :: 0 <= i < zeros ==> long[i] == 0)
    && (forall i :: 0 <= i < |short| ==> long[zeros + i] == short[i])
  }

  lemma ZeroByteBits(bytes: seq<byte>, i: nat)
    requires i / 8 < |bytes| && bytes[i / 8] == 0
    ensures !BitAt(bytes, i)
  {
    QuotientIs(0, Pow2(7 - i % 8), 0);
  }

  lemma EightFold(i: nat, zeros: nat)
    ensures i < 8 * zeros ==> i / 8 < zeros
    ensures i >= 8 * zeros ==> (i - 8 * zeros) / 8 == i / 8 - zeros && (i - 8 * zeros) % 8 == i % 8
  {
  }

  lemma PaddedBit(short: seq<byte>, long: seq<byte>, zeros: nat, i: nat)
    requires Padded(short, long, zeros)
    ensures BitAt(long, i) == (i >= 8 * zeros && BitAt(short, i - 8 * zeros))
  {
    EightFold(i, zeros);
    if i < 8 * zeros {
      ZeroByteBits(long, i);
    } else if i / 8 < |long| {
      assert long[zeros + (i / 8 - zeros)] == short[i / 8 - zeros];
    }
  }

  /** Bits that agree with themselves shifted, zeros moving in, are zero. */
  lemma {:induction false} AgreeingBitIsZero(short: seq<byte>, long: seq<byte>, zeros: nat, count: nat, i: nat)
    requires Padded(short, long, zeros) && zeros > 0 && SameLeadingBits(long, short, count) && i < count
    ensures !BitAt(short, i)
  {
    PaddedBit(short, long, zeros, i);
    if i >= 8 * zeros {
      AgreeingBitIsZero(short, long, zeros, count, i - 8 * zeros);
    }
  }

  /** A padded form agrees with the unpadded one on leading bits exactly when those are zero. */
  lemma PaddedAgrees(short: seq<byte>, long: seq<byte>, zeros: nat, count: nat)
    requires Padded(short, long, zeros) && zeros > 0
    ensures SameLeadingBits(long, short, count) <==> LeadingBitsZero(short, count)
    ensures SameLeadingBits(short, long, count) <==> LeadingBitsZero(short, count)
  {
    if SameLeadingBits(long, short, count) {
      forall i | 0 <= i < count ensures !BitAt(short, i) {
        AgreeingBitIsZero(short, long, zeros, count, i);
      }
    }
    if LeadingBitsZero(short, count) {
      forall i | 0 <= i < count ensures BitAt(long, i) == BitAt(short, i) {
        PaddedBit(short, long, zeros, i);
      }
    }
  }

  lemma WideFormIsPadded(n: nat, k: nat, z: nat)
    requires n < Pow2(8 * k)
    ensures Padded(ToBytes(n, k), ToBytes(n, z + k), z)
  {
    ToBytesWide(n, k, z);
    ZeroForm(z);
  }

  /** The same value in more bytes is padded. */
  lemma WiderIsPadded(short: seq<byte>, long: seq<byte>, z: nat)
    requires BigEndian(short) == BigEndian(long) && z + |short| == |long|
    ensures Padded(short, long, z) && ToBytes(BigEndian(short), |short|) == short
  {
    BigEndianInjective(short);
    BigEndianInjective(long);
    BigEndianBound(short);
    WideFormIsPadded(BigEndian(short), |short|, z);
  }

  /** The same value in two widths agrees on leading bits exactly when those of the narrower form are zero. */
  lemma WiderAgrees(short: seq<byte>, long: seq<byte>, count: nat)
    requires BigEndian(short) == BigEndian(long) && |short| < |long|
    ensures SameLeadingBits(long, short, count) <==> LeadingBitsZero(ToBytes(BigEndian(short), |short|), count)
    ensures SameLeadingBits(short, long, count) <==> LeadingBitsZero(ToBytes(BigEndian(short), |short|), count)
  {
    WiderIsPadded(short, long, |long| - |short|);
    PaddedAgrees(short, long, |long| - |short|, count);
  }

  /** What a written value matches, operator by operator. */
  lemma WrittenMatches(e: Entry, v: FieldValue, written: seq<byte>)
    requires e.target.Bytes? && e.matching != Equal && BigEndian(written) == BigEndian(v.bytes)
    ensures TargetMatches(v.bytes, written, v.bits, e.matching) <==>
            || |written| == |v.bytes|
            || LeadingBitsZero(ToBytes(BigEndian(v.bytes), Min(|written|, |v.bytes|)), CompareBits(e.matching, v.bits))
  {
    if |written| == |v.bytes| {
      BigEndianInjective(written);
      BigEndianInjective(v.bytes);
      assert written == v.bytes;
    } else if |written| < |v.bytes| {
      WiderAgrees(written, v.bytes, CompareBits(e.matching, v.bits));
    } else {
      WiderAgrees(v.bytes, written, CompareBits(e.matching, v.bits));
    }
  }

  /** One entry: after the sender's conversion is written, the entry agrees with the packet exactly when the
      value is recognised; otherwise it asks for the same change again. */
  lemma ChangedEntryAgrees(e: Entry, p: Packet, d: FlowDirection, written: seq<byte>)
    requires PlanField(e, p, d).Change?
    requires NumericTarget(ToDecimal(PlanField(e, p, d).value), e.target.bytes, Some(e.length.bits)) == Some(written)
    ensures PlanField(e.(target := Bytes(written)), p, d) == if Recognised(e, p, d) then Agrees else PlanField(e, p, d)
  {
    WrittenValue(e, p, d, written);
    FieldWidth(p, d, e.field);
    if e.matching != Equal {
      WrittenMatches(e, LogicalFieldValue(p, d, e.field).value, written);
    }
  }

  lemma WrittenValue(e: Entry, p: Packet, d: FlowDirection, written: seq<byte>)
    requires PlanField(e, p, d).Change?
    requires NumericTarget(ToDecimal(PlanField(e, p, d).value), e.target.bytes, Some(e.length.bits)) == Some(written)
    ensures |written| == |e.target.bytes|
    ensures BigEndian(written) == BigEndian(LogicalFieldValue(p, d, e.field).value.bytes)
  {
    FieldWidth(p, d, e.field);
    DecimalRoundTrip(PlanField(e, p, d).value);
    ToBytesValue(PlanField(e, p, d).value, |e.target.bytes|);
  }

  ghost predicate AllRecognised(entries: seq<Entry>, p: Packet, d: FlowDirection) {
    forall i :: 0 <= i < |entries| && PlanField(entries[i], p, d).Change? ==> Recognised(entries[i], p, d)
  }

  /** Writing a whole plan into a canonical parent leaves nothing to change for the same packet exactly when
      every written value is recognised; in any case the result can still be adapted. */
  lemma PlanSoundness(parent: Rule, p: Packet, d: FlowDirection, os: seq<Override>, ws: seq<Write>, result: Rule)
    requires CanonicalEntries(parent.entries)
    requires PlanOf(parent.entries, p, d) == Some(os)
    requires OverrideWrites(parent.entries, os) == Some(ws) && ApplyWrites(parent, ws) == Some(result)
    ensures PlanOf(result.entries, p, d).Some?
    ensures PlanOf(result.entries, p, d) == Some([]) <==> AllRecognised(parent.entries, p, d)
  {
    var plans, after := PlanAll(parent.entries, p, d), PlanAll(result.entries, p, d);
    ApplyWritesMeaning(parent, ws);
    PlanWritesDistinct(parent.entries, plans, os, ws);
    forall i | 0 <= i < |after|
      ensures after[i].plan ==
              if plans[i].plan.Change? && !Recognised(parent.entries[i], p, d) then plans[i].plan else Agrees
    {
      PlannedEntry(parent.entries, p, d, os, ws, i);
    }
    SettledIff(after);
    assert forall i :: 0 <= i < |after| ==> plans[i].plan == PlanField(parent.entries[i], p, d);
  }

  /** What one patched entry asks for. */
  lemma PlannedEntry(entries: seq<Entry>, p: Packet, d: FlowDirection, os: seq<Override>, ws: seq<Write>, i: nat)
    requires PlansOf(entries, PlanAll(entries, p, d), os) && i < |entries|
    requires OverrideWrites(entries, os) == Some(ws) && DistinctLeaves(ws)
    ensures var plan := PlanField(entries[i], p, d);
            PlanField(PatchEntry(entries[i], ws), p, d)
            == if plan.Change? && !Recognised(entries[i], p, d) then plan else Agrees
  {
    var plans := PlanAll(entries, p, d);
    if plans[i].plan.Change? {
      ListedEntry(entries, plans, os, ws, i);
      ChangedEntryAgrees(entries[i], p, d, Lookup(ws, entries[i].index, Target).value.bytes);
    } else {
      UnlistedEntry(entries, plans, os, ws, i);
    }
  }

  /** How a plan belongs to a canonical list of entries. */
  ghost predicate PlansOf(entries: seq<Entry>, plans: seq<EntryPlan>, os: seq<Override>) {
    && CanonicalEntries(entries) && |plans| == |entries|
    && (forall i :: 0 <= i < |entries| ==> plans[i].index == entries[i].index)
    && Changes(plans).Some? && os == SortBy(OverrideKey, Changes(plans).value)
  }

  lemma PlanWritesDistinct(entries: seq<Entry>, plans: seq<EntryPlan>, os: seq<Override>, ws: seq<Write>)
    requires PlansOf(entries, plans, os) && OverrideWrites(entries, os) == Some(ws)
    ensures DistinctLeaves(ws)
  {
    ChangesDistinct(plans);
    SortPermutes(OverrideKey, Changes(plans).value);
    DistinctKeysPermute(OverrideKey, Changes(plans).value, os);
    forall i, j | 0 <= i < j < |ws| ensures (ws[i].entry, ws[i].leaf) != (ws[j].entry, ws[j].leaf) {
      assert OverrideKey(os[i]) != OverrideKey(os[j]);
      assert OverrideWrite(entries, os[i]) == Some(ws[i]) && OverrideWrite(entries, os[j]) == Some(ws[j]);
    }
  }

  /** The write of a changed entry. */
  lemma ListedWrite(entries: seq<Entry>, plans: seq<EntryPlan>, os: seq<Override>, ws: seq<Write>, i: nat)
    returns (k: nat)
    requires PlansOf(entries, plans, os) && i < |entries| && plans[i].plan.Change?
    requires OverrideWrites(entries, os) == Some(ws)
    ensures k < |ws| && OverrideWrite(entries, plans[i].AsOverride()) == Some(ws[k])
  {
    var o := plans[i].AsOverride();
    SortPermutes(OverrideKey, Changes(plans).value);
    ChangesMeaning(plans, o);
    assert Asks(plans, i, o);
    InMultiset(Changes(plans).value, os, o);
    k :| 0 <= k < |os| && os[k] == o;
    assert OverrideWrite(entries, os[k]) == Some(ws[k]);
  }

  /** A changed entry is patched in its target only, with the converted value. */
  lemma ListedEntry(entries: seq<Entry>, plans: seq<EntryPlan>, os: seq<Override>, ws: seq<Write>, i: nat)
    requires PlansOf(entries, plans, os) && i < |entries| && plans[i].plan.Change?
    requires OverrideWrites(entries, os) == Some(ws) && DistinctLeaves(ws)
    ensures entries[i].target.Bytes? && entries[i].length.FixedBits?
    ensures var t := Lookup(ws, entries[i].index, Target);
            && t.Some? && t.value.TargetBytes?
            && NumericTarget(ToDecimal(plans[i].plan.value), entries[i].target.bytes, Some(entries[i].length.bits))
              == Some(t.value.bytes)
            && PatchEntry(entries[i], ws) == entries[i].(target := Bytes(t.value.bytes))
  {
    var e := entries[i];
    OnlyTargets(entries, os, ws, e.index);
    FindUniqueEntry(entries, i);
    var k := ListedWrite(entries, plans, os, ws, i);
    LookupDistinct(ws, e.index, Target, ws[k].value);
  }

  lemma OnlyTargets(entries: seq<Entry>, os: seq<Override>, ws: seq<Write>, index: nat)
    requires OverrideWrites(entries, os) == Some(ws)
    ensures Lookup(ws, index, MatchingLeaf) == None && Lookup(ws, index, CdaLeaf) == None
  {
    forall k | 0 <= k < |ws| ensures ws[k].leaf == Target {
      assert OverrideWrite(entries, os[k]) == Some(ws[k]);
    }
    NeverWritten(ws, index, MatchingLeaf);
    NeverWritten(ws, index, CdaLeaf);
  }

  lemma {:induction false} NeverWritten(ws: seq<Write>, index: nat, leaf: Leaf)
    requires forall k :: 0 <= k < |ws| ==> ws[k].entry != index || ws[k].leaf != leaf
    ensures Lookup(ws, index, leaf) == None
  {
    if ws != [] {
      NeverWritten(ws[..|ws| - 1], index, leaf);
    }
  }

  /** Every override of the plan is that of an entry that must change. */
  lemma ListedIsChange(plans: seq<EntryPlan>, os: seq<Override>, k: nat) returns (j: nat)
    requires Changes(plans).Some? && os == SortBy(OverrideKey, Changes(plans).value) && k < |os|
    ensures j < |plans| && plans[j].plan.Change? && os[k] == plans[j].AsOverride()
  {
    SortPermutes(OverrideKey, Changes(plans).value);
    InMultiset(Changes(plans).value, os, os[k]);
    ChangesMeaning(plans, os[k]);
    j :| Asks(plans, j, os[k]);
  }

  /** An entry the plan does not list is not touched. */
  lemma UnlistedEntry(entries: seq<Entry>, plans: seq<EntryPlan>, os: seq<Override>, ws: seq<Write>, i: nat)
    requires PlansOf(entries, plans, os) && i < |entries| && !plans[i].plan.Change?
    requires OverrideWrites(entries, os) == Some(ws)
    ensures plans[i].plan == Agrees
    ensures PatchEntry(entries[i], ws) == entries[i]
  {
    ChangesMeaning(plans, Override(0, ""));
    OnlyTargets(entries, os, ws, entries[i].index);
    forall k | 0 <= k < |ws| ensures ws[k].entry != entries[i].index {
      assert OverrideWrite(entries, os[k]) == Some(ws[k]);
      var j := ListedIsChange(plans, os, k);
      assert i != j;
    }
    NeverWritten(ws, entries[i].index, Target);
  }

  /** A plan without unsuitable entries is empty exactly when every entry agrees. */
  lemma {:induction false} AllAgree(plans: seq<EntryPlan>)
    requires forall i :: 0 <= i < |plans| ==> plans[i].plan != Unsuitable
    ensures Changes(plans).Some?
    ensures Changes(plans) == Some([]) <==> forall i :: 0 <= i < |plans| ==> plans[i].plan == Agrees
  {
    if plans != [] {
      AllAgree(plans[..|plans| - 1]);
    }
  }

  lemma SettledIff(plans: seq<EntryPlan>)
    requires forall i :: 0 <= i < |plans| ==> plans[i].plan != Unsuitable
    ensures Changes(plans).Some?
    ensures SortBy(OverrideKey, Changes(plans).value) == []
      <==> forall i :: 0 <= i < |plans| ==> plans[i].plan == Agrees
  {
    AllAgree(plans);
    SortPermutes(OverrideKey, Changes(plans).value);
  }

  /** A plan that never settles: the next-header byte 17 (UDP) held in two
      bytes under a most-significant-bits operator is written with the right number and still
      disagrees, because the comparison starts at the padding. */
  lemma WideMsbTargetNeverSettles(p: Packet, d: FlowDirection) returns (e: Entry, written: seq<byte>)
    requires p.nextHeader == 17
    ensures PlanField(e, p, d) == Change(17) && !Recognised(e, p, d)
    ensures NumericTarget(ToDecimal(17), e.target.bytes, Some(e.length.bits)) == Some(written)
    ensures PlanField(e.(target := Bytes(written)), p, d) == Change(17)
  {
    e := MsbEntry([255, 0]);
    written := [0, 17];
    LeadingBitsDiffer();
    MsbEntryPlan(p, d, [255, 0]);
    WrittenInTwoBytes();
    MsbEntryUnrecognised(p, d);
    ChangedEntryAgrees(e, p, d, written);
  }

  lemma MsbEntryUnrecognised(p: Packet, d: FlowDirection)
    requires p.nextHeader == 17
    ensures !Recognised(MsbEntry([255, 0]), p, d)
  {
    NextHeaderBytes();
    SmallNumber(17);
    LeadingBitsDiffer();
  }

  function MsbEntry(target: seq<byte>): Entry {
    Entry(0, Ipv6(NextHeader), Both, FixedBits(8), Bytes(target), Msb(8), Cda.NotSent)
  }

  lemma MsbEntryPlan(p: Packet, d: FlowDirection, target: seq<byte>)
    requires p.nextHeader == 17 && !TargetMatches([17], target, 8, Msb(8))
    ensures PlanField(MsbEntry(target), p, d) == Change(17)
    ensures LogicalFieldValue(p, d, MsbEntry(target).field) == Some(FieldValue([17], 8))
  {
    NextHeaderBytes();
    SmallNumber(17);
  }

  lemma WrittenInTwoBytes()
    ensures NumericTarget(ToDecimal(17), [255, 0], Some(8)) == Some([0, 17])
  {
    DecimalRoundTrip(17);
    Pow2Values();
    SmallNumber(17);
  }

  lemma NextHeaderBytes()
    ensures IntegerBytes(17, 8) == [17]
  {
    Pow2Values();
    ToBytesTail(17, 8, 1);
    SmallNumber(17);
  }

  lemma LeadingBitsDiffer()
    ensures !TargetMatches([17], [255, 0], 8, Msb(8))
    ensures !LeadingBitsZero([17], 8)
  {
    Pow2Values();
    assert Pow2(8) == 2 * Pow2(7);
    assert !BitAt([17], 0) && BitAt([255, 0], 0);
    assert BitAt([17], 3);
  }

  lemma SmallNumber(n: byte)
    ensures ToBytes(n, 1) == [n] && ToBytes(n, 2) == [0, n]
    ensures BigEndian([n]) == n
  {
    assert ToBytes(n, 1) == ToBytes(n / 256, 0) + [n % 256];
    assert ToBytes(n, 2) == ToBytes(n / 256, 1) + [n % 256];
    assert ToBytes(0, 1) == ToBytes(0, 0) + [0];
    assert [n][..0] == [];
  }
}
