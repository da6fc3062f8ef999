/**
 A managed context as the program sees it: an ordered list of rules, each with a RuleID,
 a nature and entries. `Tree` is the canonical datastore tree; the context-level guard
 period is carried along and never interpreted.
 */
module RuleModel {
  import opened Bits
  import opened Wrappers
  import opened Sorting
  import opened RuleIds

  datatype Nature = Compression | NoCompression | Fragmentation | Management

  datatype MatchingOperator = Equal | Ignore | Msb(prefix: nat) | MatchMapping

  datatype Cda = NotSent | ValueSent | MappingSent | Lsb | Compute | DevIid | AppIid

  datatype Direction = Up | Down | Both {
    predicate Accepts(d: Direction) { this == Both || this == d }
  }

  datatype FieldLength = FixedBits(bits: u64) | Variable

  datatype TargetValue = NoTarget | Bytes(bytes: seq<byte>) | Mapping(list: seq<seq<byte>>)

  /** The member of a target-value list with an index. */
  function TargetAt(t: TargetValue, index: nat): Option<seq<byte>> {
    match t
    case NoTarget => None
    case Bytes(b) => if index == 0 then Some(b) else None
    case Mapping(list) => if index < |list| then Some(list[index]) else None
  }

  datatype Ipv6Field = Version | TrafficClass | FlowLabel | PayloadLength | NextHeader | HopLimit
                     | DevPrefix | DevIid | AppPrefix | AppIid | OtherIpv6

  datatype UdpField = DevPort | AppPort | Length | Checksum | UdpPayload | OtherUdp

  datatype FieldRef = Ipv6(ipv6: Ipv6Field) | Udp(udp: UdpField) | Payload | OtherField(name: nat)

  datatype Entry = Entry(index: nat, field: FieldRef, direction: Direction, length: FieldLength,
                         target: TargetValue, matching: MatchingOperator, cda: Cda)

  datatype Rule = Rule(id: RuleId, nature: Nature, entries: seq<Entry>)

  datatype GuardPeriod = GuardPeriod(ticksDuration: nat, ticksNumbers: nat)

  datatype Tree = Tree(rules: seq<Rule>, guardPeriod: Option<GuardPeriod>)

  function RuleKey(rule: Rule): Key { IdKey(rule.id) }

  function RuleIdsOf(rules: seq<Rule>): (ids: seq<RuleId>)
    ensures |ids| == |rules|
    ensures forall i :: 0 <= i < |rules| ==> ids[i] == rules[i].id
  {
    seq(|rules|, i requires 0 <= i < |rules| => rules[i].id)
  }

  /** The first rule with this RuleID. */
  function FindRule(rules: seq<Rule>, id: RuleId): (r: Option<Rule>)
    ensures r.Some? ==> r.value in rules && r.value.id == id
    ensures r.None? <==> forall i :: 0 <= i < |rules| ==> rules[i].id != id
  {
    if rules == [] then None
    else if rules[0].id == id then Some(rules[0])
    else FindRule(rules[1..], id)
  }

  ghost predicate UniqueIds(rules: seq<Rule>) {
    forall i, j :: 0 <= i < j < |rules| ==> rules[i].id != rules[j].id
  }

  lemma UniqueRule(rules: seq<Rule>, a: Rule, b: Rule)
    requires UniqueIds(rules) && a in rules && b in rules && a.id == b.id
    ensures a == b
  {
    var i :| 0 <= i < |rules| && rules[i] == a;
    var j :| 0 <= j < |rules| && rules[j] == b;
    assert i == j;
  }

  lemma FindUnique(rules: seq<Rule>, rule: Rule)
    requires UniqueIds(rules) && rule in rules
    ensures FindRule(rules, rule.id) == Some(rule)
  {
    var i :| 0 <= i < |rules| && rules[i] == rule;
    assert rules[i].id == rule.id;
    UniqueRule(rules, FindRule(rules, rule.id).value, rule);
  }

  // ---------- canonical form ----------

  /** Entries in increasing index order, none repeated. */
  predicate CanonicalEntries(entries: seq<Entry>) {
    forall i, j :: 0 <= i < j < |entries| ==> entries[i].index < entries[j].index
  }

  /** The form `normalize_tree` leaves unchanged: rules by length then value, entries by index. */
  predicate Canonical(tree: Tree) {
    && Sorted(RuleKey, tree.rules)
    && forall i :: 0 <= i < |tree.rules| ==> CanonicalEntries(tree.rules[i].entries)
  }

  /** The first entry with a given index. */
  function FindEntry(entries: seq<Entry>, index: nat): (r: Option<Entry>)
    ensures r.Some? ==> r.value in entries && r.value.index == index
    ensures r.None? <==> forall i :: 0 <= i < |entries| ==> entries[i].index != index
  {
    if entries == [] then None
    else if entries[0].index == index then Some(entries[0])
    else FindEntry(entries[1..], index)
  }

  lemma FindUniqueEntry(entries: seq<Entry>, i: nat)
    requires CanonicalEntries(entries) && i < |entries|
    ensures FindEntry(entries, entries[i].index) == Some(entries[i])
  {
    var found := FindEntry(entries, entries[i].index);
    assert found.Some?;
    var j :| 0 <= j < |entries| && entries[j] == found.value;
    assert i == j;
  }
}
