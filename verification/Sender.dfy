/**
 Building a duplicate-rule request from overrides, and why the receiver reads back what was meant.
 */
module Sender {
  import opened Bits
  import opened Wrappers
  import opened Sorting
  import opened RuleIds
  import opened RuleModel
  import opened Paths
  import opened Overrides
  import opened Flow
  import opened Duplicate
  import opened Context
  import opened Management

  /** The leaves to change in one entry; the program's callers give each entry once. */
  datatype RuleOverride = RuleOverride(entryIndex: nat, targetValue: Option<string>,
                                       matching: Option<MatchingOperator>, cda: Option<Cda>)

  /** The writes one override stands for: the target converted against the source entry, then the identities. */
  function Intended(entries: seq<Entry>, o: RuleOverride): Option<seq<Write>> {
    var entry := FindEntry(entries, o.entryIndex);
    if entry.None? || o.entryIndex >= U64_LIMIT then None
    else if o.targetValue.None? && o.matching.None? && o.cda.None? then None
    else if o.matching.Some? && o.matching.value.Msb? then None
    else
      var target := if o.targetValue.None? then Some([])
                    else
                      var w := OverrideWrite(entries, Override(o.entryIndex, o.targetValue.value));
                      if w.None? then None else Some([w.value]);
      if target.None? then None
      else Some(target.value
                + (if o.matching.Some? then [Write(o.entryIndex, MatchingLeaf, MatchingIdentity(o.matching.value))]
                   else [])
                + (if o.cda.Some? then [Write(o.entryIndex, CdaLeaf, CdaIdentity(o.cda.value))] else []))
  }

  function Encode(w: Write, destination: RuleId, sids: ModelSids): Instance
    requires w.entry < U64_LIMIT
  {
    Instance(OverridePath(sids, destination, w.entry, w.leaf), Some(w.value))
  }

  predicate Encodable(ws: seq<Write>) {
    forall i :: 0 <= i < |ws| ==> ws[i].entry < U64_LIMIT
  }

  function EncodeAll(ws: seq<Write>, destination: RuleId, sids: ModelSids): (r: seq<Instance>)
    requires Encodable(ws)
    ensures |r| == |ws|
    ensures forall i :: 0 <= i < |ws| ==> r[i] == Encode(ws[i], destination, sids)
  {
    seq(|ws|, i requires 0 <= i < |ws| => Encode(ws[i], destination, sids))
  }

  /** The writes of every override, one group each. */
  function IntendedGroups(entries: seq<Entry>, os: seq<RuleOverride>): (r: Option<seq<seq<Write>>>)
    ensures r.Some? ==> |r.value| == |os|
    ensures r.Some? ==> forall a :: 0 <= a < |os| ==> Intended(entries, os[a]) == Some(r.value[a])
  {
    if os == [] then Some([])
    else
      var before, last := IntendedGroups(entries, os[..|os| - 1]), Intended(entries, os[|os| - 1]);
      if before.None? || last.None? then None else Some(before.value + [last.value])
  }

  /** The writes of one override are of one entry, of distinct leaves, and at least one. */
  lemma IntendedShape(entries: seq<Entry>, o: RuleOverride)
    requires Intended(entries, o).Some?
    ensures var ws := Intended(entries, o).value;
            && Encodable(ws) && 1 <= |ws| <= 3 && DistinctLeaves(ws)
            && forall i :: 0 <= i < |ws| ==> ws[i].entry == o.entryIndex
  {
  }

  function EncodeGroups(groups: seq<seq<Write>>, destination: RuleId, sids: ModelSids): (r: seq<seq<Instance>>)
    requires forall a :: 0 <= a < |groups| ==> Encodable(groups[a])
    ensures |r| == |groups|
    ensures forall a :: 0 <= a < |groups| ==> r[a] == EncodeAll(groups[a], destination, sids)
  {
    seq(|groups|, a requires 0 <= a < |groups| => EncodeAll(groups[a], destination, sids))
  }

  /** An encoded write is read back with its entry, leaf and value. */
  lemma EncodedReadBack(w: Write, destination: RuleId, sids: ModelSids)
    requires w.entry < U64_LIMIT && ValidSelector(destination) && sids.matchingOperator != sids.cda
    ensures Parse(Encode(w, destination, sids), destination, sids) ==
            Parsed(OverridePath(sids, destination, w.entry, w.leaf), Some((w.entry, w.leaf)), Some(w.value))
  {
    LeafRoundTrip(sids, destination, w.entry, w.leaf);
  }

  ghost predicate ReadsBack(list: seq<Parsed>, ws: seq<Write>) {
    && |list| == |ws|
    && forall i :: 0 <= i < |ws| ==>
         && ws[i].entry < U64_LIMIT
         && list[i].key == Some((ws[i].entry, ws[i].leaf)) && list[i].value == Some(ws[i].value)
  }

  /** Different leaves have different paths, because they are read back differently. */
  lemma GroupReadBack(ws: seq<Write>, destination: RuleId, sids: ModelSids)
    requires Encodable(ws) && DistinctLeaves(ws) && ValidSelector(destination) && sids.matchingOperator != sids.cda
    ensures var list := ParseAll(EncodeAll(ws, destination, sids), destination, sids);
            ReadsBack(list, ws) && Distinct(list) && DistinctPaths(list)
  {
    var instances := EncodeAll(ws, destination, sids);
    var list := ParseAll(instances, destination, sids);
    forall i | 0 <= i < |ws|
      ensures list[i].key == Some((ws[i].entry, ws[i].leaf)) && list[i].value == Some(ws[i].value)
      ensures list[i].key == LeafOf(list[i].path, destination, sids)
    {
      EncodedReadBack(ws[i], destination, sids);
    }
    forall i, j | 0 <= i < j < |list| ensures list[i].key != list[j].key && list[i].path != list[j].path {
      assert (ws[i].entry, ws[i].leaf) != (ws[j].entry, ws[j].leaf);
    }
  }

  ghost predicate DistinctEntries(os: seq<RuleOverride>) {
    forall a, b :: 0 <= a < b < |os| ==> os[a].entryIndex != os[b].entryIndex
  }

  lemma ReadBackTouches(list: seq<Parsed>, ws: seq<Write>, entry: nat)
    requires ReadsBack(list, ws) && forall i :: 0 <= i < |ws| ==> ws[i].entry == entry
    ensures forall e :: Touches(list, e) ==> e == entry
  {
  }

  lemma {:induction false} FlattenReadsBack(parsed: seq<seq<Parsed>>, groups: seq<seq<Write>>)
    requires |parsed| == |groups|
    requires forall a :: 0 <= a < |groups| ==> ReadsBack(parsed[a], groups[a])
    ensures ReadsBack(Flatten(parsed), Flatten(groups))
  {
    if groups != [] {
      FlattenReadsBack(parsed[..|groups| - 1], groups[..|groups| - 1]);
    }
  }

  /** What is built from overrides of distinct entries is accepted by the decoder, and decodes to the
      intended writes in order. */
  lemma BuiltIsDecoded(entries: seq<Entry>, os: seq<RuleOverride>, groups: seq<seq<Write>>, destination: RuleId,
                       sids: ModelSids)
    requires IntendedGroups(entries, os) == Some(groups) && DistinctEntries(os)
    requires ValidSelector(destination) && sids.matchingOperator != sids.cda
    ensures forall a :: 0 <= a < |groups| ==> Encodable(groups[a])
    ensures var encoded := EncodeGroups(groups, destination, sids);
            && GroupsOk(ParseGroups(encoded, destination, sids))
            && ReadsBack(ParseAll(Flatten(encoded), destination, sids), Flatten(groups))
  {
    forall a | 0 <= a < |groups| ensures Encodable(groups[a]) {
      IntendedShape(entries, os[a]);
    }
    var encoded := EncodeGroups(groups, destination, sids);
    var parsed := ParseGroups(encoded, destination, sids);
    forall a | 0 <= a < |groups|
      ensures GroupOk(parsed[a]) && ReadsBack(parsed[a], groups[a])
      ensures forall e :: Touches(parsed[a], e) ==> e == os[a].entryIndex
    {
      IntendedShape(entries, os[a]);
      GroupReadBack(groups[a], destination, sids);
      ReadBackTouches(parsed[a], groups[a], os[a].entryIndex);
    }
    forall a, b | 0 <= a < b < |parsed| ensures Apart(parsed[a], parsed[b]) {
      assert os[a].entryIndex != os[b].entryIndex;
    }
    ParseFlatten(encoded, destination, sids);
    FlattenReadsBack(parsed, groups);
  }

  lemma ReadBackWrites(list: seq<Parsed>, ws: seq<Write>)
    requires ReadsBack(list, ws)
    ensures Keyed(list) && AllPresent(list) && WritesOf(list) == ws
  {
  }

  /** Writing what the receiver decoded is writing what the sender meant. */
  lemma SentIsApplied(recipe: Recipe, entries: seq<Entry>, os: seq<RuleOverride>, groups: seq<seq<Write>>,
                      source: RuleId, destination: RuleId, rule: Rule)
    requires IntendedGroups(entries, os) == Some(groups) && DistinctEntries(os)
    requires ValidSelector(source) && ValidSelector(destination) && recipe.sids.matchingOperator != recipe.sids.cda
    requires forall a :: 0 <= a < |groups| ==> Encodable(groups[a])
    ensures var request := DuplicateRequest(source, destination, EncodeGroups(groups, destination, recipe.sids));
            var list := Decoded(recipe, request);
            list.Some? && OverrideRule(rule, list.value) == ApplyWrites(rule, Flatten(groups))
  {
    var encoded := EncodeGroups(groups, destination, recipe.sids);
    BuiltIsDecoded(entries, os, groups, destination, recipe.sids);
    var list := ParseAll(Flatten(encoded), destination, recipe.sids);
    ReadBackWrites(list, Flatten(groups));
    ParseFlatten(encoded, destination, recipe.sids);
    AcceptedAreDistinct(ParseGroups(encoded, destination, recipe.sids));
    SecondCheckNeverFires(rule, list);
  }

  // ---------- a flow plan, sent and applied ----------

  /** A planned override as the console writes it. */
  function AsRuleOverride(o: Override): RuleOverride {
    RuleOverride(o.entryIndex, Some(o.targetValue), None, None)
  }

  function AsRuleOverrides(os: seq<Override>): (r: seq<RuleOverride>)
    ensures |r| == |os| && forall i :: 0 <= i < |os| ==> r[i] == AsRuleOverride(os[i])
  {
    seq(|os|, i requires 0 <= i < |os| => AsRuleOverride(os[i]))
  }

  /** The groups of a flow plan are its writes, one by one. */
  lemma {:induction false} PlanGroups(entries: seq<Entry>, os: seq<Override>, groups: seq<seq<Write>>)
    requires IntendedGroups(entries, AsRuleOverrides(os)) == Some(groups)
    ensures OverrideWrites(entries, os) == Some(Flatten(groups))
  {
    if os != [] {
      var n := |os| - 1;
      assert AsRuleOverrides(os)[..n] == AsRuleOverrides(os[..n]);
      PlanGroups(entries, os[..n], groups[..n]);
      assert AsRuleOverrides(os)[n] == AsRuleOverride(os[n]);
      assert groups[n] == [OverrideWrite(entries, os[n]).value];
    }
  }

  lemma PlanEntriesDistinct(entries: seq<Entry>, p: Packet, d: FlowDirection, os: seq<Override>)
    requires CanonicalEntries(entries) && PlanOf(entries, p, d) == Some(os)
    ensures DistinctEntries(AsRuleOverrides(os))
  {
    var plans := PlanAll(entries, p, d);
    ChangesDistinct(plans);
    SortPermutes(OverrideKey, Changes(plans).value);
    DistinctKeysPermute(OverrideKey, Changes(plans).value, os);
    forall a, b | 0 <= a < b < |os| ensures os[a].entryIndex != os[b].entryIndex {
      assert OverrideKey(os[a]) != OverrideKey(os[b]);
    }
  }

  /** End to end: a flow plan built into a request and applied installs a rule under the destination RuleID,
      and the same packet asks it for no further change exactly when every written value is recognised. */
  lemma AppliedPlanSettles(recipe: Recipe, s: Snapshot, parent: Rule, destination: RuleId, p: Packet, d: FlowDirection,
                           os: seq<Override>, groups: seq<seq<Write>>)
    requires Loadable(recipe, s.tree) && recipe.sids.matchingOperator != recipe.sids.cda
    requires ValidSelector(parent.id) && ValidSelector(destination) && FindRule(s.tree.rules, parent.id) == Some(parent)
    requires PlanOf(parent.entries, p, d) == Some(os)
    requires IntendedGroups(parent.entries, AsRuleOverrides(os)) == Some(groups)
    requires forall a :: 0 <= a < |groups| ==> Encodable(groups[a])
    requires var request := DuplicateRequest(parent.id, destination, EncodeGroups(groups, destination, recipe.sids));
             DuplicateStep(recipe, s, request).1 == Applied
    ensures var request := DuplicateRequest(parent.id, destination, EncodeGroups(groups, destination, recipe.sids));
            var after := DuplicateStep(recipe, s, request).0;
            var installed := FindRule(after.tree.rules, destination);
            && installed.Some? && PlanOf(installed.value.entries, p, d).Some?
            && (PlanOf(installed.value.entries, p, d) == Some([]) <==> AllRecognised(parent.entries, p, d))
  {
    var request := DuplicateRequest(parent.id, destination, EncodeGroups(groups, destination, recipe.sids));
    CanonicalMember(s.tree, parent);
    PlanEntriesDistinct(parent.entries, p, d, os);
    PlanGroups(parent.entries, os, groups);
    SentIsApplied(recipe, parent.entries, AsRuleOverrides(os), groups, parent.id, destination,
      parent.(id := destination));
    AppliedMeans(recipe, s, request);
    var copy := RequestedRule(recipe, s.tree.rules, request).value;
    SettledCopy(parent, destination, p, d, os, Flatten(groups), copy);
    WithRuleFinds(s.tree.rules, copy);
  }

  /** The identity of the copy plays no part in the plan. */
  lemma SettledCopy(parent: Rule, destination: RuleId, p: Packet, d: FlowDirection, os: seq<Override>, ws: seq<Write>,
                    copy: Rule)
    requires CanonicalEntries(parent.entries) && PlanOf(parent.entries, p, d) == Some(os)
    requires OverrideWrites(parent.entries, os) == Some(ws) && ApplyWrites(parent.(id := destination), ws) == Some(copy)
    ensures PlanOf(copy.entries, p, d).Some?
    ensures PlanOf(copy.entries, p, d) == Some([]) <==> AllRecognised(parent.entries, p, d)
  {
    PlanSoundness(parent.(id := destination), p, d, os, ws, copy);
  }
}
