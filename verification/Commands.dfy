/**
 What the two console commands do, told from the text of the command: when they are sent, and what the copies
 hold afterwards.
 */
module Commands {
  import opened Bits
  import opened Wrappers
  import opened RuleIds
  import opened RuleModel
  import opened Policy
  import opened TargetValues
  import opened Paths
  import opened Overrides
  import opened Duplicate
  import opened Context
  import opened Management
  import opened Patches
  import opened Sender
  import opened Replicas

  // ---------- rule update ----------

  function Targets(t: TargetValue): seq<seq<byte>> {
    match t
    case NoTarget => []
    case Bytes(b) => [b]
    case Mapping(list) => list
  }

  function FixedLength(length: FieldLength): Option<u64> {
    match length
    case FixedBits(bits) => Some(bits)
    case Variable => None
  }

  /** The command names an ordinary rule and an entry of it with one target value, and a number it can take. */
  ghost predicate Resolvable(tree: Tree, command: UpdateCommand) {
    && !IsManagement(tree.rules, command.rule)
    && FindRule(tree.rules, command.rule).Some?
    && var entry := FindEntry(FindRule(tree.rules, command.rule).value.entries, command.entry);
       && entry.Some? && |Targets(entry.value.target)| == 1
       && IsDecimal(command.targetValue)
       && Representable(DecimalValue(command.targetValue), |Targets(entry.value.target)[0]|,
         FixedLength(entry.value.length))
  }

  function CommandTarget(command: UpdateCommand): TargetPath {
    TargetPath(command.rule, command.entry, 0)
  }

  /** The number of the command in the width of the target in this context. */
  function NewBytes(tree: Tree, command: UpdateCommand): seq<byte>
    requires IsDecimal(command.targetValue) && Slot(tree, CommandTarget(command)).Some?
  {
    ToBytes(DecimalValue(command.targetValue), |Slot(tree, CommandTarget(command)).value.0|)
  }

  lemma ResolveMeaning(tree: Tree, command: UpdateCommand)
    ensures var r := Resolve(tree, command, IsManagement(tree.rules, command.rule));
            && (r.Some? <==> Resolvable(tree, command))
            && (r.Some? ==>
                  && IsDecimal(command.targetValue) && Slot(tree, CommandTarget(command)).Some?
                  && r == Some(Resolved(CommandTarget(command), NewBytes(tree, command)))
                  && BigEndian(NewBytes(tree, command)) == DecimalValue(command.targetValue))
  {
    var r := Resolve(tree, command, IsManagement(tree.rules, command.rule));
    if r.Some? {
      var entry := FindEntry(FindRule(tree.rules, command.rule).value.entries, command.entry).value;
      assert TargetAt(entry.target, 0) == OnlyTarget(entry.target);
      ToBytesValue(DecimalValue(command.targetValue), |OnlyTarget(entry.target).value|);
    }
  }

  /** An update is refused before anything is sent exactly when the command cannot be resolved. */
  lemma RejectedLocallyIff(core: Recipe, device: Recipe, p: Pair, command: UpdateCommand, exchange: Exchange,
                           during: seq<Tree>, after: seq<Tree>)
    ensures UpdateStep(core, device, p, command, exchange, during, after).1 == RejectedLocally <==>
            !Resolvable(p.core.tree, command)
  {
    ResolveMeaning(p.core.tree, command);
  }

  lemma CheckedStep(recipe: Recipe, s: Snapshot, t: TargetPath, bytes: seq<byte>, tag: Option<nat>)
    requires TargetStep(recipe, s, t, bytes, tag).1 == Changed
    ensures Slot(s.tree, t).Some? && |Slot(s.tree, t).value.0| == |bytes|
  {
    ChecksMeaning(s.tree, t, bytes);
  }

  /** A successful exchange was accepted on both sides. */
  lemma UpdatedWasChanged(core: Recipe, device: Recipe, p: Pair, r: Resolved, tag: Option<nat>, exchange: Exchange,
                          during: seq<Tree>, after: seq<Tree>)
    requires core.sids == device.sids && ValidSelector(r.target.selector)
    requires ExchangeStep(core, device, p, PatchOf(core.sids, r.target, r.bytes, tag), exchange, during, after).1
      == Updated
    ensures TargetStep(device, p.device, r.target, r.bytes, tag).1 == Changed
  {
    PatchOfStep(device, p.device, r.target, r.bytes, tag);
  }

  /** After a successful update both copies hold, in the target the command names, the number it names in the old width,
      and have changed in nothing else. */
  lemma UpdatedValue(core: Recipe, device: Recipe, p: Pair, command: UpdateCommand, exchange: Exchange,
                     during: seq<Tree>, after: seq<Tree>)
    requires core.sids == device.sids && ValidSelector(command.rule)
    requires UpdateStep(core, device, p, command, exchange, during, after).1 == Updated
    ensures var q := UpdateStep(core, device, p, command, exchange, during, after).0;
            IsDecimal(command.targetValue) && HoldsNumber(p.core, q.core, command)
              && HoldsNumber(p.device, q.device, command)
  {
    ResolveMeaning(p.core.tree, command);
    var bytes := NewBytes(p.core.tree, command);
    var r := Resolved(CommandTarget(command), bytes);
    UpdateOutcome(core, device, p, command, exchange, during, after);
    UpdatedWasChanged(core, device, p, r, if command.ifMatch then Some(core.TagOf(p.core.tree)) else None,
                      exchange, during, after);
    CheckedStep(device, p.device, r.target, bytes, if command.ifMatch then Some(core.TagOf(p.core.tree)) else None);
    TakenHolds(p.core, command, bytes);
    TakenHolds(p.device, command, bytes);
  }

  ghost predicate HoldsNumber(before: Snapshot, after: Snapshot, command: UpdateCommand)
    requires IsDecimal(command.targetValue)
  {
    var t := CommandTarget(command);
    && Slot(before.tree, t).Some? && Slot(after.tree, t).Some?
    && |Slot(after.tree, t).value.0| == |Slot(before.tree, t).value.0|
    && BigEndian(Slot(after.tree, t).value.0) == DecimalValue(command.targetValue)
    && Slot(after.tree, t).value.1 == Slot(before.tree, t).value.1
    && after.tree.guardPeriod == before.tree.guardPeriod && |after.tree.rules| == |before.tree.rules|
    && forall i :: 0 <= i < |before.tree.rules| ==> SameButTargets(before.tree.rules[i], after.tree.rules[i], t)
  }

  lemma TakenHolds(s: Snapshot, command: UpdateCommand, bytes: seq<byte>)
    requires IsDecimal(command.targetValue) && Slot(s.tree, CommandTarget(command)).Some?
    requires |bytes| == |Slot(s.tree, CommandTarget(command)).value.0|
    requires BigEndian(bytes) == DecimalValue(command.targetValue)
    ensures HoldsNumber(s, Taken(s, Resolved(CommandTarget(command), bytes)), command)
  {
    SlotPatched(s.tree, CommandTarget(command), bytes);
    PatchFrame(s.tree, CommandTarget(command), bytes);
  }

  /** When an update succeeds, with no other writer on the core: it resolves, the device answers, the tags agree if
      asked, and each copy passes the checks and is accepted by the other packages. */
  lemma UpdateSucceedsIff(core: Recipe, device: Recipe, p: Pair, command: UpdateCommand, exchange: Exchange)
    requires core.sids == device.sids && ValidSelector(command.rule)
    requires Loadable(core, p.core.tree) && Loadable(device, p.device.tree)
    ensures UpdateStep(core, device, p, command, exchange, [], []).1 == Updated <==>
            && Resolvable(p.core.tree, command) && exchange == Answered
            && (command.ifMatch ==> core.TagOf(p.core.tree) == device.TagOf(p.device.tree))
            && Slot(p.core.tree, CommandTarget(command)).Some?
            && TakesBytes(core, p.core.tree, command, NewBytes(p.core.tree, command))
            && TakesBytes(device, p.device.tree, command, NewBytes(p.core.tree, command))
  {
    ResolveMeaning(p.core.tree, command);
    if Resolvable(p.core.tree, command) {
      var bytes := NewBytes(p.core.tree, command);
      var tag := if command.ifMatch then Some(core.TagOf(p.core.tree)) else None;
      AloneExchange(core, device, p, Resolved(CommandTarget(command), bytes), tag, exchange);
      PatchApplies(core, p.core, CommandTarget(command), bytes, tag);
      PatchApplies(device, p.device, CommandTarget(command), bytes, tag);
    }
  }

  ghost predicate TakesBytes(recipe: Recipe, tree: Tree, command: UpdateCommand, bytes: seq<byte>) {
    && PatchChecks(tree, CommandTarget(command), bytes, IsManagement(tree.rules, command.rule)) == Changed
    && recipe.loads(PatchTree(tree, CommandTarget(command), bytes))
  }

  lemma AloneExchange(core: Recipe, device: Recipe, p: Pair, r: Resolved, tag: Option<nat>, exchange: Exchange)
    requires core.sids == device.sids && ValidSelector(r.target.selector)
    ensures var request := PatchOf(core.sids, r.target, r.bytes, tag);
            ExchangeStep(core, device, p, request, exchange, [], []).1 == Updated <==>
            && exchange == Answered
            && TargetStep(device, p.device, r.target, r.bytes, tag).1 == Changed
            && TargetStep(core, p.core, r.target, r.bytes, tag).1 == Changed
  {
    PatchOfStep(device, p.device, r.target, r.bytes, tag);
    PatchOfStep(core, p.core, r.target, r.bytes, tag);
    PatchOfDatagram(core, p.core, r, tag);
  }

  // ---------- rule duplicate ----------

  /** An override the console can build: an existing entry, at least one leaf, an operator without an argument, and a
      number that fits where it is written. */
  predicate Buildable(entries: seq<Entry>, o: RuleOverride) {
    var e := FindEntry(entries, o.entryIndex);
    && e.Some? && o.entryIndex < U64_LIMIT
    && (o.targetValue.Some? || o.matching.Some? || o.cda.Some?)
    && (o.matching.Some? ==> !o.matching.value.Msb?)
    && (o.targetValue.Some? ==>
          && e.value.target.Bytes? && e.value.length.FixedBits? && IsDecimal(o.targetValue.value)
          && Representable(DecimalValue(o.targetValue.value), |e.value.target.bytes|, Some(e.value.length.bits)))
  }

  lemma IntendedIff(entries: seq<Entry>, o: RuleOverride)
    ensures Intended(entries, o).Some? <==> Buildable(entries, o)
  {
  }

  lemma {:induction false} GroupsIff(entries: seq<Entry>, os: seq<RuleOverride>)
    ensures IntendedGroups(entries, os).Some? <==> forall k :: 0 <= k < |os| ==> Buildable(entries, os[k])
  {
    if os != [] {
      var init := os[..|os| - 1];
      GroupsIff(entries, init);
      IntendedIff(entries, os[|os| - 1]);
      assert forall k :: 0 <= k < |init| ==> init[k] == os[k];
    }
  }

  /** A duplicate is sent exactly when the source is an ordinary rule, the destination is not protected, both RuleIDs
      are uint32 and every override can be built. */
  lemma SentIff(recipe: Recipe, tree: Tree, command: DuplicateCommand)
    ensures var source := FindRule(tree.rules, command.source);
            RequestOf(recipe, tree, command).Some? <==>
            && source.Some? && source.value.nature != Management
            && !IsManagement(tree.rules, command.source) && !IsManagement(tree.rules, command.destination)
            && command.source.value <= U32_MAX && command.destination.value <= U32_MAX
            && forall k :: 0 <= k < |command.overrides| ==> Buildable(source.value.entries, command.overrides[k])
  {
    var source := FindRule(tree.rules, command.source);
    if source.Some? {
      GroupsIff(source.value.entries, command.overrides);
    }
  }

  /** The bytes an override writes: its number in the width of the sender's target. */
  function OverrideBytes(entries: seq<Entry>, o: RuleOverride): seq<byte>
    requires Buildable(entries, o) && o.targetValue.Some?
  {
    ToBytes(DecimalValue(o.targetValue.value), |FindEntry(entries, o.entryIndex).value.target.bytes|)
  }

  /** One override stands for exactly the leaves it gives. */
  lemma IntendedMembers(entries: seq<Entry>, o: RuleOverride)
    requires Buildable(entries, o)
    ensures Intended(entries, o).Some?
    ensures var ws := Intended(entries, o).value;
            && (forall m :: Write(o.entryIndex, MatchingLeaf, MatchingIdentity(m)) in ws <==> o.matching == Some(m))
            && (forall a :: Write(o.entryIndex, CdaLeaf, CdaIdentity(a)) in ws <==> o.cda == Some(a))
            && (o.targetValue.Some? ==> Write(o.entryIndex, Target, TargetBytes(OverrideBytes(entries, o))) in ws)
            && forall i :: 0 <= i < |ws| ==>
                 && ws[i].entry == o.entryIndex && KindMatches(ws[i])
                 && (ws[i].leaf == MatchingLeaf ==> o.matching.Some?) && (ws[i].leaf == CdaLeaf ==> o.cda.Some?)
                 && (ws[i].leaf == Target ==> o.targetValue.Some?)
  {
    IntendedIff(entries, o);
  }

  lemma {:induction false} FlattenMembers<T>(groups: seq<seq<T>>, x: T)
    ensures x in Flatten(groups) <==> exists a :: 0 <= a < |groups| && x in groups[a]
  {
    if groups != [] {
      var init := groups[..|groups| - 1];
      FlattenMembers(init, x);
      assert forall a :: 0 <= a < |init| ==> init[a] == groups[a];
    }
  }

  /** What a copied entry is, by the override of that entry if there is one. */
  ghost predicate CopiedEntry(e: Entry, c: Entry, entries: seq<Entry>, os: seq<RuleOverride>)
    requires forall k :: 0 <= k < |os| ==> Buildable(entries, os[k])
  {
    && c.index == e.index && c.field == e.field && c.direction == e.direction && c.length == e.length
    && ((forall k :: 0 <= k < |os| ==> os[k].entryIndex != e.index) ==> c == e)
    && forall k :: 0 <= k < |os| && os[k].entryIndex == e.index ==>
         && c.matching == (if os[k].matching.Some? then os[k].matching.value else e.matching)
         && c.cda == (if os[k].cda.Some? then os[k].cda.value else e.cda)
         && (if os[k].targetValue.Some? then Retargeted(e.target, c.target, OverrideBytes(entries, os[k]))
             else c.target == e.target)
  }

  /** All writes of a list of overrides, and where each comes from. */
  ghost predicate WritesFrom(ws: seq<Write>, entries: seq<Entry>, os: seq<RuleOverride>) {
    && (forall k :: 0 <= k < |os| ==> Intended(entries, os[k]).Some?)
    && forall w :: w in ws <==> exists k :: 0 <= k < |os| && w in Intended(entries, os[k]).value
  }

  lemma FlatWritesFrom(entries: seq<Entry>, os: seq<RuleOverride>, groups: seq<seq<Write>>)
    requires IntendedGroups(entries, os) == Some(groups)
    ensures WritesFrom(Flatten(groups), entries, os)
  {
    forall w ensures w in Flatten(groups) <==> exists k :: 0 <= k < |os| && w in Intended(entries, os[k]).value {
      FlattenMembers(groups, w);
    }
  }

  /** The source of every write of one entry is the override of that entry. */
  lemma WrittenBy(ws: seq<Write>, entries: seq<Entry>, os: seq<RuleOverride>, k: nat, w: Write)
    requires WritesFrom(ws, entries, os) && DistinctEntries(os) && k < |os|
    requires forall j :: 0 <= j < |os| ==> Buildable(entries, os[j])
    requires w in ws && w.entry == os[k].entryIndex
    ensures w in Intended(entries, os[k]).value
  {
    var j :| 0 <= j < |os| && w in Intended(entries, os[j]).value;
    IntendedMembers(entries, os[j]);
    SameOverride(os, j, k);
  }

  lemma SameOverride(os: seq<RuleOverride>, j: nat, k: nat)
    requires DistinctEntries(os) && j < |os| && k < |os| && os[j].entryIndex == os[k].entryIndex
    ensures j == k
  {
  }

  lemma Untouched(ws: seq<Write>, entries: seq<Entry>, os: seq<RuleOverride>, index: nat)
    requires WritesFrom(ws, entries, os) && forall j :: 0 <= j < |os| ==> Buildable(entries, os[j])
    requires forall j :: 0 <= j < |os| ==> os[j].entryIndex != index
    ensures forall leaf :: NoneWritten(ws, index, leaf)
  {
    forall i | 0 <= i < |ws| ensures ws[i].entry != index {
      assert ws[i] in ws;
      var j :| 0 <= j < |os| && ws[i] in Intended(entries, os[j]).value;
      IntendedMembers(entries, os[j]);
    }
  }

  lemma OnlyGiven(ws: seq<Write>, entries: seq<Entry>, os: seq<RuleOverride>, k: nat)
    requires WritesFrom(ws, entries, os) && DistinctEntries(os) && k < |os|
    requires forall j :: 0 <= j < |os| ==> Buildable(entries, os[j])
    ensures os[k].matching.None? ==> NoneWritten(ws, os[k].entryIndex, MatchingLeaf)
    ensures os[k].cda.None? ==> NoneWritten(ws, os[k].entryIndex, CdaLeaf)
    ensures os[k].targetValue.None? ==> NoneWritten(ws, os[k].entryIndex, Target)
  {
    IntendedMembers(entries, os[k]);
    forall i | 0 <= i < |ws| && ws[i].entry == os[k].entryIndex
      ensures ws[i].leaf == MatchingLeaf ==> os[k].matching.Some?
      ensures ws[i].leaf == CdaLeaf ==> os[k].cda.Some?
      ensures ws[i].leaf == Target ==> os[k].targetValue.Some?
    {
      assert ws[i] in ws;
      WrittenBy(ws, entries, os, k, ws[i]);
    }
  }

  lemma EntryCopied(e: Entry, ws: seq<Write>, entries: seq<Entry>, os: seq<RuleOverride>)
    requires WritesFrom(ws, entries, os) && DistinctEntries(os) && DistinctLeaves(ws)
    requires forall j :: 0 <= j < |os| ==> Buildable(entries, os[j])
    requires forall i :: 0 <= i < |ws| ==> KindMatches(ws[i]) && Fits(e, ws[i])
    ensures CopiedEntry(e, PatchEntry(e, ws), entries, os)
  {
    PatchedEntry(e, ws);
    if forall k :: 0 <= k < |os| ==> os[k].entryIndex != e.index {
      Untouched(ws, entries, os, e.index);
    }
    forall k | 0 <= k < |os| && os[k].entryIndex == e.index
      ensures PatchEntry(e, ws).matching == (if os[k].matching.Some? then os[k].matching.value else e.matching)
      ensures PatchEntry(e, ws).cda == (if os[k].cda.Some? then os[k].cda.value else e.cda)
      ensures if os[k].targetValue.Some? then
                Retargeted(e.target, PatchEntry(e, ws).target, OverrideBytes(entries, os[k]))
              else PatchEntry(e, ws).target == e.target
    {
      IntendedMembers(entries, os[k]);
      OnlyGiven(ws, entries, os, k);
    }
  }

  lemma EntriesCopied(original: Rule, destination: RuleId, copy: Rule, ws: seq<Write>, entries: seq<Entry>,
                      os: seq<RuleOverride>)
    requires ApplyWrites(original.(id := destination), ws) == Some(copy)
    requires WritesFrom(ws, entries, os) && DistinctEntries(os) && DistinctLeaves(ws)
    requires forall j :: 0 <= j < |os| ==> Buildable(entries, os[j])
    ensures copy.id == destination && copy.nature == original.nature && |copy.entries| == |original.entries|
    ensures forall i :: 0 <= i < |original.entries| ==> CopiedEntry(original.entries[i], copy.entries[i], entries, os)
  {
    ApplyWritesMeaning(original.(id := destination), ws);
    forall i | 0 <= i < |original.entries| ensures CopiedEntry(original.entries[i], copy.entries[i], entries, os) {
      forall j | 0 <= j < |ws| ensures KindMatches(ws[j]) && Fits(original.entries[i], ws[j]) {
        assert Applicable(original.(id := destination), ws[j]);
      }
      EntryCopied(original.entries[i], ws, entries, os);
    }
  }

  /** The request a command is sent as. */
  lemma SentRequest(recipe: Recipe, tree: Tree, command: DuplicateCommand)
    returns (entries: seq<Entry>, groups: seq<seq<Write>>)
    requires RequestOf(recipe, tree, command).Some?
    ensures FindRule(tree.rules, command.source).Some? && entries == FindRule(tree.rules, command.source).value.entries
    ensures IntendedGroups(entries, command.overrides) == Some(groups)
    ensures forall a :: 0 <= a < |groups| ==> Encodable(groups[a])
    ensures RequestOf(recipe, tree, command)
            == Some(DuplicateRequest(command.source, command.destination,
                                     EncodeGroups(groups, command.destination, recipe.sids)))
  {
    entries := FindRule(tree.rules, command.source).value.entries;
    groups := IntendedGroups(entries, command.overrides).value;
    IntendedEncodable(entries, command.overrides, groups);
  }

  /** The rule is the source of `rules` under the destination RuleID, copied entry by entry. */
  ghost predicate CopiedRule(copy: Rule, rules: seq<Rule>, entries: seq<Entry>, command: DuplicateCommand) {
    && FindRule(rules, command.source).Some?
    && (forall k :: 0 <= k < |command.overrides| ==> Buildable(entries, command.overrides[k]))
    && var original := FindRule(rules, command.source).value;
       && copy.id == command.destination && copy.nature == original.nature && |copy.entries| == |original.entries|
       && forall i :: 0 <= i < |original.entries| ==>
            CopiedEntry(original.entries[i], copy.entries[i], entries, command.overrides)
  }

  /** What a duplicate installs, told from the command: the receiver's source under the destination RuleID, each entry
      with the operator, action and number of its override where the command gives one, and unchanged elsewhere. */
  lemma InstalledRule(core: Recipe, device: Recipe, tree: Tree, rules: seq<Rule>, command: DuplicateCommand)
    requires core.sids == device.sids && core.sids.matchingOperator != core.sids.cda
    requires DistinctEntries(command.overrides)
    requires RequestOf(core, tree, command).Some?
    requires RequestedRule(device, rules, RequestOf(core, tree, command).value).Some?
    ensures FindRule(tree.rules, command.source).Some?
    ensures CopiedRule(RequestedRule(device, rules, RequestOf(core, tree, command).value).value, rules,
                       FindRule(tree.rules, command.source).value.entries, command)
  {
    var entries, groups := SentRequest(core, tree, command);
    GroupsIff(entries, command.overrides);
    FlatWritesFrom(entries, command.overrides, groups);
    var original, copy := InstalledWrites(device, rules, entries, command, groups);
    EntriesCopied(original, command.destination, copy, Flatten(groups), entries, command.overrides);
  }

  lemma InstalledWrites(device: Recipe, rules: seq<Rule>, entries: seq<Entry>, command: DuplicateCommand,
                        groups: seq<seq<Write>>) returns (original: Rule, copy: Rule)
    requires device.sids.matchingOperator != device.sids.cda && DistinctEntries(command.overrides)
    requires IntendedGroups(entries, command.overrides) == Some(groups)
    requires forall a :: 0 <= a < |groups| ==> Encodable(groups[a])
    requires var request := DuplicateRequest(command.source, command.destination,
                                             EncodeGroups(groups, command.destination, device.sids));
             RequestedRule(device, rules, request).Some?
    ensures var request := DuplicateRequest(command.source, command.destination,
                                            EncodeGroups(groups, command.destination, device.sids));
            RequestedRule(device, rules, request) == Some(copy)
    ensures FindRule(rules, command.source) == Some(original)
    ensures ApplyWrites(original.(id := command.destination), Flatten(groups)) == Some(copy)
    ensures DistinctLeaves(Flatten(groups))
  {
    var encoded := EncodeGroups(groups, command.destination, device.sids);
    var request := DuplicateRequest(command.source, command.destination, encoded);
    original := FindRule(rules, command.source).value;
    copy := RequestedRule(device, rules, request).value;
    SentIsApplied(device, entries, command.overrides, groups, command.source, command.destination,
                  original.(id := command.destination));
    BuiltIsDecoded(entries, command.overrides, groups, command.destination, device.sids);
    var list := ParseAll(Flatten(encoded), command.destination, device.sids);
    ReadBackWrites(list, Flatten(groups));
    DestinationIdentity(rules, command.source, command.destination, encoded, device.sids);
    WritesDistinct(list);
  }
}
