/**
 A flow change from end to end: planned for a free RuleID, built into a request, handled by the service.
 */
module Pipeline {
  import opened Bits
  import opened Wrappers
  import opened Sorting
  import opened RuleIds
  import opened RuleModel
  import opened Policy
  import opened TargetValues
  import opened Overrides
  import opened Flow
  import opened Duplicate
  import opened Context
  import opened Management
  import opened Plans
  import opened Copies
  import opened Sender

  /** Every value the packet asks for fits the width and the field of the entry it is written to. */
  predicate Writable(entries: seq<Entry>, p: Packet, d: FlowDirection) {
    forall i :: 0 <= i < |entries| && PlanField(entries[i], p, d).Change? ==> WritableEntry(entries[i], p, d)
  }

  predicate WritableEntry(e: Entry, p: Packet, d: FlowDirection)
    requires PlanField(e, p, d).Change?
  {
    e.index < U64_LIMIT && Representable(PlanField(e, p, d).value, |e.target.bytes|, Some(e.length.bits))
  }

  lemma {:induction false} GroupsBuilt(entries: seq<Entry>, os: seq<RuleOverride>)
    ensures IntendedGroups(entries, os).Some? <==> forall k :: 0 <= k < |os| ==> Intended(entries, os[k]).Some?
  {
    if os != [] {
      var init := os[..|os| - 1];
      GroupsBuilt(entries, init);
      assert forall k :: 0 <= k < |init| ==> init[k] == os[k];
    }
  }

  lemma OverrideBuilt(entries: seq<Entry>, p: Packet, d: FlowDirection, i: nat, o: Override)
    requires CanonicalEntries(entries) && i < |entries| && PlanField(entries[i], p, d).Change?
    requires o == Override(entries[i].index, ToDecimal(PlanField(entries[i], p, d).value))
    ensures Intended(entries, AsRuleOverride(o)).Some? <==> WritableEntry(entries[i], p, d)
  {
    FindUniqueEntry(entries, i);
    DecimalRoundTrip(PlanField(entries[i], p, d).value);
  }

  /** A plan can be built into a request exactly when every value it writes fits. */
  lemma PlanBuilt(entries: seq<Entry>, p: Packet, d: FlowDirection, os: seq<Override>)
    requires CanonicalEntries(entries) && PlanOf(entries, p, d) == Some(os)
    ensures IntendedGroups(entries, AsRuleOverrides(os)).Some? <==> Writable(entries, p, d)
  {
    var plans := PlanAll(entries, p, d);
    GroupsBuilt(entries, AsRuleOverrides(os));
    if Writable(entries, p, d) {
      forall k | 0 <= k < |os| ensures Intended(entries, AsRuleOverrides(os)[k]).Some? {
        var j := ListedIsChange(plans, os, k);
        OverrideBuilt(entries, p, d, j, os[k]);
      }
    }
    if forall k :: 0 <= k < |os| ==> Intended(entries, AsRuleOverrides(os)[k]).Some? {
      forall i | 0 <= i < |entries| && PlanField(entries[i], p, d).Change? ensures WritableEntry(entries[i], p, d) {
        var k := ListedAt(plans, os, i);
        assert Intended(entries, AsRuleOverrides(os)[k]).Some?;
        OverrideBuilt(entries, p, d, i, os[k]);
      }
    }
  }

  lemma ListedAt(plans: seq<EntryPlan>, os: seq<Override>, i: nat) returns (k: nat)
    requires Changes(plans).Some? && os == SortBy(OverrideKey, Changes(plans).value)
    requires i < |plans| && plans[i].plan.Change?
    ensures k < |os| && os[k] == plans[i].AsOverride()
  {
    var o := plans[i].AsOverride();
    SortPermutes(OverrideKey, Changes(plans).value);
    ChangesMeaning(plans, o);
    assert Asks(plans, i, o);
    InMultiset(Changes(plans).value, os, o);
    k :| 0 <= k < |os| && os[k] == o;
  }

  /** The writes of a plan fit the rule they were planned for. */
  lemma PlanWritesApply(rule: Rule, os: seq<Override>, ws: seq<Write>)
    requires CanonicalEntries(rule.entries) && OverrideWrites(rule.entries, os) == Some(ws)
    ensures ApplyWrites(rule, ws).Some?
  {
    ApplyWritesMeaning(rule, ws);
    forall k | 0 <= k < |ws| ensures Applicable(rule, ws[k]) {
      assert OverrideWrite(rule.entries, os[k]) == Some(ws[k]);
      WriteApplies(rule, os[k], ws[k]);
    }
  }

  lemma WriteApplies(rule: Rule, o: Override, w: Write)
    requires CanonicalEntries(rule.entries) && OverrideWrite(rule.entries, o) == Some(w)
    ensures Applicable(rule, w)
  {
    var e := FindEntry(rule.entries, o.entryIndex).value;
    forall i | 0 <= i < |rule.entries| && rule.entries[i].index == w.entry ensures HasLeaf(rule.entries[i], w.leaf) {
      FindUniqueEntry(rule.entries, i);
    }
  }

  /** The request of a plan for `destination`. */
  function PlanRequest(recipe: Recipe, parent: Rule, destination: RuleId, groups: seq<seq<Write>>): DuplicateRequest
    requires forall a :: 0 <= a < |groups| ==> Encodable(groups[a])
  {
    DuplicateRequest(parent.id, destination, EncodeGroups(groups, destination, recipe.sids))
  }

  ghost predicate OrdinaryRule(tree: Tree, parent: Rule) {
    FindRule(tree.rules, parent.id) == Some(parent) && parent.nature != Management
  }

  lemma BuiltEncodable(entries: seq<Entry>, os: seq<RuleOverride>, groups: seq<seq<Write>>)
    requires IntendedGroups(entries, os) == Some(groups)
    ensures forall a :: 0 <= a < |groups| ==> Encodable(groups[a])
  {
    forall a | 0 <= a < |groups| ensures Encodable(groups[a]) {
      IntendedShape(entries, os[a]);
    }
  }

  lemma OrdinaryParent(recipe: Recipe, tree: Tree, parent: Rule, destination: RuleId)
    requires Loadable(recipe, tree) && OrdinaryRule(tree, parent) && FindRule(tree.rules, destination).None?
    ensures ValidSelector(parent.id) && parent.id != destination && CanonicalEntries(parent.entries)
    ensures !IsManagement(tree.rules, parent.id) && !IsManagement(tree.rules, destination)
  {
    var i :| 0 <= i < |tree.rules| && tree.rules[i] == parent;
    assert RuleIdsOf(tree.rules)[i] == parent.id;
    SpecIsSelector(parent.id);
    LoadableUnique(recipe, tree);
    CanonicalMember(tree, parent);
    forall r | r in tree.rules && r.nature == Management ensures r.id != parent.id && r.id != destination {
      if r.id == parent.id {
        UniqueRule(tree.rules, r, parent);
      }
    }
  }

  /** The receiver finds a rule to install in every such request: the parent with the plan written. */
  lemma PlanRequested(recipe: Recipe, tree: Tree, parent: Rule, destination: RuleId, p: Packet, d: FlowDirection,
                      os: seq<Override>, groups: seq<seq<Write>>)
    requires Loadable(recipe, tree) && OrdinaryRule(tree, parent) && FindRule(tree.rules, destination).None?
    requires ValidSelector(destination) && recipe.sids.matchingOperator != recipe.sids.cda
    requires PlanOf(parent.entries, p, d) == Some(os)
    requires IntendedGroups(parent.entries, AsRuleOverrides(os)) == Some(groups)
    ensures forall a :: 0 <= a < |groups| ==> Encodable(groups[a])
    ensures RequestedRule(recipe, tree.rules, PlanRequest(recipe, parent, destination, groups))
            == ApplyWrites(parent.(id := destination), Flatten(groups))
    ensures ApplyWrites(parent.(id := destination), Flatten(groups)).Some?
    ensures OverrideWrites(parent.entries, os) == Some(Flatten(groups)) && CanonicalEntries(parent.entries)
  {
    OrdinaryParent(recipe, tree, parent, destination);
    BuiltEncodable(parent.entries, AsRuleOverrides(os), groups);
    PlanEntriesDistinct(parent.entries, p, d, os);
    PlanGroups(parent.entries, os, groups);
    PlanWritesApply(parent.(id := destination), os, Flatten(groups));
    SentIsApplied(recipe, parent.entries, AsRuleOverrides(os), groups, parent.id, destination,
      parent.(id := destination));
  }

  /** The whole way: a flow plan of an ordinary parent, built for the RuleID the allocator returned, is applied
      exactly when the other packages accept the context, and the rule it installs then asks for no further change
      for the same packet exactly when every written value is recognised. */
  lemma FlowChangeOutcome(recipe: Recipe, s: Snapshot, parent: Rule, destination: RuleId, p: Packet, d: FlowDirection,
                          os: seq<Override>, groups: seq<seq<Write>>)
    requires Loadable(recipe, s.tree) && OrdinaryRule(s.tree, parent) && Planned(recipe, s.tree, destination)
    requires recipe.sids.matchingOperator != recipe.sids.cda
    requires PlanOf(parent.entries, p, d) == Some(os)
    requires IntendedGroups(parent.entries, AsRuleOverrides(os)) == Some(groups)
    ensures forall a :: 0 <= a < |groups| ==> Encodable(groups[a])
    ensures var request := PlanRequest(recipe, parent, destination, groups);
            var rule := RequestedRule(recipe, s.tree.rules, request);
            && rule.Some?
            && DuplicateStep(recipe, s, request)
               == (if recipe.loads(Candidate(s.tree, rule.value))
                   then (Snapshot(Candidate(s.tree, rule.value), s.generation + 1), Applied)
                   else (s, Rejected))
            && FindRule(Candidate(s.tree, rule.value).rules, destination) == rule
            && (PlanOf(rule.value.entries, p, d) == Some([]) <==> AllRecognised(parent.entries, p, d))
  {
    PlannedIsFree(recipe, s.tree, destination);
    PlanRequested(recipe, s.tree, parent, destination, p, d, os, groups);
    var request := PlanRequest(recipe, parent, destination, groups);
    var rule := RequestedRule(recipe, s.tree.rules, request).value;
    DuplicateToPlanned(recipe, s, request);
    SettledCopy(parent, destination, p, d, os, Flatten(groups), rule);
    WithRuleFinds(s.tree.rules, rule);
  }

  lemma PlannedIsFree(recipe: Recipe, tree: Tree, destination: RuleId)
    requires Loadable(recipe, tree) && Planned(recipe, tree, destination)
    ensures ValidSelector(destination) && FindRule(tree.rules, destination).None?
  {
    LoadableSettled(recipe, tree);
    SpecIsSelector(destination);
    FreeIsNew(tree.rules, destination);
  }
}
