/**
 When a duplicate is applied, confirmed or rejected, in terms of the context alone; and when two duplicates
 can be handled in either order.
 */
module Copies {
  import opened Wrappers
  import opened Sorting
  import opened RuleIds
  import opened RuleModel
  import opened Allocation
  import opened Kraft
  import opened Policy
  import opened Duplicate
  import opened Context
  import opened Management
  import opened Plans

  // ---------- one duplicate ----------

  /** A RuleID this context has room for. */
  ghost predicate RoomFor(recipe: Recipe, rules: seq<Rule>, id: RuleId)
    requires AllValid(RuleIdsOf(rules)) && ValidSelector(id)
  {
    InNamespace(recipe, id) && ValidSpec(id) && !Blocked(RuleIdsOf(rules), id)
  }

  ghost function Candidate(tree: Tree, rule: Rule): Tree {
    Tree(WithRule(tree.rules, rule), tree.guardPeriod)
  }

  /** Putting in a rule where there is room passes every modelled check. */
  lemma RoomIsLoadable(recipe: Recipe, tree: Tree, rule: Rule)
    requires Loadable(recipe, tree) && CanonicalEntries(rule.entries)
    requires ValidSelector(rule.id) && RoomFor(recipe, tree.rules, rule.id)
    ensures FindRule(tree.rules, rule.id).None?
    ensures Loadable(recipe, Candidate(tree, rule)) <==> recipe.loads(Candidate(tree, rule))
  {
    var after := Candidate(tree, rule);
    FreeIsNew(tree.rules, rule.id);
    var k := WithRuleInserts(tree.rules, rule);
    InsertedCanonical(tree, after, rule, k);
    InsertedIds(tree.rules, after.rules, rule, k);
    InsertPrefixFree(RuleIdsOf(tree.rules), RuleIdsOf(after.rules), rule.id, k);
    if recipe.namespace.Some? {
      InsertKeepsNamespace(recipe.namespace.value, RuleIdsOf(tree.rules), RuleIdsOf(after.rules), rule.id, k);
    }
  }

  /** And nothing else does. */
  lemma LoadableHasRoom(recipe: Recipe, tree: Tree, rule: Rule)
    requires Loadable(recipe, tree) && FindRule(tree.rules, rule.id).None?
    requires Loadable(recipe, Candidate(tree, rule))
    ensures ValidSpec(rule.id) && !Blocked(RuleIdsOf(tree.rules), rule.id)
  {
    var before, after := RuleIdsOf(tree.rules), RuleIdsOf(Candidate(tree, rule).rules);
    var k := WithRuleInserts(tree.rules, rule);
    InsertedIds(tree.rules, Candidate(tree, rule).rules, rule, k);
    InsertedIsApart(before, after, rule.id, k);
  }

  lemma InsertedIsApart(before: seq<RuleId>, after: seq<RuleId>, id: RuleId, k: nat)
    requires InsertedAt(before, after, id, k) && AllValid(before) && AllValid(after) && PrefixFree(after)
    ensures ValidSpec(id) && !Blocked(before, id)
  {
    assert after[k] == id;
    forall i | 0 <= i < |before| ensures !Overlaps(before[i], id) {
      assert before[i] == if i < k then after[i] else after[i + 1];
    }
  }

  lemma DistinctRuleKeys(rules: seq<Rule>)
    requires UniqueIds(rules)
    ensures DistinctKeys(RuleKey, rules)
  {
    forall i, j | 0 <= i < j < |rules| ensures RuleKey(rules[i]) != RuleKey(rules[j]) {
      assert rules[i].id != rules[j].id;
    }
  }

  /** The other rules and the one under a RuleID are all rules. */
  lemma {:induction false} RetainedMultiset(rules: seq<Rule>, rule: Rule)
    requires UniqueIds(rules) && rule in rules
    ensures multiset(Retain(rules, rule.id) + [rule]) == multiset(rules)
  {
    var init, last := rules[..|rules| - 1], rules[|rules| - 1];
    assert rules == init + [last];
    if last.id == rule.id {
      UniqueRule(rules, last, rule);
      assert forall i :: 0 <= i < |init| ==> init[i].id != last.id;
    } else {
      assert UniqueIds(init);
      RetainedMultiset(init, rule);
      MovedLast(Retain(init, rule.id), last, rule, init);
    }
  }

  lemma MovedLast(kept: seq<Rule>, last: Rule, rule: Rule, init: seq<Rule>)
    requires multiset(kept + [rule]) == multiset(init)
    ensures multiset(kept + [last] + [rule]) == multiset(init + [last])
  {
    assert multiset(kept + [last] + [rule]) == multiset(kept + [rule]) + multiset{last};
  }

  lemma SortedForm(sorted: seq<Rule>, rules: seq<Rule>)
    requires Sorted(RuleKey, sorted) && UniqueIds(sorted) && multiset(sorted) == multiset(rules)
    ensures SortBy(RuleKey, rules) == sorted
  {
    DistinctRuleKeys(sorted);
    SortIgnoresOrder(RuleKey, sorted, rules);
    SortedIsFixed(RuleKey, sorted);
  }

  /** A rule that is there already is put back where it was. */
  lemma WithPresentRule(rules: seq<Rule>, rule: Rule)
    requires Sorted(RuleKey, rules) && UniqueIds(rules) && FindRule(rules, rule.id) == Some(rule)
    ensures WithRule(rules, rule) == rules
  {
    RetainedMultiset(rules, rule);
    SortedForm(rules, Retain(rules, rule.id) + [rule]);
  }

  lemma SelfAdmissible(recipe: Recipe, tree: Tree)
    requires Loadable(recipe, tree)
    ensures Admissible(recipe, tree, tree)
  {
  }

  /** Installing an ordinary rule: confirmed when the very same rule is there, applied when there is room and the
      other packages accept the context, and rejected otherwise. */
  lemma InstallOutcome(recipe: Recipe, s: Snapshot, rule: Rule)
    requires Loadable(recipe, s.tree) && ValidSelector(rule.id)
    requires CanonicalEntries(rule.entries) && rule.nature != Management
    ensures InstallStep(recipe, s, rule)
            == if FindRule(s.tree.rules, rule.id) == Some(rule) then (s, Idempotent)
               else if RoomFor(recipe, s.tree.rules, rule.id) && recipe.loads(Candidate(s.tree, rule))
               then (Snapshot(Candidate(s.tree, rule), s.generation + 1), Applied)
               else (s, Rejected)
  {
    LoadableUnique(recipe, s.tree);
    if RoomFor(recipe, s.tree.rules, rule.id) {
      RoomIsLoadable(recipe, s.tree, rule);
      var k := WithRuleInserts(s.tree.rules, rule);
      InsertedKeepsProtected(s.tree.rules, Candidate(s.tree, rule).rules, rule, k);
      InstallNew(recipe, s, rule);
    } else if FindRule(s.tree.rules, rule.id) == Some(rule) {
      WithPresentRule(s.tree.rules, rule);
      SelfAdmissible(recipe, s.tree);
      InstallPresent(recipe, s, rule);
    } else if FindRule(s.tree.rules, rule.id).None? {
      InstallCrowded(recipe, s, rule);
    } else {
      InstallOther(recipe, s, rule);
    }
  }

  lemma InstallPresent(recipe: Recipe, s: Snapshot, rule: Rule)
    requires ValidSelector(rule.id) && FindRule(s.tree.rules, rule.id) == Some(rule)
    requires Candidate(s.tree, rule) == s.tree && Admissible(recipe, s.tree, s.tree)
    ensures InstallStep(recipe, s, rule) == (s, Idempotent)
  {
  }

  lemma InstallOther(recipe: Recipe, s: Snapshot, rule: Rule)
    requires ValidSelector(rule.id) && FindRule(s.tree.rules, rule.id).Some?
      && FindRule(s.tree.rules, rule.id) != Some(rule)
    ensures InstallStep(recipe, s, rule) == (s, Rejected)
  {
  }

  lemma InstallCrowded(recipe: Recipe, s: Snapshot, rule: Rule)
    requires Loadable(recipe, s.tree) && ValidSelector(rule.id) && FindRule(s.tree.rules, rule.id).None?
    requires !RoomFor(recipe, s.tree.rules, rule.id)
    ensures InstallStep(recipe, s, rule) == (s, Rejected)
  {
    if Loadable(recipe, Candidate(s.tree, rule)) {
      LoadableHasRoom(recipe, s.tree, rule);
    }
  }

  /** The outcome of a duplicate request in a loadable context, in full. */
  lemma DuplicateOutcome(recipe: Recipe, s: Snapshot, request: DuplicateRequest)
    requires Loadable(recipe, s.tree)
    ensures var rule := RequestedRule(recipe, s.tree.rules, request);
            DuplicateStep(recipe, s, request)
            == if rule.None? then (s, Rejected)
               else if FindRule(s.tree.rules, request.destination) == rule then (s, Idempotent)
               else if RoomFor(recipe, s.tree.rules, request.destination) && recipe.loads(Candidate(s.tree, rule.value))
               then (Snapshot(Candidate(s.tree, rule.value), s.generation + 1), Applied)
               else (s, Rejected)
  {
    var rule := RequestedRule(recipe, s.tree.rules, request);
    if rule.Some? {
      RequestedIsOrdinary(recipe, s.tree, request);
      InstallOutcome(recipe, s, rule.value);
    }
  }

  /** When a duplicate datagram changes a context, whether it is new or repeated: what it asks for can be built,
      there is room for it, and the other packages accept it. */
  lemma DuplicateChanges(recipe: Recipe, s: Snapshot, request: DuplicateRequest)
    requires Loadable(recipe, s.tree)
    ensures var rule := RequestedRule(recipe, s.tree.rules, request);
            DuplicateStep(recipe, s, request).0 != s <==>
            && rule.Some? && RoomFor(recipe, s.tree.rules, request.destination)
            && recipe.loads(Candidate(s.tree, rule.value))
  {
    DuplicateOutcome(recipe, s, request);
    var rule := RequestedRule(recipe, s.tree.rules, request);
    if rule.Some? && RoomFor(recipe, s.tree.rules, request.destination) {
      FreeIsNew(s.tree.rules, request.destination);
    }
  }

  // ---------- two duplicates ----------

  /** An ordinary rule put in under a new RuleID does not change what a request with another source asks for. */
  lemma RequestedElsewhere(recipe: Recipe, rules: seq<Rule>, rule: Rule, request: DuplicateRequest)
    requires Sorted(RuleKey, rules) && FindRule(rules, rule.id).None? && rule.nature != Management
    requires request.source != rule.id
    ensures RequestedRule(recipe, WithRule(rules, rule), request) == RequestedRule(recipe, rules, request)
  {
    var after := WithRule(rules, rule);
    var k := WithRuleInserts(rules, rule);
    InsertedFinds(rules, after, rule, k, request.source);
    InsertedMembers(rules, after, rule, k);
    assert forall id :: IsManagement(after, id) <==> IsManagement(rules, id);
  }

  lemma InsertedMultiset(before: seq<Rule>, after: seq<Rule>, rule: Rule, k: nat)
    requires InsertedRule(before, after, rule, k)
    ensures multiset(after) == multiset(before) + multiset{rule}
  {
    assert before == before[..k] + before[k..];
  }

  /** Putting in a new rule, as facts about the list. */
  ghost predicate PutIn(before: seq<Rule>, after: seq<Rule>, rule: Rule) {
    UniqueIds(after) && multiset(after) == multiset(before) + multiset{rule} && Sorted(RuleKey, after)
  }

  lemma PutInNew(rules: seq<Rule>, rule: Rule, other: RuleId)
    requires Sorted(RuleKey, rules) && UniqueIds(rules) && FindRule(rules, rule.id).None? && other != rule.id
    ensures PutIn(rules, WithRule(rules, rule), rule)
    ensures FindRule(WithRule(rules, rule), other) == FindRule(rules, other)
  {
    var k := WithRuleInserts(rules, rule);
    InsertedMultiset(rules, WithRule(rules, rule), rule, k);
    InsertedUnique(rules, WithRule(rules, rule), rule, k);
    InsertedFinds(rules, WithRule(rules, rule), rule, k, other);
  }

  lemma PutInBoth(rules: seq<Rule>, a: Rule, b: Rule, xa: seq<Rule>, xb: seq<Rule>, xab: seq<Rule>, xba: seq<Rule>)
    requires PutIn(rules, xa, a) && PutIn(rules, xb, b) && PutIn(xa, xab, b) && PutIn(xb, xba, a)
    ensures xab == xba
  {
    assert multiset(xab) == multiset(xba);
    SameList(xab, xba);
  }

  /** Two new rules can be put in in either order. */
  lemma WithRulesCommute(rules: seq<Rule>, a: Rule, b: Rule, xa: seq<Rule>, xb: seq<Rule>)
    requires Sorted(RuleKey, rules) && UniqueIds(rules) && a.id != b.id
    requires FindRule(rules, a.id).None? && FindRule(rules, b.id).None?
    requires xa == WithRule(rules, a) && xb == WithRule(rules, b)
    ensures FindRule(xa, b.id).None? && FindRule(xb, a.id).None?
    ensures WithRule(xa, b) == WithRule(xb, a)
  {
    PutInNew(rules, a, b.id);
    PutInNew(rules, b, a.id);
    PutInNew(xa, b, a.id);
    PutInNew(xb, a, b.id);
    PutInBoth(rules, a, b, xa, xb, WithRule(xa, b), WithRule(xb, a));
  }

  lemma SameList(xs: seq<Rule>, ys: seq<Rule>)
    requires Sorted(RuleKey, xs) && Sorted(RuleKey, ys) && UniqueIds(xs) && multiset(xs) == multiset(ys)
    ensures xs == ys
  {
    DistinctRuleKeys(xs);
    SortedUnique(RuleKey, xs, ys);
  }

  /** Which RuleIDs there is room for after one more was put in. */
  lemma RoomAfter(recipe: Recipe, rules: seq<Rule>, rule: Rule, id: RuleId)
    requires Sorted(RuleKey, rules) && FindRule(rules, rule.id).None? && ValidSelector(id)
    requires AllValid(RuleIdsOf(rules)) && AllValid(RuleIdsOf(WithRule(rules, rule))) && ValidSpec(rule.id)
    ensures RoomFor(recipe, WithRule(rules, rule), id) <==>
            RoomFor(recipe, rules, id) && !(ValidSpec(id) && Overlaps(rule.id, id))
  {
    var k := WithRuleInserts(rules, rule);
    InsertedIds(rules, WithRule(rules, rule), rule, k);
    if ValidSpec(id) {
      BlockedInserted(RuleIdsOf(rules), RuleIdsOf(WithRule(rules, rule)), rule.id, k, id);
    }
  }

  lemma BlockedInserted(before: seq<RuleId>, after: seq<RuleId>, put: RuleId, k: nat, id: RuleId)
    requires InsertedAt(before, after, put, k) && AllValid(before) && AllValid(after) && ValidSpec(put) && ValidSpec(id)
    ensures Blocked(after, id) <==> Blocked(before, id) || Overlaps(put, id)
  {
    assert after[k] == put;
    forall i | 0 <= i < |before| ensures before[i] == if i < k then after[i] else after[i + 1] {
    }
    if Blocked(before, id) {
      var i :| 0 <= i < |before| && Overlaps(before[i], id);
      assert after[if i < k then i else i + 1] == before[i];
    }
    if Blocked(after, id) {
      var i :| 0 <= i < |after| && Overlaps(after[i], id);
      assert i != k ==> after[i] == before[if i < k then i else i - 1];
    }
  }

  /** What an applied duplicate says about the context. */
  lemma AppliedRoom(recipe: Recipe, s: Snapshot, request: DuplicateRequest)
    requires Loadable(recipe, s.tree) && DuplicateStep(recipe, s, request).1 == Applied
    ensures var rule := RequestedRule(recipe, s.tree.rules, request);
            && rule.Some? && CanonicalEntries(rule.value.entries) && rule.value.nature != Management
            && RoomFor(recipe, s.tree.rules, rule.value.id)
            && Loadable(recipe, Candidate(s.tree, rule.value))
            && DuplicateStep(recipe, s, request).0 == Snapshot(Candidate(s.tree, rule.value), s.generation + 1)
  {
    DuplicateOutcome(recipe, s, request);
    RequestedIsOrdinary(recipe, s.tree, request);
    RoomIsLoadable(recipe, s.tree, RequestedRule(recipe, s.tree.rules, request).value);
  }

  /** The outcome where there is room. */
  lemma RoomDecides(recipe: Recipe, s: Snapshot, request: DuplicateRequest, rule: Rule)
    requires Loadable(recipe, s.tree) && RequestedRule(recipe, s.tree.rules, request) == Some(rule)
    requires RoomFor(recipe, s.tree.rules, rule.id)
    ensures DuplicateStep(recipe, s, request)
            == if recipe.loads(Candidate(s.tree, rule))
               then (Snapshot(Candidate(s.tree, rule), s.generation + 1), Applied)
               else (s, Rejected)
  {
    DuplicateOutcome(recipe, s, request);
    FreeIsNew(s.tree.rules, rule.id);
  }

  /** A second rule that has room beside a first has room without it, and the other way round. */
  lemma RoomSwapped(recipe: Recipe, tree: Tree, a: Rule, b: Rule)
    requires Loadable(recipe, tree) && ValidSelector(a.id) && ValidSelector(b.id)
    requires RoomFor(recipe, tree.rules, a.id) && Loadable(recipe, Candidate(tree, a))
    requires RoomFor(recipe, Candidate(tree, a).rules, b.id)
    ensures RoomFor(recipe, tree.rules, b.id)
    ensures Loadable(recipe, Candidate(tree, b)) ==> RoomFor(recipe, Candidate(tree, b).rules, a.id)
  {
    FreeIsNew(tree.rules, a.id);
    RoomAfter(recipe, tree.rules, a, b.id);
    FreeIsNew(tree.rules, b.id);
    if Loadable(recipe, Candidate(tree, b)) {
      RoomAfter(recipe, tree.rules, b, a.id);
    }
  }

  lemma CandidatesCommute(recipe: Recipe, tree: Tree, a: Rule, b: Rule)
    requires Loadable(recipe, tree) && a.id != b.id
    requires FindRule(tree.rules, a.id).None? && FindRule(tree.rules, b.id).None?
    ensures Candidate(Candidate(tree, a), b) == Candidate(Candidate(tree, b), a)
  {
    LoadableUnique(recipe, tree);
    WithRulesCommute(tree.rules, a, b, WithRule(tree.rules, a), WithRule(tree.rules, b));
  }

  ghost predicate BothApplied(recipe: Recipe, s: Snapshot, first: DuplicateRequest, second: DuplicateRequest) {
    DuplicateStep(recipe, s, first).1 == Applied
    && DuplicateStep(recipe, DuplicateStep(recipe, s, first).0, second).1 == Applied
  }

  lemma RequestFound(recipe: Recipe, rules: seq<Rule>, request: DuplicateRequest)
    requires RequestedRule(recipe, rules, request).Some?
    ensures FindRule(rules, request.source).Some?
  {
  }

  /** The swapped order when neither duplicate copies what the other makes. */
  lemma SwappedApart(recipe: Recipe, s: Snapshot, first: DuplicateRequest, second: DuplicateRequest, a: Rule, b: Rule)
    requires Loadable(recipe, s.tree) && second.source != a.id
    requires RequestedRule(recipe, s.tree.rules, first) == Some(a) && a.nature != Management
    requires RoomFor(recipe, s.tree.rules, a.id) && Loadable(recipe, Candidate(s.tree, a))
    requires RequestedRule(recipe, Candidate(s.tree, a).rules, second) == Some(b) && b.nature != Management
    requires CanonicalEntries(b.entries)
    requires RoomFor(recipe, Candidate(s.tree, a).rules, b.id) && recipe.loads(Candidate(Candidate(s.tree, a), b))
    ensures if recipe.loads(Candidate(s.tree, b)) then
              var other := Snapshot(Candidate(s.tree, b), s.generation + 1);
              && DuplicateStep(recipe, s, second) == (other, Applied)
              && DuplicateStep(recipe, other, first)
                 == (Snapshot(Candidate(Candidate(s.tree, a), b), s.generation + 2), Applied)
            else DuplicateStep(recipe, s, second) == (s, Rejected)
  {
    RoomSwapped(recipe, s.tree, a, b);
    FreeIsNew(s.tree.rules, a.id);
    FreeIsNew(s.tree.rules, b.id);
    FreeIsNew(Candidate(s.tree, a).rules, b.id);
    RequestedElsewhere(recipe, s.tree.rules, a, second);
    RoomDecides(recipe, s, second, b);
    if recipe.loads(Candidate(s.tree, b)) {
      RoomIsLoadable(recipe, s.tree, b);
      RequestFound(recipe, s.tree.rules, first);
      RequestedElsewhere(recipe, s.tree.rules, b, first);
      PresentElsewhere(s.tree.rules, a, b.id);
      CandidatesCommute(recipe, s.tree, a, b);
      RoomDecides(recipe, Snapshot(Candidate(s.tree, b), s.generation + 1), first, a);
    }
  }

  /** A RuleID that is new beside a rule is not that rule's. */
  lemma PresentElsewhere(rules: seq<Rule>, rule: Rule, id: RuleId)
    requires FindRule(WithRule(rules, rule), id).None?
    ensures rule.id != id
  {
    WithRuleFinds(rules, rule);
  }

  lemma NothingToCopy(recipe: Recipe, s: Snapshot, request: DuplicateRequest)
    requires FindRule(s.tree.rules, request.source).None?
    ensures DuplicateStep(recipe, s, request) == (s, Rejected)
  {
  }

  /** When two duplicates are applied one after the other, the swapped order ends in the same context exactly when
      the second does not copy what the first makes and the other packages accept the second alone; otherwise the
      second is rejected first, and only the first has an effect. */
  lemma OrderIff(recipe: Recipe, s: Snapshot, first: DuplicateRequest, second: DuplicateRequest)
    requires Loadable(recipe, s.tree) && BothApplied(recipe, s, first, second)
    ensures var one := DuplicateStep(recipe, s, first).0;
            var both := DuplicateStep(recipe, one, second).0;
            var rule := RequestedRule(recipe, one.tree.rules, second);
            var (other, result) := DuplicateStep(recipe, s, second);
            && rule.Some? && both.tree != one.tree
            && if second.source != first.destination && recipe.loads(Candidate(s.tree, rule.value)) then
                 result == Applied && DuplicateStep(recipe, other, first) == (both, Applied)
               else
                 result == Rejected && other == s && DuplicateStep(recipe, other, first) == (one, Applied)
  {
    var one := DuplicateStep(recipe, s, first).0;
    AppliedRoom(recipe, s, first);
    AppliedRoom(recipe, one, second);
    var a := RequestedRule(recipe, s.tree.rules, first).value;
    var b := RequestedRule(recipe, one.tree.rules, second).value;
    FreeIsNew(one.tree.rules, b.id);
    WithRuleFinds(one.tree.rules, b);
    if second.source != first.destination {
      SwappedApart(recipe, s, first, second, a, b);
    } else {
      FreeIsNew(s.tree.rules, a.id);
      NothingToCopy(recipe, s, second);
    }
  }
}
