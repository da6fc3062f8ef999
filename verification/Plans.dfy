/**
 Planning a RuleID and installing a rule under it, over whole runs of a context with a dynamic
 namespace: planning fails only by exhaustion, and installing what was planned passes every check
 this program makes.
 */
module Plans {
  import opened Bits
  import opened Wrappers
  import opened Sorting
  import opened RuleIds
  import opened RuleModel
  import opened Allocation
  import opened Kraft
  import opened Policy
  import opened Paths
  import opened Duplicate
  import opened Context
  import opened Management
  import opened Runs

  /** In any reachable state, allocation over the context's own RuleIDs neither reports a collision nor an
      invalid RuleID: it succeeds, or the namespace is full to the last leaf. */
  lemma PlanningFailsOnlyByExhaustion(recipe: Recipe, w: World, es: seq<Event>, depth: nat,
                                      r: Result<RuleId, TreeError>)
    requires Loadable(recipe, w.snap.tree) && recipe.namespace.Some? && IsDepth(recipe.namespace.value, depth)
    requires Outcome(recipe.namespace.value, RuleIdsOf(Run(recipe, w, es).snap.tree.rules), r)
    ensures var ns, ids := recipe.namespace.value, RuleIdsOf(Run(recipe, w, es).snap.tree.rules);
            && Settled(ns, ids)
            && (r.Ok? || r == Err(Exhausted))
            && (r == Err(Exhausted) <==> KraftSum(ns, ids, depth) == Capacity(ns, depth))
  {
    RunInvariant(recipe, w, es);
    LoadableSettled(recipe, Run(recipe, w, es).snap.tree);
    ExhaustedIffFull(recipe.namespace.value, RuleIdsOf(Run(recipe, w, es).snap.tree.rules), depth, r);
  }

  /** Inserting a rule inserts its RuleID at the same place. */
  lemma InsertedIds(before: seq<Rule>, after: seq<Rule>, rule: Rule, k: nat)
    requires InsertedRule(before, after, rule, k)
    ensures InsertedAt(RuleIdsOf(before), RuleIdsOf(after), rule.id, k)
  {
    var a, b := RuleIdsOf(before), RuleIdsOf(after);
    assert |b| == |a| + 1;
    forall i | 0 <= i < |b| ensures b[i] == (a[..k] + [rule.id] + a[k..])[i] {
      assert after[i] == if i < k then before[i] else if i == k then rule else before[i - 1];
    }
  }

  /** A rule under a RuleID that overlaps none of the context's has a new RuleID. */
  lemma FreeIsNew(rules: seq<Rule>, id: RuleId)
    requires AllValid(RuleIdsOf(rules)) && ValidSpec(id) && !Blocked(RuleIdsOf(rules), id)
    ensures FindRule(rules, id).None?
  {
    var ids := RuleIdsOf(rules);
    forall i | 0 <= i < |rules| ensures rules[i].id != id {
      assert !Overlaps(ids[i], id);
      QuotientIs(id.value, 1, id.value);
      assert Pow2(0) == 1;
    }
  }

  ghost predicate Planned(recipe: Recipe, tree: Tree, id: RuleId) {
    recipe.namespace.Some? && Outcome(recipe.namespace.value, RuleIdsOf(tree.rules), Ok(id))
  }

  /** Everything about the candidate except what other packages say of it. */
  lemma PlannedCandidate(recipe: Recipe, tree: Tree, rule: Rule)
    requires Loadable(recipe, tree) && Planned(recipe, tree, rule.id)
    requires CanonicalEntries(rule.entries) && rule.nature != Management
    ensures FindRule(tree.rules, rule.id).None? && ValidSpec(rule.id) && Accepts(recipe.namespace.value, rule.id)
    ensures var candidate := Tree(WithRule(tree.rules, rule), tree.guardPeriod);
            && Canonical(candidate)
            && Settled(recipe.namespace.value, RuleIdsOf(candidate.rules))
            && ProtectionKept(tree.rules, candidate.rules)
  {
    var ns := recipe.namespace.value;
    var candidate := Tree(WithRule(tree.rules, rule), tree.guardPeriod);
    LoadableUnique(recipe, tree);
    LoadableSettled(recipe, tree);
    FreeIsNew(tree.rules, rule.id);
    var k := WithRuleInserts(tree.rules, rule);
    InsertedCanonical(tree, candidate, rule, k);
    InsertedKeepsProtected(tree.rules, candidate.rules, rule, k);
    InsertedIds(tree.rules, candidate.rules, rule, k);
    InstallKeepsSettled(ns, RuleIdsOf(tree.rules), RuleIdsOf(candidate.rules), rule.id, k);
  }

  lemma SettledAdmissible(recipe: Recipe, tree: Tree, candidate: Tree)
    requires recipe.namespace.Some? && Canonical(candidate)
    requires Settled(recipe.namespace.value, RuleIdsOf(candidate.rules))
    requires ProtectionKept(tree.rules, candidate.rules)
    ensures Admissible(recipe, tree, candidate) <==> recipe.loads(candidate)
  {
  }

  /** What stands between a planned rule and its publication. */
  lemma PlannedAdmissible(recipe: Recipe, tree: Tree, rule: Rule)
    requires Loadable(recipe, tree) && Planned(recipe, tree, rule.id)
    requires CanonicalEntries(rule.entries) && rule.nature != Management && ValidSelector(rule.id)
    ensures FindRule(tree.rules, rule.id).None? && InNamespace(recipe, rule.id)
    ensures var candidate := Tree(WithRule(tree.rules, rule), tree.guardPeriod);
            Admissible(recipe, tree, candidate) <==> recipe.loads(candidate)
  {
    PlannedCandidate(recipe, tree, rule);
    SettledAdmissible(recipe, tree, Tree(WithRule(tree.rules, rule), tree.guardPeriod));
  }

  lemma InstallNew(recipe: Recipe, s: Snapshot, rule: Rule)
    requires ValidSelector(rule.id) && FindRule(s.tree.rules, rule.id).None? && InNamespace(recipe, rule.id)
    ensures var candidate := Tree(WithRule(s.tree.rules, rule), s.tree.guardPeriod);
            InstallStep(recipe, s, rule) ==
            if Admissible(recipe, s.tree, candidate) then (Snapshot(candidate, s.generation + 1), Applied)
            else (s, Rejected)
  {
  }

  /** Installing an ordinary rule under the planned RuleID passes the namespace guard, the normal form, the
      prefix check and the protection check: it is applied unless another package refuses the context. */
  lemma InstallPlanned(recipe: Recipe, s: Snapshot, rule: Rule)
    requires Loadable(recipe, s.tree) && Planned(recipe, s.tree, rule.id)
    requires CanonicalEntries(rule.entries) && rule.nature != Management && ValidSelector(rule.id)
    ensures var candidate := Tree(WithRule(s.tree.rules, rule), s.tree.guardPeriod);
            InstallStep(recipe, s, rule) ==
            if recipe.loads(candidate) then (Snapshot(candidate, s.generation + 1), Applied) else (s, Rejected)
  {
    PlannedAdmissible(recipe, s.tree, rule);
    InstallNew(recipe, s, rule);
  }

  /** The same for a whole duplicate request to the planned RuleID. */
  lemma DuplicateToPlanned(recipe: Recipe, s: Snapshot, request: DuplicateRequest)
    requires Loadable(recipe, s.tree) && Planned(recipe, s.tree, request.destination)
    requires RequestedRule(recipe, s.tree.rules, request).Some?
    ensures var rule := RequestedRule(recipe, s.tree.rules, request).value;
            var candidate := Tree(WithRule(s.tree.rules, rule), s.tree.guardPeriod);
            DuplicateStep(recipe, s, request) ==
            if recipe.loads(candidate) then (Snapshot(candidate, s.generation + 1), Applied) else (s, Rejected)
  {
    var rule := RequestedRule(recipe, s.tree.rules, request).value;
    RequestedIsOrdinary(recipe, s.tree, request);
    InstallPlanned(recipe, s, rule);
  }

  lemma RequestedIsOrdinary(recipe: Recipe, tree: Tree, request: DuplicateRequest)
    requires Canonical(tree) && RequestedRule(recipe, tree.rules, request).Some?
    ensures var rule := RequestedRule(recipe, tree.rules, request).value;
            CanonicalEntries(rule.entries) && rule.nature != Management
  {
    var list := Decoded(recipe, request).value;
    DestinationIdentity(tree.rules, request.source, request.destination, request.groups, recipe.sids);
    DestinationShape(tree.rules, request.source, request.destination, list);
    CanonicalMember(tree, FindRule(tree.rules, request.source).value);
  }

  // ---------- how many duplicates a run can apply ----------

  ghost predicate Applies(recipe: Recipe, w: World, e: Event) {
    e.Copy? && DuplicateStep(recipe, w.snap, e.copy).1 == Applied
  }

  ghost function Applications(recipe: Recipe, w: World, es: seq<Event>): nat {
    if es == [] then 0
    else
      var init := es[..|es| - 1];
      Applications(recipe, w, init) + if Applies(recipe, Run(recipe, w, init), es[|es| - 1]) then 1 else 0
  }

  /** A new rule of the namespace fills at least one more leaf. */
  lemma NewRuleFills(ns: Namespace, rules: seq<Rule>, rule: Rule, depth: nat)
    requires IsDepth(ns, depth) && Sorted(RuleKey, rules) && FindRule(rules, rule.id).None?
    requires AllValid(RuleIdsOf(rules)) && AllValid(RuleIdsOf(WithRule(rules, rule)))
    requires rule.id.length <= 64 && Accepts(ns, rule.id)
    ensures KraftSum(ns, RuleIdsOf(WithRule(rules, rule)), depth) >= KraftSum(ns, RuleIdsOf(rules), depth) + 1
  {
    var after := WithRule(rules, rule);
    var k := WithRuleInserts(rules, rule);
    InsertedIds(rules, after, rule, k);
    assert RuleIdsOf(after)[k] == rule.id;
    InsertAddsWeight(ns, RuleIdsOf(rules), RuleIdsOf(after), rule.id, k, depth);
  }

  /** An applied duplicate puts one more RuleID of the namespace into the context. */
  lemma AppliedFills(recipe: Recipe, s: Snapshot, request: DuplicateRequest, depth: nat)
    requires Loadable(recipe, s.tree) && recipe.namespace.Some? && IsDepth(recipe.namespace.value, depth)
    requires DuplicateStep(recipe, s, request).1 == Applied
    ensures var after := DuplicateStep(recipe, s, request).0.tree;
            && AllValid(RuleIdsOf(after.rules))
            && KraftSum(recipe.namespace.value, RuleIdsOf(after.rules), depth)
               >= KraftSum(recipe.namespace.value, RuleIdsOf(s.tree.rules), depth) + 1
  {
    AppliedMeans(recipe, s, request);
    NewRuleFills(recipe.namespace.value, s.tree.rules, RequestedRule(recipe, s.tree.rules, request).value, depth);
  }

  lemma PatchedIds(rules: seq<Rule>, patched: seq<Rule>, t: TargetPath, bytes: seq<byte>)
    requires |patched| == |rules|
    requires forall i :: 0 <= i < |rules| ==> patched[i] == PatchRule(rules[i], t, bytes)
    ensures RuleIdsOf(patched) == RuleIdsOf(rules)
  {
  }

  lemma ServiceStepFills(recipe: Recipe, w: World, e: Event, depth: nat)
    requires Loadable(recipe, w.snap.tree) && recipe.namespace.Some? && IsDepth(recipe.namespace.value, depth)
    requires e.Patch? || e.Copy?
    ensures AllValid(RuleIdsOf(Step(recipe, w, e).snap.tree.rules))
    ensures KraftSum(recipe.namespace.value, RuleIdsOf(Step(recipe, w, e).snap.tree.rules), depth)
            >= KraftSum(recipe.namespace.value, RuleIdsOf(w.snap.tree.rules), depth)
               + if Applies(recipe, w, e) then 1 else 0
  {
    if e.Copy? {
      if Applies(recipe, w, e) {
        AppliedFills(recipe, w.snap, e.copy, depth);
      }
    } else if Step(recipe, w, e).snap != w.snap {
      var t := ParseTargetPath(e.patch.instances[0].path, recipe.sids).value;
      PatchedIds(w.snap.tree.rules, Step(recipe, w, e).snap.tree.rules, t, e.patch.instances[0].value.value);
    }
  }

  /** However duplicates are requested, a run of the service applies at most as many as there were free leaves. */
  lemma {:induction false} ServiceRunIsBounded(recipe: Recipe, w: World, es: seq<Event>, depth: nat)
    requires Loadable(recipe, w.snap.tree) && recipe.namespace.Some? && IsDepth(recipe.namespace.value, depth)
    requires ServiceOnly(es)
    ensures var end := Run(recipe, w, es).snap.tree;
            && Loadable(recipe, end)
            && KraftSum(recipe.namespace.value, RuleIdsOf(end.rules), depth)
               >= KraftSum(recipe.namespace.value, RuleIdsOf(w.snap.tree.rules), depth) + Applications(recipe, w, es)
    ensures Applications(recipe, w, es) <=
            Capacity(recipe.namespace.value, depth)
            - KraftSum(recipe.namespace.value, RuleIdsOf(w.snap.tree.rules), depth)
  {
    RunInvariant(recipe, w, es);
    if es != [] {
      var init := es[..|es| - 1];
      ServiceRunIsBounded(recipe, w, init, depth);
      ServiceStepFills(recipe, Run(recipe, w, init), es[|es| - 1], depth);
    }
    KraftBound(recipe.namespace.value, RuleIdsOf(Run(recipe, w, es).snap.tree.rules), depth);
  }
}
